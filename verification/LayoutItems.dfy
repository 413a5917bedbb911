// layout-items: the custom conversions of VAA fields. Each is shown to be lossless, which is what the
// round-trip laws of the layout engine ask of a conversion.
module LayoutItems {
  import opened Common
  import opened BigEndian
  import opened Layouts
  import opened Serialize
  import opened Deserialize
  import opened RoundTrip
  import M = Mapping

  /** A JavaScript string among the values of records. */
  function StringV(s: string): Value {
    Custom(s, [])
  }

  predicate IsString(v: Value) {
    v.Custom? && v.parts == []
  }

  // ---- chain.ts ---------------------------------------------------------------------------

  /** chainToChainId and chainIdToChain, the two constMaps over the table of chains. */
  datatype ChainMaps = ChainMaps(table: seq<seq<M.Val>>, toId: M.Mapping, toChain: M.Mapping) {

    ghost predicate Valid() {
      && M.GivesCells(toId, table, 0) && M.FindsOnlyCells(toId, table, 0)
      && M.GivesCells(toChain, table, 1) && M.FindsOnlyCells(toChain, table, 1)
      && forall i | 0 <= i < |table| :: table[i][0].Str? && table[i][1].Num? && table[i][1].n > 0
    }
  }

  function ChainRow(entry: (string, int)): seq<M.Val> {
    [M.Str(entry.0), M.Num(entry.1)]
  }

  method BuildMap(table: seq<seq<M.Val>>, shape: Option<M.Shape>, ghost c: int) returns (m: M.Mapping)
    requires |table| > 0 && M.Bijective(table) && (c == 0 || c == 1)
    requires M.ShapeFor(table, shape, M.Shape([c], [1 - c]))
    ensures M.GivesCells(m, table, c) && M.FindsOnlyCells(m, table, c)
  {
    M.TwoColumnsSplit(table, c);
    M.BijectiveColumn(table, c);
    assert M.ValidShape(table, M.Shape([c], [1 - c])) by {
      forall row | row in table
        ensures M.Mappable(M.CellAt(row, c))
      {
        var i :| 0 <= i < |table| && table[i] == row;
      }
    }
    var r := M.ToMapping(table, shape);
    assert M.IndexesTable(r.value, table, M.Shape([c], [1 - c]));
    m := r.value;
    M.BijectiveGivesCells(m, table, c);
    M.BijectiveFindsOnlyCells(m, table, c);
  }

  /** Both maps, built from entries with distinct names and distinct positive ids. */
  method BuildChainMaps(entries: seq<(string, int)>) returns (chains: ChainMaps)
    requires |entries| > 0 && forall e <- entries :: e.1 > 0
    requires forall i, j | 0 <= i < j < |entries| :: entries[i].0 != entries[j].0 && entries[i].1 != entries[j].1
    ensures chains.Valid()
    ensures |chains.table| == |entries| && forall i | 0 <= i < |entries| :: chains.table[i] == ChainRow(entries[i])
  {
    var table := seq(|entries|, i requires 0 <= i < |entries| => ChainRow(entries[i]));
    ChainTableIsBijective(entries, table);
    assert M.ShapeFor(table, None, M.Shape([0], [1]));
    var toId := BuildMap(table, None, 0);
    var toChain := BuildMap(table, Some(M.Shape([1], [0])), 1);
    chains := ChainMaps(table, toId, toChain);
  }

  lemma ChainTableIsBijective(entries: seq<(string, int)>, table: seq<seq<M.Val>>)
    requires forall e <- entries :: e.1 > 0
    requires forall i, j | 0 <= i < j < |entries| :: entries[i].0 != entries[j].0 && entries[i].1 != entries[j].1
    requires |table| == |entries| && forall i | 0 <= i < |entries| :: table[i] == ChainRow(entries[i])
    ensures M.Bijective(table)
  {
    forall i, j | 0 <= i < j < |table|
      ensures M.KeyString(table[i][1]) != M.KeyString(table[j][1])
    {
      assert entries[i] in entries && entries[j] in entries;
      if M.KeyString(table[i][1]) == M.KeyString(table[j][1]) {
        M.DecimalIsInjective(entries[i].1, entries[j].1);
      }
    }
  }

  /** The options of chainItem; without `allowedChains` all chains are. */
  datatype ChainOptions = ChainOptions(allowNull: bool, allowedChains: Option<set<string>>) {

    predicate Allows(name: string) {
      allowedChains.Some? ==> name in allowedChains.value
    }
  }

  const NO_OPTIONS := ChainOptions(false, None)

  /** `to`: 0 stands for null, if that is allowed, and an unknown id for nothing. */
  function ChainOfId(chains: ChainMaps, opts: ChainOptions, u: Uint): Option<Value> {
    if !u.Num? then None
    else if u.n == 0 then if opts.allowNull then Some(Null) else None
    else
      match M.Access(chains.toChain, [M.Num(u.n)])
      case Str(name) => if opts.Allows(name) then Some(StringV(name)) else None
      case _ => None
  }

  /** `from`: null stands for chain 0, and an unknown name for nothing that can be serialized. */
  function IdOfChain(chains: ChainMaps, v: Value): Option<Uint> {
    if v.Null? || v.Undefined? then Some(Num(0))
    else if !IsString(v) then None
    else
      match M.Access(chains.toId, [M.Str(v.kind)])
      case Num(n) => Some(Num(n))
      case _ => None
  }

  function ChainConversion(chains: ChainMaps, opts: ChainOptions): UintConversion {
    UintConversion(u => ChainOfId(chains, opts, u), v => IdOfChain(chains, v))
  }

  function ChainItem(name: string, chains: ChainMaps, opts: ChainOptions): Item {
    UintItem(name, 2, ConvertedUint(ChainConversion(chains, opts)))
  }

  /** A row of the table of chains as the maps see it. */
  ghost predicate IsChain(chains: ChainMaps, name: string, id: nat) {
    id > 0 && M.Access(chains.toId, [M.Str(name)]) == M.Num(id) && M.Access(chains.toChain, [M.Num(id)]) == M.Str(name)
  }

  lemma ChainAtRow(chains: ChainMaps, i: nat)
    requires chains.Valid() && i < |chains.table|
    ensures IsChain(chains, chains.table[i][0].s, chains.table[i][1].n)
  {
    assert M.Access(chains.toId, [chains.table[i][0]]) == chains.table[i][1];
    assert M.Access(chains.toChain, [chains.table[i][1]]) == chains.table[i][0];
  }

  /** An id that has a chain is the id of that chain. */
  lemma ChainWithId(chains: ChainMaps, n: nat)
    requires chains.Valid() && M.Has(chains.toChain, [M.Num(n)])
    ensures exists name :: IsChain(chains, name, n)
  {
    assert M.Finds(chains.toChain, M.Num(n));
    var i: nat :| M.IsCell(chains.toChain, chains.table, 1, M.Num(n), i);
    M.DecimalIsInjective(chains.table[i][1].n, n);
    ChainAtRow(chains, i);
  }

  /** A name that has an id is the chain of that id. */
  lemma ChainWithName(chains: ChainMaps, name: string)
    requires chains.Valid() && M.Has(chains.toId, [M.Str(name)])
    ensures exists id: nat :: IsChain(chains, name, id)
  {
    assert M.Finds(chains.toId, M.Str(name));
    var i: nat :| M.IsCell(chains.toId, chains.table, 0, M.Str(name), i);
    ChainAtRow(chains, i);
  }

  /** A chain that an id was decoded to encodes as that id, and so does null. */
  lemma ChainIdComesBack(chains: ChainMaps, opts: ChainOptions, n: nat)
    requires chains.Valid() && ChainOfId(chains, opts, Num(n)).Some?
    ensures IdOfChain(chains, ChainOfId(chains, opts, Num(n)).value) == Some(Num(n))
  {
    if n != 0 {
      ChainWithId(chains, n);
    }
  }

  /** A chain that is encoded decodes as that chain just if it is allowed. */
  lemma ChainComesBack(chains: ChainMaps, opts: ChainOptions, name: string)
    requires chains.Valid() && IdOfChain(chains, StringV(name)).Some?
    ensures ChainOfId(chains, opts, IdOfChain(chains, StringV(name)).value)
         == if opts.Allows(name) then Some(StringV(name)) else None
  {
    ChainWithName(chains, name);
  }

  /** What decoding what `v` was encoded as does not lead back to `v`: null and chains that are not allowed. */
  predicate Forbidden(chains: ChainMaps, opts: ChainOptions, v: Value) {
    if v.Null? then !opts.allowNull else IsString(v) && IdOfChain(chains, v).Some? && !opts.Allows(v.kind)
  }

  lemma ChainConforms(chains: ChainMaps, opts: ChainOptions, v: Value)
    requires chains.Valid() && (v.Null? || IsString(v))
    ensures UintConforms(ConvertedUint(ChainConversion(chains, opts)), 2, v) <==> !Forbidden(chains, opts, v)
  {
    if v.Null? {
      assert IdOfChain(chains, v) == Some(Num(0));
    } else if IdOfChain(chains, v).Some? {
      ChainComesBack(chains, opts, v.kind);
    }
  }

  lemma ChainIsLossless(chains: ChainMaps, opts: ChainOptions)
    requires chains.Valid()
    ensures UintLossless(ConvertedUint(ChainConversion(chains, opts)), 2)
  {
    forall n: nat | ChainOfId(chains, opts, Num(n)).Some?
      ensures IdOfChain(chains, ChainOfId(chains, opts, Num(n)).value) == Some(Num(n))
    {
      ChainIdComesBack(chains, opts, n);
    }
  }

  /** Hence chainItem is lossless both ways, except for null and chains where the options forbid them. */
  lemma ChainItemIsLossless(name: string, chains: ChainMaps, opts: ChainOptions)
    requires chains.Valid()
    ensures ItemLossless(ChainItem(name, chains, opts))
    ensures forall v: Value | v.Null? || IsString(v) ::
              ItemConforms(ChainItem(name, chains, opts), v) <==> !Forbidden(chains, opts, v)
  {
    ChainIsLossless(chains, opts);
    forall v: Value | v.Null? || IsString(v)
      ensures ItemConforms(ChainItem(name, chains, opts), v) <==> !Forbidden(chains, opts, v)
    {
      ChainConforms(chains, opts, v);
    }
  }

  /** Whatever the options, no chain is printed as chain 0. */
  lemma NoChainPrintsAsZero(name: string, chains: ChainMaps, opts: ChainOptions, v: Value)
    requires v.Null? || v.Undefined?
    ensures ItemBytes(ChainItem(name, chains, opts), v) == Ok([0, 0])
  {
    assert StoredUint(ConvertedUint(ChainConversion(chains, opts)), v) == Ok(Num(0));
    assert Digits(0, 0) == [] && Digits(0, 1) == [0] && Digits(0, 2) == [0, 0];
    assert Pow256(1) == 256 && Pow256(2) == 0x1_0000;
  }

  // ---- signature.ts -----------------------------------------------------------------------

  const SIGNATURE_LAYOUT: Layout :=
    [UintItem("r", 32, PlainUint), UintItem("s", 32, PlainUint), UintItem("v", 1, PlainUint)]

  const SIGNATURE_SIZE := 65

  function SignatureRecord(r: Value, s: Value, v: Value): Fields {
    map["r" := r, "s" := s, "v" := v]
  }

  /** `to` and `from`, with the layout that they decode and encode. */
  function ToSignature(layout: Layout, b: bytes): Option<Value> {
    match ParseAll(layout, b, 0)
    case Ok(RecordV(sig)) =>
      if sig.Keys == {"r", "s", "v"} then Some(Custom("Signature", [sig["r"], sig["s"], sig["v"]])) else None
    case _ => None
  }

  function FromSignature(layout: Layout, val: Value): Option<bytes> {
    if val.Custom? && val.kind == "Signature" && |val.parts| == 3 then
      match LayoutBytes(layout, RecordV(SignatureRecord(val.parts[0], val.parts[1], val.parts[2])))
      case Ok(b) => Some(b)
      case Err(_) => None
    else None
  }

  function SignatureConversion(): BytesConversion {
    BytesConversion(b => ToSignature(SIGNATURE_LAYOUT, b), v => FromSignature(SIGNATURE_LAYOUT, v))
  }

  function SignatureItem(name: string): Item {
    BytesItem(name, SizedBytes(SIGNATURE_SIZE, Some(SignatureConversion())))
  }

  /** An instance of Signature: r and s are bigints, v is a number. */
  predicate IsSignature(v: Value) {
    && v.Custom? && v.kind == "Signature" && |v.parts| == 3
    && v.parts[0].UintV? && v.parts[0].u.Big? && v.parts[1].UintV? && v.parts[1].u.Big?
    && v.parts[2].UintV? && v.parts[2].u.Num?
  }

  lemma SignatureNames()
    ensures Names(SIGNATURE_LAYOUT) == {"r", "s", "v"}
    ensures Lossless(SIGNATURE_LAYOUT) && DistinctNames(SIGNATURE_LAYOUT)
    ensures Delimited(SIGNATURE_LAYOUT) && !LayoutOpenEnded(SIGNATURE_LAYOUT)
  {
    var tail: Layout := [UintItem("s", 32, PlainUint), UintItem("v", 1, PlainUint)];
    assert SIGNATURE_LAYOUT[1..] == tail && tail[1..] == [UintItem("v", 1, PlainUint)];
    assert tail[1..][1..] == [];
  }

  lemma SignatureItemIsLossless(name: string)
    ensures ItemLossless(SignatureItem(name))
    ensures forall v | IsSignature(v) :: ItemConforms(SignatureItem(name), v)
  {
    SignatureNames();
    forall b: bytes | ToSignature(SIGNATURE_LAYOUT, b).Some?
      ensures FromSignature(SIGNATURE_LAYOUT, ToSignature(SIGNATURE_LAYOUT, b).value) == Some(b)
    {
      SignatureBytesComeBack(SIGNATURE_LAYOUT, b);
    }
    forall v | IsSignature(v)
      ensures ItemConforms(SignatureItem(name), v)
    {
      if FromSignature(SIGNATURE_LAYOUT, v).Some? {
        SignatureCarries(SignatureRecord(v.parts[0], v.parts[1], v.parts[2]));
        SignatureComesBack(SIGNATURE_LAYOUT, v);
      }
    }
  }

  lemma SignatureBytesComeBack(layout: Layout, b: bytes)
    requires Lossless(layout) && DistinctNames(layout) && ToSignature(layout, b).Some?
    ensures FromSignature(layout, ToSignature(layout, b).value) == Some(b)
  {
    EncodeUndoesDecode(layout, b);
    var sig := ParseAll(layout, b, 0).value.fields;
    assert sig == SignatureRecord(sig["r"], sig["s"], sig["v"]);
  }

  lemma SignatureComesBack(layout: Layout, v: Value)
    requires Delimited(layout) && Names(layout) == {"r", "s", "v"}
    requires IsSignature(v) && Carries(layout, SignatureRecord(v.parts[0], v.parts[1], v.parts[2]))
    requires FromSignature(layout, v).Some?
    ensures ToSignature(layout, FromSignature(layout, v).value) == Some(v)
  {
    var sig := SignatureRecord(v.parts[0], v.parts[1], v.parts[2]);
    assert sig.Keys == {"r", "s", "v"};
    DecodeAllUndoesEncode(layout, RecordV(sig));
    assert v.parts == [sig["r"], sig["s"], sig["v"]];
  }

  lemma SignatureCarries(sig: Fields)
    requires sig.Keys == {"r", "s", "v"}
    requires sig["r"].UintV? && sig["r"].u.Big? && sig["s"].UintV? && sig["s"].u.Big?
    requires sig["v"].UintV? && sig["v"].u.Num?
    ensures Carries(SIGNATURE_LAYOUT, sig)
  {
    var tail: Layout := [UintItem("s", 32, PlainUint), UintItem("v", 1, PlainUint)];
    assert SIGNATURE_LAYOUT[1..] == tail && tail[1..] == [UintItem("v", 1, PlainUint)];
    assert tail[1..][1..] == [];
  }

  // ---- universalAddress.ts ----------------------------------------------------------------

  const ADDRESS_SIZE := 32

  function AddressTo(b: bytes): Option<Value> {
    Some(Custom("UniversalAddress", [BytesV(b)]))
  }

  function AddressFrom(v: Value): Option<bytes> {
    if v.Custom? && v.kind == "UniversalAddress" && |v.parts| == 1 && v.parts[0].BytesV? then Some(v.parts[0].b) else None
  }

  function AddressConversion(): BytesConversion {
    BytesConversion(b => AddressTo(b), v => AddressFrom(v))
  }

  function AddressItem(name: string): Item {
    BytesItem(name, SizedBytes(ADDRESS_SIZE, Some(AddressConversion())))
  }

  lemma AddressItemIsLossless(name: string)
    ensures ItemLossless(AddressItem(name)) && forall v :: ItemConforms(AddressItem(name), v)
  {
    forall v | AddressFrom(v).Some?
      ensures AddressTo(AddressFrom(v).value) == Some(v)
    {
      assert v.parts == [v.parts[0]];
    }
  }
}
