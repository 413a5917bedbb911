// mapping.ts and array.ts: constMap flattens its entries to a table and builds a nested index over
// chosen key and value columns of it. The index is proved to agree with a linear scan of the table.
module Mapping {
  import opened Common

  /** A JavaScript value as far as the mapping looks into it. */
  datatype Val =
    | Undef
    | Null
    | Str(s: string)
    | Num(n: int)
    | BigNum(n: int)
    | Bool(b: bool)
    | Obj(id: nat)
    | Arr(elems: seq<Val>)

  /** isMappableKey */
  predicate Mappable(v: Val): (r: bool)
    ensures r <==> !(v.Undef? || v.Null? || v.Obj? || v.Arr?)
  {
    v.Str? || v.Num? || v.BigNum? || v.Bool?
  }

  function DigitChar(d: nat): (c: char)
    requires d < 10
    ensures c as int == '0' as int + d
  {
    ('0' as int + d) as char
  }

  function Decimal(n: nat): (s: string)
    ensures |s| >= 1 && (|s| == 1 <==> n < 10)
  {
    if n < 10 then [DigitChar(n)] else Decimal(n / 10) + [DigitChar(n % 10)]
  }

  lemma {:induction false} DecimalIsInjective(a: nat, b: nat)
    requires Decimal(a) == Decimal(b)
    ensures a == b
  {
    var s := Decimal(a);
    assert s[|s| - 1] == DigitChar(a % 10) && s[|s| - 1] == DigitChar(b % 10);
    if a >= 10 {
      assert s[..|s| - 1] == Decimal(a / 10) && s[..|s| - 1] == Decimal(b / 10);
      DecimalIsInjective(a / 10, b / 10);
    }
  }

  /** The property name that a key turns into. */
  function KeyString(v: Val): string {
    match v
    case Str(s) => s
    case Num(n) => if n < 0 then "-" + Decimal(-n) else Decimal(n)
    case BigNum(n) => if n < 0 then "-" + Decimal(-n) else Decimal(n)
    case Bool(b) => if b then "true" else "false"
    case _ => ""
  }

  function DecimalValue(s: string): int {
    if |s| == 0 then 0 else DecimalValue(s[..|s| - 1]) * 10 + (s[|s| - 1] as int - '0' as int)
  }

  lemma {:induction false} DecimalDenotes(n: nat)
    ensures DecimalValue(Decimal(n)) == n
  {
    var s := Decimal(n);
    if n >= 10 {
      assert s[..|s| - 1] == Decimal(n / 10);
      DecimalDenotes(n / 10);
    } else {
      assert s[..0] == "";
    }
  }

  /** A number as a key is the string of its decimal digits, with a minus sign if it is negative; a bigint is no different. */
  lemma NumbersAsKeys(n: int)
    ensures KeyString(BigNum(n)) == KeyString(Num(n))
    ensures n >= 0 ==> DecimalValue(KeyString(Num(n))) == n
    ensures n < 0 ==> KeyString(Num(n))[..1] == "-" && DecimalValue(KeyString(Num(n))[1..]) == -n
  {
    DecimalDenotes(if n < 0 then -n else n);
    assert n < 0 ==> KeyString(Num(n))[1..] == Decimal(-n);
  }

  // ---- array.ts ---------------------------------------------------------------------------

  function CellAt(row: seq<Val>, col: int): Val {
    if 0 <= col < |row| then row[col] else Undef
  }

  /** zip: transposition. */
  function Zip(a: seq<seq<Val>>): seq<seq<Val>>
    requires |a| > 0
  {
    seq(|a[0]|, col => seq(|a|, row requires 0 <= row < |a| => CellAt(a[row], col)))
  }

  predicate Rectangular(a: seq<seq<Val>>, width: nat) {
    forall i | 0 <= i < |a| :: |a[i]| == width
  }

  /** Transposing twice gives the table back. */
  lemma ZipTwice(a: seq<seq<Val>>, width: nat)
    requires |a| > 0 && width > 0 && Rectangular(a, width)
    ensures |Zip(a)| == width && Zip(Zip(a)) == a
  {
    assert |a[0]| == width && |Zip(a)[0]| == |a|;
    forall i | 0 <= i < |a|
      ensures Zip(Zip(a))[i] == a[i]
    {
      forall c | 0 <= c < width
        ensures Zip(Zip(a))[i][c] == a[i][c]
      {
        assert Zip(a)[c][i] == CellAt(a[i], c);
      }
    }
  }

  // ---- from entries to a table ------------------------------------------------------------

  predicate IsRecursiveTuple(arr: seq<Val>) {
    |arr| == 2 && !arr[0].Arr? && arr[1].Arr?
  }

  /** `[key, ele].flat()` */
  function Joined(key: Val, ele: Val): Val {
    Arr((if key.Arr? then key.elems else [key]) + (if ele.Arr? then ele.elems else [ele]))
  }

  function JoinAll(key: Val, eles: seq<Val>): seq<Val> {
    seq(|eles|, i requires 0 <= i < |eles| => Joined(key, eles[i]))
  }

  function PairAll(key: Val, eles: seq<Val>): seq<Val> {
    seq(|eles|, i requires 0 <= i < |eles| => Arr([key, eles[i]]))
  }

  /** Destructuring something that is not an array is an error (`None`). */
  function CartesianRightRecursive(arr: seq<Val>): Option<seq<Val>>
    decreases arr, 1
  {
    if |arr| == 0 then Some([])
    else if arr[0].Arr? then ExpandEntries(arr)
    else if IsRecursiveTuple(arr) then
      match CartesianRightRecursive(arr[1].elems)
      case None => None
      case Some(eles) => Some(PairAll(arr[0], eles))
    else Some(arr)
  }

  function ExpandEntry(entry: Val): Option<seq<Val>>
    decreases entry, 0
  {
    if !entry.Arr? then None
    else
      var key, val := CellAt(entry.elems, 0), CellAt(entry.elems, 1);
      if !val.Arr? then Some([Arr([key, val])])
      else if !IsRecursiveTuple(val.elems) then Some(JoinAll(key, val.elems))
      else
        match CartesianRightRecursive(val.elems)
        case None => None
        case Some(eles) => Some(JoinAll(key, eles))
  }

  function ExpandEntries(arr: seq<Val>): Option<seq<Val>>
    decreases arr, 0
  {
    if |arr| == 0 then Some([])
    else
      match (ExpandEntry(arr[0]), ExpandEntries(arr[1..]))
      case (Some(first), Some(rest)) => Some(first + rest)
      case _ => None
  }

  /** What stands to the right of a top-level key in entries of one or two levels. */
  datatype Side =
    | Single(v: Val)                      // [key, v]
    | Listing(vs: seq<Val>)               // [key, [v, ...]]
    | Paired(key: Val, vs: seq<Val>)      // [key, [key2, [v, ...]]]
    | Nested(subs: seq<(Val, Val)>)       // [key, [[key2, v], ...]]

  predicate Plain(vs: seq<Val>) {
    forall v <- vs :: !v.Arr?
  }

  predicate WellFormedSide(side: Side) {
    match side
    case Single(v) => !v.Arr?
    case Listing(vs) => Plain(vs)
    case Paired(key, vs) => !key.Arr? && Plain(vs)
    case Nested(subs) => forall sub <- subs :: !sub.0.Arr?
  }

  function SideVal(side: Side): Val {
    match side
    case Single(v) => v
    case Listing(vs) => Arr(vs)
    case Paired(key, vs) => Arr([key, Arr(vs)])
    case Nested(subs) => Arr(seq(|subs|, i requires 0 <= i < |subs| => Arr([subs[i].0, subs[i].1])))
  }

  /** The rows of the table that an entry stands for. */
  function SideRows(key: Val, side: Side): seq<seq<Val>> {
    match side
    case Single(v) => [[key, v]]
    case Listing(vs) => seq(|vs|, i requires 0 <= i < |vs| => [key, vs[i]])
    case Paired(key2, vs) => seq(|vs|, i requires 0 <= i < |vs| => [key, key2, vs[i]])
    case Nested(subs) => seq(|subs|, i requires 0 <= i < |subs| => [key, subs[i].0, subs[i].1])
  }

  function EntryVals(entries: seq<(Val, Side)>): seq<Val> {
    seq(|entries|, i requires 0 <= i < |entries| => Arr([entries[i].0, SideVal(entries[i].1)]))
  }

  function EntryRows(entries: seq<(Val, Side)>): seq<seq<Val>> {
    if |entries| == 0 then [] else SideRows(entries[0].0, entries[0].1) + EntryRows(entries[1..])
  }

  function AsArrays(rows: seq<seq<Val>>): seq<Val> {
    seq(|rows|, i requires 0 <= i < |rows| => Arr(rows[i]))
  }

  lemma ExpandEntryRows(key: Val, side: Side)
    requires !key.Arr? && WellFormedSide(side)
    ensures ExpandEntry(Arr([key, SideVal(side)])) == Some(AsArrays(SideRows(key, side)))
  {
    var expected := AsArrays(SideRows(key, side));
    match side
    case Single(v) => assert AsArrays([[key, v]]) == [Arr([key, v])];
    case Listing(vs) =>
      forall i | 0 <= i < |vs|
        ensures JoinAll(key, vs)[i] == expected[i]
      {
        assert vs[i] in vs && [key] + [vs[i]] == [key, vs[i]];
      }
      assert JoinAll(key, vs) == expected;
    case Paired(key2, vs) =>
      PlainStays(vs);
      forall i | 0 <= i < |vs|
        ensures JoinAll(key, PairAll(key2, vs))[i] == expected[i]
      {
        assert [key] + [key2, vs[i]] == [key, key2, vs[i]];
      }
      assert JoinAll(key, PairAll(key2, vs)) == expected;
    case Nested(subs) =>
      var eles := SideVal(side).elems;
      forall i | 0 <= i < |subs|
        ensures JoinAll(key, eles)[i] == expected[i]
      {
        assert [key] + [subs[i].0, subs[i].1] == [key, subs[i].0, subs[i].1];
      }
      assert JoinAll(key, eles) == expected;
  }

  lemma PlainStays(vs: seq<Val>)
    requires Plain(vs)
    ensures CartesianRightRecursive(vs) == Some(vs)
  {
    if |vs| > 0 {
      assert vs[0] in vs && vs[|vs| - 1] in vs;
    }
  }

  /** Entries of one or two levels, in any of the forms the library uses, become the rows they stand for. */
  lemma EntriesBecomeRows(entries: seq<(Val, Side)>)
    requires forall e <- entries :: !e.0.Arr? && WellFormedSide(e.1)
    ensures CartesianRightRecursive(EntryVals(entries)) == Some(AsArrays(EntryRows(entries)))
  {
    ExpandRows(entries);
  }

  lemma {:induction false} ExpandRows(entries: seq<(Val, Side)>)
    requires forall e <- entries :: !e.0.Arr? && WellFormedSide(e.1)
    ensures ExpandEntries(EntryVals(entries)) == Some(AsArrays(EntryRows(entries)))
  {
    if |entries| > 0 {
      ExpandEntryRows(entries[0].0, entries[0].1);
      ExpandRows(entries[1..]);
      assert EntryVals(entries)[1..] == EntryVals(entries[1..]);
      var first, rest := SideRows(entries[0].0, entries[0].1), EntryRows(entries[1..]);
      AsArraysAppend(first, rest);
      assert EntryVals(entries)[0] == Arr([entries[0].0, SideVal(entries[0].1)]);
    } else {
      assert AsArrays(EntryRows(entries)) == [];
    }
  }

  lemma AsArraysAppend(a: seq<seq<Val>>, b: seq<seq<Val>>)
    ensures AsArrays(a + b) == AsArrays(a) + AsArrays(b)
  {
  }

  // ---- the linear scan --------------------------------------------------------------------

  /** A row split into the cells of the key columns and those of the value columns. */
  datatype Row = Row(keys: seq<Val>, values: seq<Val>)

  /** What a lookup finds of a row: the value itself if there is one value column. */
  function Found(values: seq<Val>): Val {
    if |values| == 1 then values[0] else Arr(values)
  }

  predicate Matches(row: Row, path: seq<string>) {
    |row.keys| == |path| && forall c | 0 <= c < |path| :: KeyString(row.keys[c]) == path[c]
  }

  /** The values of the matching rows, in row order. */
  function Scan(rows: seq<Row>, path: seq<string>): seq<Val> {
    if |rows| == 0 then []
    else
      var row := rows[|rows| - 1];
      Scan(rows[..|rows| - 1], path) + if Matches(row, path) then [Found(row.values)] else []
  }

  predicate SomeRowMatches(rows: seq<Row>, path: seq<string>) {
    exists i | 0 <= i < |rows| :: Matches(rows[i], path)
  }

  lemma {:induction false} ScanIsEmpty(rows: seq<Row>, path: seq<string>)
    ensures Scan(rows, path) == [] <==> !SomeRowMatches(rows, path)
  {
    if |rows| > 0 {
      var front := rows[..|rows| - 1];
      ScanIsEmpty(front, path);
      assert SomeRowMatches(front, path) ==> SomeRowMatches(rows, path) by {
        if SomeRowMatches(front, path) {
          var i :| 0 <= i < |front| && Matches(front[i], path);
          assert Matches(rows[i], path);
        }
      }
      if SomeRowMatches(rows, path) {
        var i :| 0 <= i < |rows| && Matches(rows[i], path);
        assert i < |front| ==> Matches(front[i], path);
      }
    }
  }

  /** No two rows have the same keys. */
  predicate KeysUnique(rows: seq<Row>) {
    forall i, j | 0 <= i < j < |rows| :: rows[i].keys != rows[j].keys
  }

  /** Different keys of a column are different as property names, too. */
  predicate KeysDistinctAsStrings(rows: seq<Row>, width: nat) {
    && (forall row <- rows :: |row.keys| == width)
    && forall c, i, j | 0 <= c < width && 0 <= i < |rows| && 0 <= j < |rows| ::
         KeyString(rows[i].keys[c]) == KeyString(rows[j].keys[c]) ==> rows[i].keys[c] == rows[j].keys[c]
  }

  /** With unique keys a scan finds just the one row that matches. */
  lemma ScanFindsOne(rows: seq<Row>, width: nat, i: nat)
    requires KeysDistinctAsStrings(rows, width) && KeysUnique(rows) && i < |rows|
    ensures Scan(rows, PathOf(rows[i].keys)) == [Found(rows[i].values)]
  {
    NoOtherMatch(rows, width, i);
    ScanOfOne(rows, PathOf(rows[i].keys), i);
  }

  lemma {:induction false} ScanOfOne(rows: seq<Row>, path: seq<string>, i: nat)
    requires i < |rows| && Matches(rows[i], path) && forall j | 0 <= j < |rows| :: Matches(rows[j], path) ==> j == i
    ensures Scan(rows, path) == [Found(rows[i].values)]
  {
    var front := rows[..|rows| - 1];
    if i < |front| {
      assert forall j | 0 <= j < |front| :: front[j] == rows[j];
      ScanOfOne(front, path, i);
    } else {
      ScanIsEmpty(front, path);
    }
  }

  lemma NoOtherMatch(rows: seq<Row>, width: nat, i: nat)
    requires KeysDistinctAsStrings(rows, width) && KeysUnique(rows) && i < |rows|
    ensures forall j | 0 <= j < |rows| :: Matches(rows[j], PathOf(rows[i].keys)) ==> j == i
  {
    forall j | 0 <= j < |rows| && Matches(rows[j], PathOf(rows[i].keys))
      ensures j == i
    {
      SamePathSameKeys(rows, width, j, i);
    }
  }

  function PathOf(keys: seq<Val>): seq<string> {
    seq(|keys|, c requires 0 <= c < |keys| => KeyString(keys[c]))
  }

  lemma SamePathSameKeys(rows: seq<Row>, width: nat, i: nat, j: nat)
    requires KeysDistinctAsStrings(rows, width) && i < |rows| && j < |rows|
    requires Matches(rows[i], PathOf(rows[j].keys))
    ensures rows[i].keys == rows[j].keys
  {
    assert rows[i] in rows && rows[j] in rows;
    forall c | 0 <= c < width
      ensures rows[i].keys[c] == rows[j].keys[c]
    {
      assert KeyString(rows[i].keys[c]) == PathOf(rows[j].keys)[c];
    }
  }

  // ---- the index --------------------------------------------------------------------------

  type Leaf = map<string, Val>

  /**
   * A nested object. The leaf objects are shared with a list of objects to unwrap in the end, so they
   * are references into a heap of leaf objects.
   */
  datatype Tree = Inner(subs: map<string, Tree>) | LeafRef(ref: nat)

  /** Successive property accesses, one for each key column. */
  function Find(tree: Tree, heap: seq<Leaf>, path: seq<string>): Option<Val>
    decreases |path|
  {
    if |path| == 0 then None
    else
      match tree
      case Inner(subs) => if path[0] in subs then Find(subs[path[0]], heap, path[1..]) else None
      case LeafRef(ref) =>
        if |path| == 1 && ref < |heap| && path[0] in heap[ref] then Some(heap[ref][path[0]]) else None
  }

  function Listed(rows: seq<Row>, path: seq<string>): Option<Val> {
    var vs := Scan(rows, path);
    if vs == [] then None else Some(Arr(vs))
  }

  /** The tree finds the lists that a scan finds, whatever is added to the heap later. */
  ghost predicate Indexes(tree: Tree, heap: seq<Leaf>, rows: seq<Row>, width: nat) {
    forall later: seq<Leaf>, path: seq<string> | heap <= later && |path| == width ::
      Find(tree, later, path) == Listed(rows, path)
  }

  /** The positions of `key` in a column. */
  function IdxOf(col: seq<Val>, key: Val): (r: seq<nat>)
    ensures forall j | 0 <= j < |r| :: r[j] < |col| && col[r[j]] == key
  {
    if |col| == 0 then []
    else IdxOf(col[..|col| - 1], key) + if col[|col| - 1] == key then [|col| - 1] else []
  }

  lemma {:induction false} IdxAscends(col: seq<Val>, key: Val, a: nat, b: nat)
    requires a < b < |IdxOf(col, key)|
    ensures IdxOf(col, key)[a] < IdxOf(col, key)[b]
  {
    var front := col[..|col| - 1];
    if b < |IdxOf(front, key)| {
      IdxAscends(front, key, a, b);
    }
  }

  /** Every position of the key is listed. */
  lemma {:induction false} IdxHas(col: seq<Val>, key: Val, i: nat) returns (a: nat)
    requires i < |col| && col[i] == key
    ensures a < |IdxOf(col, key)| && IdxOf(col, key)[a] == i
  {
    var front := col[..|col| - 1];
    if i < |front| {
      a := IdxHas(front, key, i);
    } else {
      a := |IdxOf(front, key)|;
    }
  }

  lemma IdxNonEmpty(col: seq<Val>, key: Val)
    requires key in col
    ensures |IdxOf(col, key)| > 0
  {
    var i :| 0 <= i < |col| && col[i] == key;
    var a := IdxHas(col, key, i);
  }

  function KeyColumn(rows: seq<Row>): seq<Val>
    requires forall row <- rows :: |row.keys| > 0
  {
    seq(|rows|, i requires 0 <= i < |rows| => rows[i].keys[0])
  }

  /** The rows with `key` in the first key column, without that column. */
  function Group(rows: seq<Row>, key: Val): seq<Row>
    requires forall row <- rows :: |row.keys| > 0
  {
    var idx := IdxOf(KeyColumn(rows), key);
    seq(|idx|, j requires 0 <= j < |idx| => Row(rows[idx[j]].keys[1..], rows[idx[j]].values))
  }

  lemma GroupGrows(rows: seq<Row>, key: Val)
    requires |rows| > 0 && forall row <- rows :: |row.keys| > 0
    ensures var front, last := rows[..|rows| - 1], rows[|rows| - 1];
            Group(rows, key) ==
            Group(front, key) + if last.keys[0] == key then [Row(last.keys[1..], last.values)] else []
  {
    var front := rows[..|rows| - 1];
    assert KeyColumn(rows)[..|rows| - 1] == KeyColumn(front);
  }

  /** Scanning a group is scanning the table for a path that starts with its key. */
  lemma {:induction false} ScanGroup(rows: seq<Row>, key: Val, path: seq<string>)
    requires |path| > 0 && KeyString(key) == path[0]
    requires forall row <- rows :: |row.keys| == |path|
    requires forall row <- rows :: KeyString(row.keys[0]) == path[0] ==> row.keys[0] == key
    ensures Scan(Group(rows, key), path[1..]) == Scan(rows, path)
  {
    if |rows| > 0 {
      var front, last := rows[..|rows| - 1], rows[|rows| - 1];
      assert last in rows;
      ScanGroup(front, key, path);
      GroupGrows(rows, key);
      MatchesSplit(last, path);
      if last.keys[0] == key {
        var group := Group(rows, key);
        assert group[..|group| - 1] == Group(front, key);
      } else {
        assert Group(rows, key) == Group(front, key);
      }
    }
  }

  lemma MatchesSplit(row: Row, path: seq<string>)
    requires |path| > 0 && |row.keys| == |path|
    ensures Matches(row, path) <==>
              KeyString(row.keys[0]) == path[0] && Matches(Row(row.keys[1..], row.values), path[1..])
  {
    if KeyString(row.keys[0]) == path[0] && Matches(Row(row.keys[1..], row.values), path[1..]) {
      forall c | 0 <= c < |path|
        ensures KeyString(row.keys[c]) == path[c]
      {
        assert c > 0 ==> row.keys[1..][c - 1] == row.keys[c] && path[1..][c - 1] == path[c];
      }
    }
  }

  lemma GroupIsDistinct(rows: seq<Row>, width: nat, key: Val)
    requires width > 0 && KeysDistinctAsStrings(rows, width)
    ensures KeysDistinctAsStrings(Group(rows, key), width - 1)
  {
    var idx, group := IdxOf(KeyColumn(rows), key), Group(rows, key);
    forall c, i, j | 0 <= c < width - 1 && 0 <= i < |group| && 0 <= j < |group|
                     && KeyString(group[i].keys[c]) == KeyString(group[j].keys[c])
      ensures group[i].keys[c] == group[j].keys[c]
    {
      assert rows[idx[i]].keys[c + 1] == group[i].keys[c];
      assert rows[idx[j]].keys[c + 1] == group[j].keys[c];
    }
  }

  /** Rows have unique keys just if those of every group have. */
  lemma GroupsUnique(rows: seq<Row>, width: nat)
    requires width > 0 && forall row <- rows :: |row.keys| == width
    ensures KeysUnique(rows) <==> forall key <- KeyColumn(rows) :: KeysUnique(Group(rows, key))
  {
    if forall key <- KeyColumn(rows) :: KeysUnique(Group(rows, key)) {
      forall i, j | 0 <= i < j < |rows|
        ensures rows[i].keys != rows[j].keys
      {
        var key := rows[i].keys[0];
        assert KeyColumn(rows)[i] == key;
        if rows[j].keys[0] == key {
          var idx := IdxOf(KeyColumn(rows), key);
          assert KeyColumn(rows)[j] == key;
          var a := IdxHas(KeyColumn(rows), key, i);
          var b := IdxHas(KeyColumn(rows), key, j);
          assert Group(rows, key)[a].keys != Group(rows, key)[b].keys;
        }
      }
    }
    if KeysUnique(rows) {
      forall key | key in KeyColumn(rows)
        ensures KeysUnique(Group(rows, key))
      {
        GroupUnique(rows, width, key);
      }
    }
  }

  lemma GroupUnique(rows: seq<Row>, width: nat, key: Val)
    requires width > 0 && (forall row <- rows :: |row.keys| == width) && KeysUnique(rows)
    ensures KeysUnique(Group(rows, key))
  {
    var idx, group := IdxOf(KeyColumn(rows), key), Group(rows, key);
    forall a, b | 0 <= a < b < |group|
      ensures group[a].keys != group[b].keys
    {
      IdxAscends(KeyColumn(rows), key, a, b);
      var x, y := rows[idx[a]].keys, rows[idx[b]].keys;
      assert x != y;
      assert x == [x[0]] + x[1..] && y == [y[0]] + y[1..];
    }
  }

  /** Key columns and value rows side by side. */
  function RowsOf(keyCols: seq<seq<Val>>, values: seq<seq<Val>>): (rows: seq<Row>)
    ensures |rows| == |values| && forall row <- rows :: |row.keys| == |keyCols|
  {
    seq(|values|, i requires 0 <= i < |values| =>
      Row(seq(|keyCols|, c requires 0 <= c < |keyCols| => CellAt(keyCols[c], i)), values[i]))
  }

  function Pick(s: seq<seq<Val>>, idx: seq<int>): seq<seq<Val>>
    requires forall j | 0 <= j < |idx| :: 0 <= idx[j] < |s|
  {
    seq(|idx|, j requires 0 <= j < |idx| => s[idx[j]])
  }

  lemma FirstColumn(keyCols: seq<seq<Val>>, values: seq<seq<Val>>)
    requires |keyCols| > 0 && Rectangular(keyCols, |values|)
    ensures KeyColumn(RowsOf(keyCols, values)) == keyCols[0]
  {
  }

  /** Dropping the first key column and picking rows, by way of two transpositions. */
  function Subset(keyCols: seq<seq<Val>>, n: nat, idx: seq<nat>): (cols: seq<seq<Val>>)
    requires |keyCols| > 1 && Rectangular(keyCols, n) && |idx| > 0
    requires forall j | 0 <= j < |idx| :: idx[j] < n
    ensures |cols| == |keyCols| - 1 && Rectangular(cols, |idx|)
    ensures forall c, j | 0 <= c < |cols| && 0 <= j < |idx| :: cols[c][j] == CellAt(keyCols[c + 1], idx[j])
  {
    assert keyCols[1..][0] == keyCols[1];
    var droppedKeyCol := Zip(keyCols[1..]);
    var cols := Zip(Pick(droppedKeyCol, idx));
    assert forall c, j | 0 <= c < |cols| && 0 <= j < |idx| ::
      cols[c][j] == CellAt(droppedKeyCol[idx[j]], c) && keyCols[1..][c] == keyCols[c + 1];
    cols
  }

  lemma SubsetIsGroup(keyCols: seq<seq<Val>>, values: seq<seq<Val>>, key: Val)
    requires |keyCols| > 1 && Rectangular(keyCols, |values|)
    requires |IdxOf(keyCols[0], key)| > 0
    ensures var idx := IdxOf(keyCols[0], key);
            RowsOf(Subset(keyCols, |values|, idx), Pick(values, idx)) == Group(RowsOf(keyCols, values), key)
  {
    var rows, idx := RowsOf(keyCols, values), IdxOf(keyCols[0], key);
    FirstColumn(keyCols, values);
    var cols := Subset(keyCols, |values|, idx);
    var picked, group := RowsOf(cols, Pick(values, idx)), Group(rows, key);
    forall j | 0 <= j < |idx|
      ensures picked[j] == group[j]
    {
      assert picked[j].keys == group[j].keys;
    }
  }

  /** The cells that a leaf lists for the rows `idx`. */
  function Cells(values: seq<seq<Val>>, idx: seq<nat>): seq<Val>
    requires forall j | 0 <= j < |idx| :: idx[j] < |values|
  {
    seq(|idx|, j requires 0 <= j < |idx| => Found(values[idx[j]]))
  }

  lemma {:induction false} ScanAll(rows: seq<Row>)
    requires forall row <- rows :: row.keys == []
    ensures Scan(rows, []) == seq(|rows|, j requires 0 <= j < |rows| => Found(rows[j].values))
  {
    if |rows| > 0 {
      assert rows[|rows| - 1] in rows;
      ScanAll(rows[..|rows| - 1]);
    }
  }

  /** With one key column, the cells of a key are what the scan finds for it. */
  lemma ScanIsCells(keyCols: seq<seq<Val>>, values: seq<seq<Val>>, key: Val)
    requires |keyCols| == 1 && Rectangular(keyCols, |values|)
    requires KeysDistinctAsStrings(RowsOf(keyCols, values), 1) && key in keyCols[0]
    ensures Scan(RowsOf(keyCols, values), [KeyString(key)]) == Cells(values, IdxOf(keyCols[0], key))
  {
    var rows, path := RowsOf(keyCols, values), [KeyString(key)];
    FirstColumn(keyCols, values);
    KeyOfString(rows, 1, key);
    ScanGroup(rows, key, path);
    assert path[1..] == [];
    ScanAll(Group(rows, key));
    GroupCells(rows, values, key);
  }

  lemma GroupCells(rows: seq<Row>, values: seq<seq<Val>>, key: Val)
    requires |rows| == |values| && forall i | 0 <= i < |rows| :: rows[i].values == values[i]
    requires forall row <- rows :: |row.keys| > 0
    ensures var group := Group(rows, key);
            seq(|group|, j requires 0 <= j < |group| => Found(group[j].values)) == Cells(values, IdxOf(KeyColumn(rows), key))
  {
  }

  lemma KeyOfString(rows: seq<Row>, width: nat, key: Val)
    requires width > 0 && KeysDistinctAsStrings(rows, width) && key in KeyColumn(rows)
    ensures forall row <- rows :: KeyString(row.keys[0]) == KeyString(key) ==> row.keys[0] == key
  {
    var i :| 0 <= i < |rows| && KeyColumn(rows)[i] == key;
    forall row | row in rows && KeyString(row.keys[0]) == KeyString(key)
      ensures row.keys[0] == key
    {
      var j :| 0 <= j < |rows| && rows[j] == row;
      assert KeyString(rows[i].keys[0]) == KeyString(rows[j].keys[0]);
    }
  }

  /** The keys of a column, in order of first appearance, and the rows of each. */
  method KeyRows(col: seq<Val>) returns (distinctKeys: seq<Val>, keyRows: map<Val, seq<nat>>)
    ensures forall key :: key in distinctKeys <==> key in col
    ensures forall i, j | 0 <= i < j < |distinctKeys| :: distinctKeys[i] != distinctKeys[j]
    ensures forall key <- distinctKeys :: key in keyRows && keyRows[key] == IdxOf(col, key)
  {
    distinctKeys := [];
    for i := 0 to |col|
      invariant forall key :: key in distinctKeys <==> key in col[..i]
      invariant forall i, j | 0 <= i < j < |distinctKeys| :: distinctKeys[i] != distinctKeys[j]
    {
      assert col[..i + 1] == col[..i] + [col[i]];
      if col[i] !in distinctKeys {
        distinctKeys := distinctKeys + [col[i]];
      }
    }
    assert col[..|col|] == col;
    keyRows := map key | key in distinctKeys :: [];
    for i := 0 to |col|
      invariant forall key <- distinctKeys :: key in keyRows && keyRows[key] == IdxOf(col[..i], key)
    {
      assert col[..i + 1][..i] == col[..i] && col[..i + 1][i] == col[i];
      keyRows := keyRows[col[i] := keyRows[col[i]] + [i]];
    }
  }

  lemma IndexesLater(tree: Tree, heap: seq<Leaf>, more: seq<Leaf>, rows: seq<Row>, width: nat)
    requires Indexes(tree, heap, rows, width) && heap <= more
    ensures Indexes(tree, more, rows, width)
  {
  }

  /** The objects under the names of the first `n` keys index the groups of these keys. */
  ghost predicate SubsIndex(subs: map<string, Tree>, heap: seq<Leaf>, rows: seq<Row>, width: nat, keys: seq<Val>)
    requires width > 0 && forall row <- rows :: |row.keys| > 0
  {
    && (forall i | 0 <= i < |keys| ::
          KeyString(keys[i]) in subs && Indexes(subs[KeyString(keys[i])], heap, Group(rows, keys[i]), width - 1))
    && (forall name <- subs :: exists i | 0 <= i < |keys| :: KeyString(keys[i]) == name)
  }

  /** The same where different keys are different as property names. */
  ghost predicate SubsSoFar(subs: map<string, Tree>, heap: seq<Leaf>, rows: seq<Row>, width: nat, keys: seq<Val>)
    requires width > 0 && forall row <- rows :: |row.keys| > 0
  {
    KeysDistinctAsStrings(rows, width) ==> SubsIndex(subs, heap, rows, width, keys)
  }

  lemma SubsIndexNext(subs: map<string, Tree>, heap: seq<Leaf>, more: seq<Leaf>, rows: seq<Row>, width: nat,
                      keys: seq<Val>, key: Val, sub: Tree)
    requires width > 0 && KeysDistinctAsStrings(rows, width) && SubsIndex(subs, heap, rows, width, keys)
    requires heap <= more && Indexes(sub, more, Group(rows, key), width - 1)
    requires key in KeyColumn(rows) && key !in keys && forall k <- keys :: k in KeyColumn(rows)
    ensures SubsIndex(subs[KeyString(key) := sub], more, rows, width, keys + [key])
  {
    var subs', keys' := subs[KeyString(key) := sub], keys + [key];
    forall i | 0 <= i < |keys'|
      ensures KeyString(keys'[i]) in subs' && Indexes(subs'[KeyString(keys'[i])], more, Group(rows, keys'[i]), width - 1)
    {
      if i < |keys| {
        DifferentNames(rows, width, keys[i], key);
        IndexesLater(subs[KeyString(keys[i])], heap, more, Group(rows, keys[i]), width - 1);
      }
    }
    forall name | name in subs'
      ensures exists i | 0 <= i < |keys'| :: KeyString(keys'[i]) == name
    {
      if name in subs {
        var i :| 0 <= i < |keys| && KeyString(keys[i]) == name;
        assert KeyString(keys'[i]) == name;
      } else {
        assert KeyString(keys'[|keys|]) == name;
      }
    }
  }

  lemma DifferentNames(rows: seq<Row>, width: nat, a: Val, b: Val)
    requires width > 0 && KeysDistinctAsStrings(rows, width)
    requires a in KeyColumn(rows) && b in KeyColumn(rows) && a != b
    ensures KeyString(a) != KeyString(b)
  {
    var i :| 0 <= i < |rows| && KeyColumn(rows)[i] == a;
    var j :| 0 <= j < |rows| && KeyColumn(rows)[j] == b;
    assert rows[i].keys[0] != rows[j].keys[0];
  }

  /** An object over the groups of all keys indexes the table. */
  lemma InnerIndexes(subs: map<string, Tree>, heap: seq<Leaf>, rows: seq<Row>, width: nat, keys: seq<Val>)
    requires width > 1 && KeysDistinctAsStrings(rows, width) && SubsIndex(subs, heap, rows, width, keys)
    requires forall k :: k in keys <==> k in KeyColumn(rows)
    ensures Indexes(Inner(subs), heap, rows, width)
  {
    forall later: seq<Leaf>, path: seq<string> | heap <= later && |path| == width
      ensures Find(Inner(subs), later, path) == Listed(rows, path)
    {
      if path[0] in subs {
        var i :| 0 <= i < |keys| && KeyString(keys[i]) == path[0];
        KeyOfString(rows, width, keys[i]);
        ScanGroup(rows, keys[i], path);
        assert Find(subs[path[0]], later, path[1..]) == Listed(Group(rows, keys[i]), path[1..]);
      } else {
        NoNameNoRow(rows, path, keys);
      }
    }
  }

  lemma NoNameNoRow(rows: seq<Row>, path: seq<string>, keys: seq<Val>)
    requires |path| > 0 && (forall row <- rows :: |row.keys| > 0)
    requires forall k :: k in keys <==> k in KeyColumn(rows)
    requires forall i | 0 <= i < |keys| :: KeyString(keys[i]) != path[0]
    ensures Scan(rows, path) == []
  {
    forall i | 0 <= i < |rows|
      ensures !Matches(rows[i], path)
    {
      assert KeyColumn(rows)[i] == rows[i].keys[0];
      assert rows[i].keys[0] in keys;
    }
    ScanIsEmpty(rows, path);
  }

  /** `leaf` holds under each name its entry, and nothing else. */
  predicate Holds(leaf: Leaf, names: seq<string>, entries: seq<Val>)
    requires |names| == |entries|
  {
    && (forall i | 0 <= i < |names| :: names[i] in leaf && leaf[names[i]] == entries[i])
    && (forall name <- leaf :: name in names)
  }

  lemma HoldsNext(leaf: Leaf, names: seq<string>, entries: seq<Val>, name: string, entry: Val)
    requires |names| == |entries| && Holds(leaf, names, entries) && name !in names
    ensures Holds(leaf[name := entry], names + [name], entries + [entry])
  {
    var names', entries' := names + [name], entries + [entry];
    forall i | 0 <= i < |names'|
      ensures names'[i] in leaf[name := entry] && leaf[name := entry][names'[i]] == entries'[i]
    {
      assert i < |names| ==> names'[i] == names[i] && names[i] in names;
    }
  }

  function NamesOf(keys: seq<Val>): (names: seq<string>)
    ensures |names| == |keys|
  {
    seq(|keys|, i requires 0 <= i < |keys| => KeyString(keys[i]))
  }

  /** The cells of one key. */
  function ListFor(col: seq<Val>, values: seq<seq<Val>>, key: Val): Val
    requires |col| == |values|
  {
    Arr(Cells(values, IdxOf(col, key)))
  }

  function ListsFor(col: seq<Val>, values: seq<seq<Val>>, keys: seq<Val>): (lists: seq<Val>)
    requires |col| == |values|
    ensures |lists| == |keys|
  {
    seq(|keys|, i requires 0 <= i < |keys| => ListFor(col, values, keys[i]))
  }

  lemma AllSubsIndex(subs: map<string, Tree>, heap: seq<Leaf>, rows: seq<Row>, width: nat, keys: seq<Val>)
    requires width > 1 && (forall row <- rows :: |row.keys| > 0) && SubsSoFar(subs, heap, rows, width, keys)
    requires forall k :: k in keys <==> k in KeyColumn(rows)
    ensures KeysDistinctAsStrings(rows, width) ==> Indexes(Inner(subs), heap, rows, width)
  {
    if KeysDistinctAsStrings(rows, width) {
      InnerIndexes(subs, heap, rows, width, keys);
    }
  }

  /** Each of the keys has a group of unique keys. */
  predicate GroupsUniqueFor(rows: seq<Row>, keys: seq<Val>)
    requires forall row <- rows :: |row.keys| > 0
  {
    |keys| > 0 ==> GroupsUniqueFor(rows, keys[..|keys| - 1]) && KeysUnique(Group(rows, keys[|keys| - 1]))
  }

  lemma OneGroupMore(rows: seq<Row>, keys: seq<Val>, key: Val)
    requires forall row <- rows :: |row.keys| > 0
    ensures GroupsUniqueFor(rows, keys + [key]) <==> GroupsUniqueFor(rows, keys) && KeysUnique(Group(rows, key))
  {
    assert (keys + [key])[..|keys|] == keys;
  }

  lemma {:induction false} EachGroupUnique(rows: seq<Row>, keys: seq<Val>)
    requires forall row <- rows :: |row.keys| > 0
    ensures GroupsUniqueFor(rows, keys) <==> forall key <- keys :: KeysUnique(Group(rows, key))
  {
    if |keys| > 0 {
      var front, last := keys[..|keys| - 1], keys[|keys| - 1];
      EachGroupUnique(rows, front);
      assert forall key :: key in keys <==> key in front || key == last;
    }
  }

  lemma AllGroupsUnique(rows: seq<Row>, width: nat, keys: seq<Val>)
    requires width > 0 && (forall row <- rows :: |row.keys| == width) && forall k :: k in keys <==> k in KeyColumn(rows)
    ensures KeysUnique(rows) <==> GroupsUniqueFor(rows, keys)
  {
    EachGroupUnique(rows, keys);
    GroupsUnique(rows, width);
  }

  /** A leaf object lists under each name the cells of its key. */
  predicate LeafLists(leaf: Leaf, col: seq<Val>, values: seq<seq<Val>>, keys: seq<Val>)
    requires |col| == |values|
  {
    Holds(leaf, NamesOf(keys), ListsFor(col, values, keys))
  }

  lemma LeafIndexes(leaf: Leaf, heap: seq<Leaf>, keyCols: seq<seq<Val>>, values: seq<seq<Val>>, keys: seq<Val>)
    requires |keyCols| == 1 && Rectangular(keyCols, |values|)
    requires KeysDistinctAsStrings(RowsOf(keyCols, values), 1) && LeafLists(leaf, keyCols[0], values, keys)
    requires forall k :: k in keys <==> k in keyCols[0]
    ensures Indexes(LeafRef(|heap|), heap + [leaf], RowsOf(keyCols, values), 1)
  {
    var rows := RowsOf(keyCols, values);
    FirstColumn(keyCols, values);
    forall later: seq<Leaf>, path: seq<string> | heap + [leaf] <= later && |path| == 1
      ensures Find(LeafRef(|heap|), later, path) == Listed(rows, path)
    {
      assert later[|heap|] == (heap + [leaf])[|heap|] == leaf;
      LeafFinds(leaf, keyCols, values, keys, path);
    }
  }

  lemma LeafFinds(leaf: Leaf, keyCols: seq<seq<Val>>, values: seq<seq<Val>>, keys: seq<Val>, path: seq<string>)
    requires |keyCols| == 1 && Rectangular(keyCols, |values|) && |path| == 1
    requires KeysDistinctAsStrings(RowsOf(keyCols, values), 1) && LeafLists(leaf, keyCols[0], values, keys)
    requires forall k :: k in keys <==> k in keyCols[0]
    ensures Listed(RowsOf(keyCols, values), path) == if path[0] in leaf then Some(leaf[path[0]]) else None
  {
    FirstColumn(keyCols, values);
    if path[0] in leaf {
      var i :| 0 <= i < |keys| && NamesOf(keys)[i] == path[0];
      assert leaf[path[0]] == ListsFor(keyCols[0], values, keys)[i];
      assert keys[i] in keys && path == [KeyString(keys[i])];
      ScanIsCells(keyCols, values, keys[i]);
      IdxNonEmpty(keyCols[0], keys[i]);
    } else {
      assert forall i | 0 <= i < |keys| :: NamesOf(keys)[i] == KeyString(keys[i]);
      NoNameNoRow(RowsOf(keyCols, values), path, keys);
    }
  }

  /** With one key column, keys are unique just if no key has two rows. */
  lemma LeafUnique(keyCols: seq<seq<Val>>, values: seq<seq<Val>>)
    requires |keyCols| == 1 && Rectangular(keyCols, |values|)
    ensures KeysUnique(RowsOf(keyCols, values)) <==> forall key <- keyCols[0] :: |IdxOf(keyCols[0], key)| == 1
  {
    var rows := RowsOf(keyCols, values);
    FirstColumn(keyCols, values);
    GroupsUnique(rows, 1);
    forall key | key in keyCols[0]
      ensures KeysUnique(Group(rows, key)) <==> |IdxOf(keyCols[0], key)| == 1
    {
      IdxNonEmpty(keyCols[0], key);
      var group := Group(rows, key);
      if |group| > 1 {
        assert group[0].keys == group[1].keys;
      }
    }
  }

  class Builder {
    var heap: seq<Leaf>
    var leafObjects: seq<nat>
    var allSingletons: bool

    /** Leaves hold non-empty lists; as long as all are singletons, every leaf object will be unwrapped. */
    ghost predicate Valid()
      reads this
    {
      && (forall i, name | 0 <= i < |heap| && name in heap[i] :: heap[i][name].Arr? && |heap[i][name].elems| > 0)
      && (allSingletons ==>
            && |leafObjects| == |heap|
            && (forall i | 0 <= i < |heap| :: leafObjects[i] == i)
            && forall i, name | 0 <= i < |heap| && name in heap[i] :: |heap[i][name].elems| == 1)
    }

    constructor ()
      ensures Valid() && heap == [] && allSingletons
    {
      heap, leafObjects, allSingletons := [], [], true;
    }

    method BuildLeaf(keyCols: seq<seq<Val>>, values: seq<seq<Val>>) returns (tree: Tree)
      requires Valid() && |keyCols| == 1 && Rectangular(keyCols, |values|)
      modifies this
      ensures Valid() && old(heap) <= heap
      ensures allSingletons == (old(allSingletons) && KeysUnique(RowsOf(keyCols, values)))
      ensures KeysDistinctAsStrings(RowsOf(keyCols, values), 1) ==> Indexes(tree, heap, RowsOf(keyCols, values), 1)
    {
      var distinctKeys, keyRows := KeyRows(keyCols[0]);
      ghost var distinct := KeysDistinctAsStrings(RowsOf(keyCols, values), 1);
      if distinct {
        NamesDiffer(keyCols, values, distinctKeys);
      }
      var single := AllSingle(keyCols[0], distinctKeys, keyRows);
      var ret := LeafObject(keyCols[0], values, distinctKeys, keyRows, distinct, single);
      LeafUnique(keyCols, values);
      if KeysDistinctAsStrings(RowsOf(keyCols, values), 1) {
        LeafIndexes(ret, heap, keyCols, values, distinctKeys);
      }
      tree := AddLeaf(ret, single);
    }

    method BuildMappingRecursively(keyCols: seq<seq<Val>>, values: seq<seq<Val>>) returns (tree: Tree)
      requires Valid() && |keyCols| > 0 && Rectangular(keyCols, |values|)
      modifies this
      ensures Valid() && old(heap) <= heap
      ensures allSingletons == (old(allSingletons) && KeysUnique(RowsOf(keyCols, values)))
      ensures KeysDistinctAsStrings(RowsOf(keyCols, values), |keyCols|) ==>
                Indexes(tree, heap, RowsOf(keyCols, values), |keyCols|)
      decreases |keyCols|, 3
    {
      if |keyCols| == 1 {
        tree := BuildLeaf(keyCols, values);
      } else {
        tree := BuildInner(keyCols, values);
      }
    }

    method BuildInner(keyCols: seq<seq<Val>>, values: seq<seq<Val>>) returns (tree: Tree)
      requires Valid() && |keyCols| > 1 && Rectangular(keyCols, |values|)
      modifies this
      ensures Valid() && old(heap) <= heap
      ensures allSingletons == (old(allSingletons) && KeysUnique(RowsOf(keyCols, values)))
      ensures KeysDistinctAsStrings(RowsOf(keyCols, values), |keyCols|) ==>
                Indexes(tree, heap, RowsOf(keyCols, values), |keyCols|)
      decreases |keyCols|, 2
    {
      var distinctKeys, keyRows := KeyRows(keyCols[0]);
      ghost var rows := RowsOf(keyCols, values);
      FirstColumn(keyCols, values);
      var subs := BuildSubs(keyCols, values, distinctKeys, keyRows);
      AllGroupsUnique(rows, |keyCols|, distinctKeys);
      AllSubsIndex(subs, heap, rows, |keyCols|, distinctKeys);
      tree := Inner(subs);
    }

    /** The sub-objects for all keys of the first column. */
    method BuildSubs(keyCols: seq<seq<Val>>, values: seq<seq<Val>>, distinctKeys: seq<Val>, keyRows: map<Val, seq<nat>>)
      returns (subs: map<string, Tree>)
      requires Valid() && |keyCols| > 1 && Rectangular(keyCols, |values|)
      requires forall i, j | 0 <= i < j < |distinctKeys| :: distinctKeys[i] != distinctKeys[j]
      requires forall key <- distinctKeys :: key in keyCols[0] && key in keyRows && keyRows[key] == IdxOf(keyCols[0], key)
      modifies this
      ensures Valid() && old(heap) <= heap
      ensures allSingletons == (old(allSingletons) && GroupsUniqueFor(RowsOf(keyCols, values), distinctKeys))
      ensures SubsSoFar(subs, heap, RowsOf(keyCols, values), |keyCols|, distinctKeys)
      decreases |keyCols|, 1
    {
      ghost var rows, done: seq<Val> := RowsOf(keyCols, values), [];
      subs := map[];
      for j := 0 to |distinctKeys|
        invariant Valid() && old(heap) <= heap && done == distinctKeys[..j]
        invariant allSingletons == (old(allSingletons) && GroupsUniqueFor(rows, done))
        invariant SubsSoFar(subs, heap, rows, |keyCols|, done)
      {
        var key := distinctKeys[j];
        assert key in distinctKeys && distinctKeys[..j + 1] == done + [key];
        OneGroupMore(rows, done, key);
        var sub := BuildGroup(keyCols, values, key, keyRows[key], subs, done);
        subs, done := subs[KeyString(key) := sub], done + [key];
      }
      assert done == distinctKeys;
    }

    /** The sub-object for one key of the first column; `subs` holds those for `keys`. */
    method BuildGroup(keyCols: seq<seq<Val>>, values: seq<seq<Val>>, key: Val, idx: seq<nat>,
                      ghost subs: map<string, Tree>, ghost keys: seq<Val>) returns (sub: Tree)
      requires Valid() && |keyCols| > 1 && Rectangular(keyCols, |values|)
      requires key in keyCols[0] && idx == IdxOf(keyCols[0], key)
      requires key !in keys && forall k <- keys :: k in keyCols[0]
      requires SubsSoFar(subs, heap, RowsOf(keyCols, values), |keyCols|, keys)
      modifies this
      ensures Valid() && old(heap) <= heap
      ensures allSingletons == (old(allSingletons) && KeysUnique(Group(RowsOf(keyCols, values), key)))
      ensures SubsSoFar(subs[KeyString(key) := sub], heap, RowsOf(keyCols, values), |keyCols|, keys + [key])
      decreases |keyCols|, 0
    {
      ghost var rows, width := RowsOf(keyCols, values), |keyCols|;
      ghost var before := heap;
      FirstColumn(keyCols, values);
      IdxNonEmpty(keyCols[0], key);
      SubsetIsGroup(keyCols, values, key);
      sub := BuildMappingRecursively(Subset(keyCols, |values|, idx), Pick(values, idx));
      if KeysDistinctAsStrings(rows, width) {
        GroupIsDistinct(rows, width, key);
        SubsIndexNext(subs, before, heap, rows, width, keys, key, sub);
      }
    }

    /** Replaces the lists of all leaves by their only elements. */
    method UnwrapLeaves()
      requires Valid() && allSingletons
      modifies this`heap
      ensures heap == UnwrapAll(old(heap))
    {
      for j := 0 to |leafObjects|
        invariant |heap| == |old(heap)|
        invariant forall i | 0 <= i < |heap| :: heap[i] == if i < j then Unwrap(old(heap)[i]) else old(heap)[i]
      {
        heap := heap[leafObjects[j] := Unwrap(heap[leafObjects[j]])];
      }
    }

    method AddLeaf(ret: Leaf, single: bool) returns (tree: Tree)
      requires Valid()
      requires forall name <- ret :: ret[name].Arr? && |ret[name].elems| > 0
      requires single ==> forall name <- ret :: |ret[name].elems| == 1
      modifies this
      ensures Valid() && heap == old(heap) + [ret] && tree == LeafRef(|old(heap)|)
      ensures allSingletons == (old(allSingletons) && single)
    {
      tree, heap := LeafRef(|heap|), heap + [ret];
      if allSingletons {
        if !single {
          allSingletons := false;
          return;
        }
        leafObjects := leafObjects + [tree.ref];
      }
    }
  }

  /** The object for the first keys: their lists, where their names differ, of one element each if they are single. */
  predicate LeafSoFar(ret: Leaf, col: seq<Val>, values: seq<seq<Val>>, keys: seq<Val>, distinct: bool, single: bool)
    requires |col| == |values|
  {
    && (distinct ==> LeafLists(ret, col, values, keys))
    && (forall name <- ret :: ret[name].Arr? && |ret[name].elems| > 0)
    && (single ==> forall name <- ret :: |ret[name].elems| == 1)
  }

  lemma LeafNext(ret: Leaf, col: seq<Val>, values: seq<seq<Val>>, keys: seq<Val>, key: Val, distinct: bool, single: bool)
    requires |col| == |values| && LeafSoFar(ret, col, values, keys, distinct, single)
    requires distinct ==> KeyString(key) !in NamesOf(keys)
    requires key in col && (single ==> |IdxOf(col, key)| == 1)
    ensures LeafSoFar(ret[KeyString(key) := ListFor(col, values, key)], col, values, keys + [key], distinct, single)
  {
    IdxNonEmpty(col, key);
    if distinct {
      LeafListsNext(ret, col, values, keys, key);
    }
  }

  method LeafObject(col: seq<Val>, values: seq<seq<Val>>, distinctKeys: seq<Val>, keyRows: map<Val, seq<nat>>,
                    ghost distinct: bool, ghost single: bool)
    returns (ret: Leaf)
    requires |col| == |values| && forall key <- distinctKeys :: key in col
    requires distinct ==> NoRepeats(NamesOf(distinctKeys))
    requires forall key <- distinctKeys :: key in keyRows && keyRows[key] == IdxOf(col, key)
    requires single ==> forall key <- distinctKeys :: |IdxOf(col, key)| == 1
    ensures LeafSoFar(ret, col, values, distinctKeys, distinct, single)
  {
    ret := map[];
    for j := 0 to |distinctKeys|
      invariant LeafSoFar(ret, col, values, distinctKeys[..j], distinct, single)
    {
      var key := distinctKeys[j];
      assert key in distinctKeys && distinctKeys[..j + 1] == distinctKeys[..j] + [key];
      NamesOfFirst(distinctKeys, j);
      LeafNext(ret, col, values, distinctKeys[..j], key, distinct, single);
      ret := ret[KeyString(key) := Arr(Cells(values, keyRows[key]))];
    }
    assert distinctKeys[..|distinctKeys|] == distinctKeys;
  }

  method AllSingle(col: seq<Val>, distinctKeys: seq<Val>, keyRows: map<Val, seq<nat>>) returns (r: bool)
    requires forall key :: key in distinctKeys <==> key in col
    requires forall key <- distinctKeys :: key in keyRows && keyRows[key] == IdxOf(col, key)
    ensures r <==> forall key <- col :: |IdxOf(col, key)| == 1
  {
    for j := 0 to |distinctKeys|
      invariant forall i | 0 <= i < j :: |IdxOf(col, distinctKeys[i])| == 1
    {
      assert distinctKeys[j] in distinctKeys;
      IdxNonEmpty(col, distinctKeys[j]);
      if |keyRows[distinctKeys[j]]| > 1 {
        return false;
      }
    }
    return true;
  }

  predicate NoRepeats(names: seq<string>) {
    forall i, j | 0 <= i < j < |names| :: names[i] != names[j]
  }

  lemma NamesOfFirst(keys: seq<Val>, j: nat)
    requires j < |keys|
    ensures NoRepeats(NamesOf(keys)) ==> KeyString(keys[j]) !in NamesOf(keys[..j])
  {
    var names := NamesOf(keys);
    assert NamesOf(keys[..j]) == names[..j];
    assert names[j] == KeyString(keys[j]);
  }

  lemma LeafListsNext(leaf: Leaf, col: seq<Val>, values: seq<seq<Val>>, keys: seq<Val>, key: Val)
    requires |col| == |values| && LeafLists(leaf, col, values, keys) && KeyString(key) !in NamesOf(keys)
    ensures LeafLists(leaf[KeyString(key) := ListFor(col, values, key)], col, values, keys + [key])
  {
    HoldsNext(leaf, NamesOf(keys), ListsFor(col, values, keys), KeyString(key), ListFor(col, values, key));
    assert NamesOf(keys + [key]) == NamesOf(keys) + [KeyString(key)];
    assert ListsFor(col, values, keys + [key]) == ListsFor(col, values, keys) + [ListFor(col, values, key)];
  }

  /** Different keys have different names, if names tell the rows' keys apart. */
  lemma NamesDiffer(keyCols: seq<seq<Val>>, values: seq<seq<Val>>, keys: seq<Val>)
    requires |keyCols| == 1 && Rectangular(keyCols, |values|) && KeysDistinctAsStrings(RowsOf(keyCols, values), 1)
    requires forall key <- keys :: key in keyCols[0]
    requires forall i, j | 0 <= i < j < |keys| :: keys[i] != keys[j]
    ensures NoRepeats(NamesOf(keys))
  {
    FirstColumn(keyCols, values);
    forall i, j | 0 <= i < j < |keys|
      ensures NamesOf(keys)[i] != NamesOf(keys)[j]
    {
      assert keys[i] in keys && keys[j] in keys;
      DifferentNames(RowsOf(keyCols, values), 1, keys[i], keys[j]);
    }
  }

  /** `leafObj[key] = leafObj[key][0]` for every key */
  function Unwrap(leaf: Leaf): Leaf {
    map name | name in leaf :: First(leaf[name])
  }

  function First(v: Val): Val {
    if v.Arr? then CellAt(v.elems, 0) else Undef
  }

  function UnwrapAll(heap: seq<Leaf>): seq<Leaf> {
    seq(|heap|, i requires 0 <= i < |heap| => Unwrap(heap[i]))
  }

  lemma {:induction false} FindUnwrapped(tree: Tree, heap: seq<Leaf>, path: seq<string>)
    ensures Find(tree, UnwrapAll(heap), path) ==
            if Find(tree, heap, path).None? then None else Some(First(Find(tree, heap, path).value))
    decreases |path|
  {
    if |path| > 0 && tree.Inner? && path[0] in tree.subs {
      FindUnwrapped(tree.subs[path[0]], heap, path[1..]);
    }
  }

  // ---- constMap ---------------------------------------------------------------------------

  datatype Shape = Shape(keys: seq<int>, values: seq<int>)

  datatype Mapping = Mapping(tree: Tree, heap: seq<Leaf>, arity: nat)

  /** Without a shape, all columns but the last are keys. */
  function DefinedShape(table: seq<seq<Val>>, shape: Option<Shape>): Shape
    requires |table| > 0
  {
    match shape
    case Some(given) => given
    case None => Shape(seq(if |table[0]| > 0 then |table[0]| - 1 else 0, i => i), [|table[0]| - 1])
  }

  /** The shape that counts: the given one, or else the one whose keys are all columns but the last, in order. */
  ghost predicate ShapeFor(table: seq<seq<Val>>, shape: Option<Shape>, s: Shape)
    requires |table| > 0
  {
    match shape
    case Some(given) => s == given
    case None =>
      && |s.keys| == (if |table[0]| > 0 then |table[0]| - 1 else 0) && s.values == [|table[0]| - 1]
      && forall j | 0 <= j < |s.keys| :: s.keys[j] == j
  }

  predicate ValidShape(table: seq<seq<Val>>, shape: Shape)
    requires |table| > 0
  {
    && |shape.keys| > 0 && |shape.values| > 0
    && (forall j | 0 <= j < |shape.keys| :: 0 <= shape.keys[j] < |table[0]|)
    && (forall j | 0 <= j < |shape.values| :: 0 <= shape.values[j] < |table[0]|)
    && (forall row <- table, c <- shape.keys :: Mappable(CellAt(row, c)))
  }

  function SelectCells(row: seq<Val>, cols: seq<int>): seq<Val> {
    seq(|cols|, j requires 0 <= j < |cols| => CellAt(row, cols[j]))
  }

  /** The rows of the table, split by the shape. */
  function SplitRows(table: seq<seq<Val>>, shape: Shape): seq<Row> {
    seq(|table|, i requires 0 <= i < |table| => Row(SelectCells(table[i], shape.keys), SelectCells(table[i], shape.values)))
  }

  /** What a look-up should give: the bare value if all keys are unique, a list of values otherwise. */
  function Expected(rows: seq<Row>, path: seq<string>): Val {
    var found := Scan(rows, path);
    if found == [] then Undef
    else if KeysUnique(rows) then OrUndefined(found[0])
    else Arr(found)
  }

  /** `v ?? undefined` */
  function OrUndefined(v: Val): Val {
    if v.Null? then Undef else v
  }

  function Access(m: Mapping, args: seq<Val>): Val {
    match Find(m.tree, m.heap, PathOf(args))
    case None => Undef
    case Some(v) => OrUndefined(v)
  }

  predicate Has(m: Mapping, args: seq<Val>) {
    Access(m, args) != Undef
  }

  predicate AllMappable(args: seq<Val>) {
    forall arg <- args :: Mappable(arg)
  }

  /** Every look-up with as many arguments as there are key columns agrees with the scan. */
  ghost predicate Answers(m: Mapping, rows: seq<Row>) {
    forall args: seq<Val> | |args| == m.arity && AllMappable(args) :: Access(m, args) == Expected(rows, PathOf(args))
  }

  /** `m` is an index of the table under the shape. */
  ghost predicate IndexesTable(m: Mapping, table: seq<seq<Val>>, s: Shape) {
    && m.arity == |s.keys|
    && (KeysDistinctAsStrings(SplitRows(table, s), |s.keys|) ==> Answers(m, SplitRows(table, s)))
  }

  predicate Uniform(table: seq<seq<Val>>, n: nat) {
    forall row <- table :: |row| == n
  }

  /** All columns but the last as keys, and the last one as value. */
  function LastColumn(table: seq<seq<Val>>, n: nat): seq<Row>
    requires n > 0 && Uniform(table, n)
  {
    seq(|table|, i requires 0 <= i < |table| => Row(table[i][..n - 1], [table[i][n - 1]]))
  }

  /** What constMap promises of a table without being given a shape. */
  ghost predicate IndexesByLast(r: Result<Mapping>, table: seq<seq<Val>>, n: nat)
    requires n > 0 && Uniform(table, n)
  {
    && (r.Ok? <==> n > 1 && forall row <- table, c | 0 <= c < n - 1 :: Mappable(row[c]))
    && (r.Ok? ==>
          && r.value.arity == n - 1
          && (KeysDistinctAsStrings(LastColumn(table, n), n - 1) ==> Answers(r.value, LastColumn(table, n))))
  }

  lemma DefaultIsLast(r: Result<Mapping>, table: seq<seq<Val>>, s: Shape, n: nat)
    requires |table| > 0 && n > 0 && Uniform(table, n) && ShapeFor(table, None, s)
    requires (r.Ok? <==> ValidShape(table, s)) && (r.Ok? ==> IndexesTable(r.value, table, s))
    ensures IndexesByLast(r, table, n)
  {
    assert table[0] in table;
    DefaultSplit(table, s, n);
    forall row, c | row in table && 0 <= c < n - 1
      ensures c in s.keys && CellAt(row, c) == row[c]
    {
      assert s.keys[c] == c;
    }
  }

  lemma DefaultSplit(table: seq<seq<Val>>, s: Shape, n: nat)
    requires |table| > 0 && n > 0 && Uniform(table, n) && ShapeFor(table, None, s)
    ensures SplitRows(table, s) == LastColumn(table, n)
  {
    var split, last := SplitRows(table, s), LastColumn(table, n);
    assert table[0] in table;
    forall i | 0 <= i < |table|
      ensures split[i] == last[i]
    {
      assert table[i] in table;
      assert split[i].keys == last[i].keys && split[i].values == last[i].values;
    }
  }

  lemma ColumnsOfTable(table: seq<seq<Val>>, shape: Shape)
    requires |table| > 0 && ValidShape(table, shape)
    ensures var cols := Zip(table);
            var keyCols, leafValues := Pick(cols, shape.keys), Pick(cols, shape.values);
            && Rectangular(keyCols, |table|) && |Zip(leafValues)| == |table|
            && RowsOf(keyCols, Zip(leafValues)) == SplitRows(table, shape)
  {
    var cols := Zip(table);
    var keyCols, values := Pick(cols, shape.keys), Zip(Pick(cols, shape.values));
    var rows, split := RowsOf(keyCols, values), SplitRows(table, shape);
    forall i | 0 <= i < |table|
      ensures rows[i] == split[i]
    {
      assert rows[i].keys == split[i].keys;
      assert rows[i].values == split[i].values;
    }
  }

  /** toMapping: the index of a table, or an error if the shape does not fit it. */
  method ToMapping(table: seq<seq<Val>>, shape: Option<Shape>) returns (r: Result<Mapping>)
    ensures |table| == 0 ==> r.Err?
    ensures |table| > 0 ==>
              forall s | ShapeFor(table, shape, s) ::
                (r.Ok? <==> ValidShape(table, s)) && (r.Ok? ==> IndexesTable(r.value, table, s))
    ensures forall n: nat | |table| > 0 && n > 0 && Uniform(table, n) && shape.None? :: IndexesByLast(r, table, n)
  {
    if |table| == 0 {
      return Err(Invalid("Invalid mapping: empty"));
    }
    var defined := DefinedShape(table, shape);
    r := ToMappingOf(table, defined);
    forall s | ShapeFor(table, shape, s)
      ensures s == defined
    {
      assert s.keys == defined.keys;
    }
    forall n: nat | n > 0 && Uniform(table, n) && shape.None?
      ensures IndexesByLast(r, table, n)
    {
      DefaultIsLast(r, table, defined, n);
    }
  }

  method ToMappingOf(table: seq<seq<Val>>, defined: Shape) returns (r: Result<Mapping>)
    requires |table| > 0
    ensures (r.Ok? <==> ValidShape(table, defined)) && (r.Ok? ==> IndexesTable(r.value, table, defined))
  {
    if exists j | 0 <= j < |defined.keys| :: !(0 <= defined.keys[j] < |table[0]|) {
      return Err(Invalid("Invalid shape: column does not exist"));
    }
    if exists j | 0 <= j < |defined.values| :: !(0 <= defined.values[j] < |table[0]|) {
      return Err(Invalid("Invalid shape: column does not exist"));
    }
    if |defined.keys| == 0 || |defined.values| == 0 {
      return Err(Invalid("Invalid shape: empty set"));
    }
    if exists row <- table, c <- defined.keys :: !Mappable(CellAt(row, c)) {
      return Err(Invalid("Invalid key"));
    }
    var mapping := IndexTable(table, defined);
    return Ok(mapping);
  }

  method IndexTable(table: seq<seq<Val>>, shape: Shape) returns (m: Mapping)
    requires |table| > 0 && ValidShape(table, shape)
    ensures IndexesTable(m, table, shape)
  {
    var cols := Zip(table);
    var keyCols, leafValues := Pick(cols, shape.keys), Pick(cols, shape.values);
    ghost var rows := SplitRows(table, shape);
    ColumnsOfTable(table, shape);
    var builder := new Builder();
    var tree := builder.BuildMappingRecursively(keyCols, Zip(leafValues));
    ghost var listed := builder.heap;
    if builder.allSingletons {
      builder.UnwrapLeaves();
    }
    m := Mapping(tree, builder.heap, |shape.keys|);
    if KeysDistinctAsStrings(rows, |shape.keys|) {
      IndexAnswers(m, listed, rows);
    }
  }

  lemma IndexAnswers(m: Mapping, listed: seq<Leaf>, rows: seq<Row>)
    requires Indexes(m.tree, listed, rows, m.arity)
    requires m.heap == if KeysUnique(rows) then UnwrapAll(listed) else listed
    ensures Answers(m, rows)
  {
    forall args: seq<Val> | |args| == m.arity && AllMappable(args)
      ensures Access(m, args) == Expected(rows, PathOf(args))
    {
      FindUnwrapped(m.tree, listed, PathOf(args));
      assert Find(m.tree, listed, PathOf(args)) == Listed(rows, PathOf(args));
    }
  }

  /** constMap, for entries of one or two levels. */
  method ConstMap(entries: seq<(Val, Side)>, shape: Option<Shape>) returns (r: Result<Mapping>)
    requires forall e <- entries :: !e.0.Arr? && WellFormedSide(e.1)
    ensures EntryRows(entries) == [] ==> r.Err?
    ensures var table := EntryRows(entries);
            |table| > 0 ==>
              forall s | ShapeFor(table, shape, s) ::
                (r.Ok? <==> ValidShape(table, s)) && (r.Ok? ==> IndexesTable(r.value, table, s))
    ensures var table := EntryRows(entries);
            forall n: nat | |table| > 0 && n > 0 && Uniform(table, n) && shape.None? :: IndexesByLast(r, table, n)
  {
    EntriesBecomeRows(entries);
    var crr := CartesianRightRecursive(EntryVals(entries)).value;
    var table := seq(|crr|, i requires 0 <= i < |crr| => crr[i].elems);
    assert table == EntryRows(entries);
    r := ToMapping(table, shape);
  }

  // ---- what a look-up gives ---------------------------------------------------------------

  /** With unique keys, looking up the keys of a row gives its value, or the list of its values if there are several. */
  lemma LookupFindsRow(m: Mapping, rows: seq<Row>, i: nat)
    requires Answers(m, rows) && KeysDistinctAsStrings(rows, m.arity) && KeysUnique(rows)
    requires i < |rows| && AllMappable(rows[i].keys)
    ensures Access(m, rows[i].keys) == OrUndefined(Found(rows[i].values))
    ensures |rows[i].values| == 1 && !rows[i].values[0].Null? ==> Access(m, rows[i].keys) == rows[i].values[0]
    ensures rows[i].values == [Null] ==> Access(m, rows[i].keys) == Undef
    ensures |rows[i].values| > 1 ==> Access(m, rows[i].keys) == Arr(rows[i].values)
  {
    assert rows[i] in rows;
    ScanFindsOne(rows, m.arity, i);
  }

  /** A boolean as a key finds what the word finds. */
  lemma BooleansAsKeys(m: Mapping, b: bool)
    ensures Access(m, [Bool(b)]) == Access(m, [Str(if b then "true" else "false")])
  {
    assert PathOf([Bool(b)]) == PathOf([Str(if b then "true" else "false")]);
  }

  /** A value that `?? undefined` does not swallow. */
  predicate Defined(v: Val) {
    !v.Undef? && !v.Null?
  }

  /** Row `i` is the first that matches. */
  predicate FirstMatch(rows: seq<Row>, path: seq<string>, i: nat) {
    i < |rows| && Matches(rows[i], path) && forall j | 0 <= j < i :: !Matches(rows[j], path)
  }

  lemma {:induction false} ScanStartsWithFirst(rows: seq<Row>, path: seq<string>, i: nat)
    requires FirstMatch(rows, path, i)
    ensures Scan(rows, path) != [] && Scan(rows, path)[0] == Found(rows[i].values)
  {
    var front := rows[..|rows| - 1];
    if i < |front| {
      assert front[i] == rows[i];
      ScanStartsWithFirst(front, path, i);
    } else {
      ScanIsEmpty(front, path);
    }
  }

  lemma {:induction false} SomeMatchIsFirst(rows: seq<Row>, path: seq<string>) returns (i: nat)
    requires SomeRowMatches(rows, path)
    ensures FirstMatch(rows, path, i)
  {
    var front := rows[..|rows| - 1];
    if SomeRowMatches(front, path) {
      i := SomeMatchIsFirst(front, path);
    } else {
      i := |front|;
      assert forall j | 0 <= j < i :: rows[j] == front[j];
    }
  }

  /**
   * `has` tells whether a row matches - unless keys are unique, so that the value is not in a list, and that of the
   * row is null or undefined.
   */
  lemma HasJustIfRowMatches(m: Mapping, rows: seq<Row>, args: seq<Val>)
    requires Answers(m, rows) && |args| == m.arity && AllMappable(args)
    ensures Has(m, args) <==>
              exists i: nat :: FirstMatch(rows, PathOf(args), i) && (KeysUnique(rows) ==> Defined(Found(rows[i].values)))
  {
    var path := PathOf(args);
    assert Access(m, args) == Expected(rows, path);
    ScanIsEmpty(rows, path);
    if SomeRowMatches(rows, path) {
      var i := SomeMatchIsFirst(rows, path);
      ScanStartsWithFirst(rows, path, i);
      assert forall k: nat :: FirstMatch(rows, path, k) ==> k == i;
    }
  }

  /** A table of two columns, each of distinct mappable values that differ as strings, too. */
  predicate Bijective(table: seq<seq<Val>>) {
    && (forall i | 0 <= i < |table| :: |table[i]| == 2 && Mappable(table[i][0]) && Mappable(table[i][1]))
    && (forall i, j | 0 <= i < j < |table| :: KeyString(table[i][0]) != KeyString(table[j][0]))
    && (forall i, j | 0 <= i < j < |table| :: KeyString(table[i][1]) != KeyString(table[j][1]))
  }

  /** Column `c` as key, the other one as value. */
  function TwoColumns(table: seq<seq<Val>>, c: int): seq<Row> {
    seq(|table|, i requires 0 <= i < |table| => Row([CellAt(table[i], c)], [CellAt(table[i], 1 - c)]))
  }

  lemma TwoColumnsSplit(table: seq<seq<Val>>, c: int)
    ensures TwoColumns(table, c) == SplitRows(table, Shape([c], [1 - c]))
  {
    var rows, split := TwoColumns(table, c), SplitRows(table, Shape([c], [1 - c]));
    forall i | 0 <= i < |table|
      ensures rows[i] == split[i]
    {
      assert rows[i].keys == split[i].keys && rows[i].values == split[i].values;
    }
  }

  lemma BijectiveColumn(table: seq<seq<Val>>, c: int)
    requires Bijective(table) && (c == 0 || c == 1)
    ensures KeysDistinctAsStrings(TwoColumns(table, c), 1) && KeysUnique(TwoColumns(table, c))
  {
    var rows := TwoColumns(table, c);
    forall i, j | 0 <= i < j < |rows|
      ensures KeyString(rows[i].keys[0]) != KeyString(rows[j].keys[0]) && rows[i].keys[0] != rows[j].keys[0]
    {
      assert KeyString(table[i][c]) != KeyString(table[j][c]);
    }
    forall i, j | 0 <= i < |rows| && 0 <= j < |rows| && KeyString(rows[i].keys[0]) == KeyString(rows[j].keys[0])
      ensures rows[i].keys[0] == rows[j].keys[0]
    {
      assert i < j || j < i || i == j;
    }
  }

  /** `m` maps column `c` of the table to the other one, as constMap of that shape does. */
  ghost predicate MapsColumn(m: Mapping, table: seq<seq<Val>>, c: int) {
    m.arity == 1 && Answers(m, TwoColumns(table, c))
  }

  lemma ColumnLookup(m: Mapping, table: seq<seq<Val>>, c: int, i: nat)
    requires Bijective(table) && (c == 0 || c == 1) && MapsColumn(m, table, c) && i < |table|
    ensures Access(m, [table[i][c]]) == table[i][1 - c]
  {
    TwoColumnsRow(table, c, i);
    ColumnAnswers(m, table, c, i);
    RowIsMappable(table, c, i);
    CellOfRow(m, TwoColumns(table, c)[i], table[i][c], table[i][1 - c]);
  }

  lemma CellOfRow(m: Mapping, row: Row, key: Val, value: Val)
    requires row == Row([key], [value]) && Mappable(value) && Access(m, row.keys) == OrUndefined(Found(row.values))
    ensures Access(m, [key]) == value
  {
  }

  lemma TwoColumnsRow(table: seq<seq<Val>>, c: int, i: nat)
    requires (c == 0 || c == 1) && i < |table| && |table[i]| == 2
    ensures TwoColumns(table, c)[i] == Row([table[i][c]], [table[i][1 - c]])
  {
  }

  lemma ColumnAnswers(m: Mapping, table: seq<seq<Val>>, c: int, i: nat)
    requires Bijective(table) && (c == 0 || c == 1) && MapsColumn(m, table, c) && i < |table|
    ensures var row := TwoColumns(table, c)[i]; Access(m, row.keys) == OrUndefined(Found(row.values))
  {
    BijectiveColumn(table, c);
    LookupFindsRow(m, TwoColumns(table, c), i);
  }

  lemma SameStringSameAccess(m: Mapping, a: Val, b: Val)
    requires KeyString(a) == KeyString(b)
    ensures Access(m, [a]) == Access(m, [b])
  {
    assert PathOf([a]) == PathOf([b]);
  }

  /** The row that a key was found in. */
  lemma FoundCell(m: Mapping, table: seq<seq<Val>>, c: int, key: Val) returns (i: nat)
    requires Bijective(table) && (c == 0 || c == 1) && MapsColumn(m, table, c) && Finds(m, key)
    ensures i < |table| && KeyString(table[i][c]) == KeyString(key) && Access(m, [key]) == table[i][1 - c]
  {
    i := FoundRow(m, table, c, key);
    ColumnLookup(m, table, c, i);
    SameStringSameAccess(m, key, table[i][c]);
  }

  /** `m` takes every cell of column `c` to the other cell of its row. */
  ghost predicate GivesCells(m: Mapping, table: seq<seq<Val>>, c: int) {
    && (c == 0 || c == 1) && (forall i | 0 <= i < |table| :: |table[i]| == 2)
    && (forall i | 0 <= i < |table| :: Access(m, [table[i][c]]) == table[i][1 - c])
  }

  predicate Finds(m: Mapping, key: Val) {
    Mappable(key) && Has(m, [key])
  }

  /** Whatever `m` finds is found in a row of the table. */
  ghost predicate FindsOnlyCells(m: Mapping, table: seq<seq<Val>>, c: int) {
    && (c == 0 || c == 1) && (forall i | 0 <= i < |table| :: |table[i]| == 2)
    && forall key | Finds(m, key) :: exists i: nat :: IsCell(m, table, c, key, i)
  }

  /** What `m` finds of `key` is in row `i` of the table. */
  predicate IsCell(m: Mapping, table: seq<seq<Val>>, c: int, key: Val, i: nat)
    requires (c == 0 || c == 1) && forall i | 0 <= i < |table| :: |table[i]| == 2
  {
    && i < |table| && KeyString(table[i][c]) == KeyString(key) && Access(m, [key]) == table[i][1 - c]
    && Mappable(table[i][c]) && Mappable(table[i][1 - c])
  }

  lemma BijectiveGivesCells(m: Mapping, table: seq<seq<Val>>, c: int)
    requires Bijective(table) && (c == 0 || c == 1) && MapsColumn(m, table, c)
    ensures GivesCells(m, table, c)
  {
    forall i | 0 <= i < |table|
      ensures Access(m, [table[i][c]]) == table[i][1 - c]
    {
      ColumnLookup(m, table, c, i);
    }
  }

  lemma BijectiveFindsCell(m: Mapping, table: seq<seq<Val>>, c: int, key: Val)
    requires Bijective(table) && (c == 0 || c == 1) && MapsColumn(m, table, c) && Finds(m, key)
    ensures exists i: nat :: IsCell(m, table, c, key, i)
  {
    var i := FoundCell(m, table, c, key);
    RowIsMappable(table, c, i);
    CellIsFound(m, table, c, key, i);
  }

  lemma RowIsMappable(table: seq<seq<Val>>, c: int, i: nat)
    requires Bijective(table) && (c == 0 || c == 1) && i < |table|
    ensures |table[i]| == 2 && Mappable(table[i][c]) && Mappable(table[i][1 - c])
  {
  }

  lemma CellIsFound(m: Mapping, table: seq<seq<Val>>, c: int, key: Val, i: nat)
    requires (c == 0 || c == 1) && (forall i | 0 <= i < |table| :: |table[i]| == 2) && IsCell(m, table, c, key, i)
    ensures exists i: nat :: IsCell(m, table, c, key, i)
  {
  }

  lemma BijectiveFindsOnlyCells(m: Mapping, table: seq<seq<Val>>, c: int)
    requires Bijective(table) && (c == 0 || c == 1) && MapsColumn(m, table, c)
    ensures FindsOnlyCells(m, table, c)
  {
    forall key | Finds(m, key)
      ensures exists i: nat :: IsCell(m, table, c, key, i)
    {
      BijectiveFindsCell(m, table, c, key);
    }
  }

  /** Whatever `m` finds of a key leads `inverse` back to that key. */
  ghost predicate LeadsBack(m: Mapping, inverse: Mapping) {
    forall key | Finds(m, key) ::
      && Mappable(Access(m, [key])) && Has(inverse, [Access(m, [key])])
      && KeyString(Access(inverse, [Access(m, [key])])) == KeyString(key)
  }

  lemma CellLeadsBack(m: Mapping, inverse: Mapping, key: Val, cell: Val, back: Val)
    requires Access(m, [key]) == cell && Mappable(cell)
    requires Access(inverse, [cell]) == back && Mappable(back) && KeyString(back) == KeyString(key)
    ensures Mappable(Access(m, [key])) && Has(inverse, [Access(m, [key])])
    ensures KeyString(Access(inverse, [Access(m, [key])])) == KeyString(key)
  {
  }

  lemma KeyLeadsBack(m: Mapping, inverse: Mapping, table: seq<seq<Val>>, c: int, key: Val, i: nat)
    requires (c == 0 || c == 1) && (forall i | 0 <= i < |table| :: |table[i]| == 2)
    requires IsCell(m, table, c, key, i) && Access(inverse, [table[i][1 - c]]) == table[i][c]
    ensures Mappable(Access(m, [key])) && Has(inverse, [Access(m, [key])])
    ensures KeyString(Access(inverse, [Access(m, [key])])) == KeyString(key)
  {
    CellLeadsBack(m, inverse, key, table[i][1 - c], table[i][c]);
  }

  lemma FoundLeadsBack(m: Mapping, inverse: Mapping, table: seq<seq<Val>>, c: int, key: Val)
    requires FindsOnlyCells(m, table, c) && GivesCells(inverse, table, 1 - c) && Finds(m, key)
    ensures Mappable(Access(m, [key])) && Has(inverse, [Access(m, [key])])
    ensures KeyString(Access(inverse, [Access(m, [key])])) == KeyString(key)
  {
    var i: nat :| IsCell(m, table, c, key, i);
    CellGiven(inverse, table, 1 - c, i);
    KeyLeadsBack(m, inverse, table, c, key, i);
  }

  lemma CellsLeadBack(m: Mapping, inverse: Mapping, table: seq<seq<Val>>, c: int)
    requires FindsOnlyCells(m, table, c) && GivesCells(inverse, table, 1 - c)
    ensures LeadsBack(m, inverse)
  {
    forall key | Finds(m, key)
      ensures Mappable(Access(m, [key])) && Has(inverse, [Access(m, [key])])
      ensures KeyString(Access(inverse, [Access(m, [key])])) == KeyString(key)
    {
      FoundLeadsBack(m, inverse, table, c, key);
    }
  }

  lemma CellGiven(m: Mapping, table: seq<seq<Val>>, c: int, i: nat)
    requires GivesCells(m, table, c) && i < |table|
    ensures |table[i]| == 2 && Access(m, [table[i][c]]) == table[i][1 - c]
  {
  }

  /** On a bijective table the default map and that of shape [1, 0] invert each other. */
  lemma MapsInvertEachOther(m: Mapping, inverse: Mapping, table: seq<seq<Val>>)
    requires Bijective(table) && MapsColumn(m, table, 0) && MapsColumn(inverse, table, 1)
    ensures LeadsBack(m, inverse) && LeadsBack(inverse, m)
  {
    BijectiveGivesCells(m, table, 0);
    BijectiveGivesCells(inverse, table, 1);
    BijectiveFindsOnlyCells(m, table, 0);
    BijectiveFindsOnlyCells(inverse, table, 1);
    CellsLeadBack(m, inverse, table, 0);
    CellsLeadBack(inverse, m, table, 1);
  }

  lemma FoundRow(m: Mapping, table: seq<seq<Val>>, c: int, key: Val) returns (i: nat)
    requires (c == 0 || c == 1) && (forall i | 0 <= i < |table| :: |table[i]| == 2)
    requires MapsColumn(m, table, c) && Finds(m, key)
    ensures i < |table| && KeyString(table[i][c]) == KeyString(key)
  {
    var rows := TwoColumns(table, c);
    ScanIsEmpty(rows, PathOf([key]));
    AnswersTo(m, rows, [key]);
    i :| 0 <= i < |rows| && Matches(rows[i], PathOf([key]));
    MatchedCell(table, c, key, i);
  }

  lemma AnswersTo(m: Mapping, rows: seq<Row>, args: seq<Val>)
    requires Answers(m, rows) && |args| == m.arity && AllMappable(args)
    ensures Has(m, args) ==> Scan(rows, PathOf(args)) != []
  {
    assert Access(m, args) == Expected(rows, PathOf(args));
  }

  lemma MatchedCell(table: seq<seq<Val>>, c: int, key: Val, i: nat)
    requires (c == 0 || c == 1) && i < |table| && |table[i]| == 2
    requires Matches(TwoColumns(table, c)[i], PathOf([key]))
    ensures KeyString(table[i][c]) == KeyString(key)
  {
    assert KeyString(TwoColumns(table, c)[i].keys[0]) == PathOf([key])[0];
  }
}
