// vaa.ts: where in the bytes of a VAA its fields are, by numeric offsets - the wire format that guardians and
// contracts on all chains share.
module VaaFormat {
  import opened Common
  import opened BigEndian
  import opened Layouts
  import opened Serialize
  import opened Deserialize
  import opened RoundTrip
  import opened LayoutMeta
  import opened LayoutItems
  import opened Vaa
  import Composition

  // ---- the format -------------------------------------------------------------------------

  function SignatureOf(r: bytes, s: bytes, v: byte): Value {
    Custom("Signature", [UintV(Big(Number(r))), UintV(Big(Number(s))), UintV(Num(v))])
  }

  /** The signature of one guardian: its index, r, s and v. */
  predicate SignatureAt(e: Value, data: bytes, at: nat) {
    && at + 66 <= |data|
    && e == RecordV(map["guardianIndex" := UintV(Num(data[at])),
                        "signature" := SignatureOf(data[at + 1..at + 33], data[at + 33..at + 65], data[at + 65])])
  }

  predicate SignaturesAt(elems: seq<Value>, data: bytes, at: nat) {
    forall k | 0 <= k < |elems| :: SignatureAt(elems[k], data, at + 66 * k)
  }

  /** Version 1, the guardian set, and as many signatures as the sixth byte says; the header ends at `h`. */
  predicate HeaderAt(vaa: Fields, data: bytes, h: nat) {
    && 6 <= |data| && data[0] == 1 && h == 6 + 66 * (data[5] as nat)
    && HEADER_NAMES <= vaa.Keys
    && vaa["guardianSet"] == UintV(Num(Number(data[1..5])))
    && vaa["signatures"].ListV? && |vaa["signatures"].elems| == data[5]
    && SignaturesAt(vaa["signatures"].elems, data, 6)
  }

  ghost predicate EnvelopeAt(chains: ChainMaps, vaa: Fields, data: bytes, h: nat) {
    && h + 51 <= |data| && ENVELOPE_NAMES <= vaa.Keys
    && vaa["timestamp"] == UintV(Num(Number(data[h..h + 4])))
    && vaa["nonce"] == UintV(Num(Number(data[h + 4..h + 8])))
    && (exists name :: IsChain(chains, name, Number(data[h + 8..h + 10])) && vaa["emitterChain"] == StringV(name))
    && vaa["emitterAddress"] == Custom("UniversalAddress", [BytesV(data[h + 10..h + 42])])
    && vaa["sequence"] == UintV(Big(Number(data[h + 42..h + 50])))
    && vaa["consistencyLevel"] == UintV(Num(data[h + 50]))
  }

  /** The payload takes the rest of the data. */
  predicate PayloadAt(description: Description, payload: Value, data: bytes, at: nat) {
    && at <= |data|
    && match description
       case LayoutDescription(layout) => ParseAll(layout, data, at) == Ok(payload)
       case ConversionDescription(conv) => conv.to(data[at..]) == Some(payload)
  }

  // ---- items at known offsets -------------------------------------------------------------

  lemma NumberOfByte(data: bytes, at: nat)
    requires at < |data|
    ensures Number(data[at..at + 1]) == data[at]
  {
    assert data[at..at + 1] == [data[at]];
    assert Number([]) == 0;
  }

  lemma PlainUintAt(name: string, size: nat, data: bytes, at: nat)
    requires ParseItem(UintItem(name, size, PlainUint), data, at).Ok?
    ensures at + size <= |data|
    ensures ParseItem(UintItem(name, size, PlainUint), data, at).value
         == Parsed(UintV(ToUint(Number(data[at..at + size]), size)), at + size)
  {
  }

  /** The first field of a decoded record, and where the others come from. */
  lemma FirstField(item: Item, rest: Layout, data: bytes, at: nat)
    requires ParseLayout([item] + rest, data, at).Ok? && !item.Omitted() && item.name !in Names(rest)
    ensures ParseItem(item, data, at).Ok?
    ensures ParseLayout(rest, data, ParseItem(item, data, at).value.offset).Ok?
    ensures var all, first := ParseLayout([item] + rest, data, at).value, ParseItem(item, data, at).value;
            var others := ParseLayout(rest, data, first.offset).value;
            && all.offset == others.offset
            && item.name in all.value && all.value[item.name] == first.value
            && forall name <- Names(rest) :: name in others.value && name in all.value && all.value[name] == others.value[name]
  {
    assert ([item] + rest)[1..] == rest;
    DecodedNames(rest, data, ParseItem(item, data, at).value.offset);
  }

  lemma NamesOfCons(item: Item, rest: Layout)
    ensures Names([item] + rest) == (if item.Omitted() then {} else {item.name}) + Names(rest)
  {
    assert ([item] + rest)[1..] == rest;
  }

  // ---- the signatures ---------------------------------------------------------------------

  lemma SignatureRead(b: bytes)
    requires |b| == 65 && ToSignature(SIGNATURE_LAYOUT, b).Some?
    ensures ToSignature(SIGNATURE_LAYOUT, b).value == SignatureOf(b[0..32], b[32..64], b[64])
  {
    var r, s, v := UintItem("r", 32, PlainUint), UintItem("s", 32, PlainUint), UintItem("v", 1, PlainUint);
    assert SIGNATURE_LAYOUT == [r] + ([s] + ([v] + []));
    NamesOfCons(v, []);
    NamesOfCons(s, [v] + []);
    FirstField(r, [s] + ([v] + []), b, 0);
    PlainUintAt("r", 32, b, 0);
    FirstField(s, [v] + [], b, 32);
    PlainUintAt("s", 32, b, 32);
    FirstField(v, [], b, 64);
    PlainUintAt("v", 1, b, 64);
    NumberOfByte(b, 64);
  }

  lemma RecordOfTwo(fields: Fields, a: string, b: string, v: Value, w: Value)
    requires fields.Keys == {a, b} && a != b && fields[a] == v && fields[b] == w
    ensures RecordV(fields) == RecordV(map[a := v, b := w])
  {
    assert fields == map[a := v, b := w];
  }

  const INDEX_ITEM := UintItem("guardianIndex", 1, PlainUint)

  lemma GuardianFields(data: bytes, at: nat)
    requires ParseLayout(GUARDIAN_SIGNATURE_LAYOUT, data, at).Ok?
    ensures ParseItem(INDEX_ITEM, data, at).Ok? && ParseItem(INDEX_ITEM, data, at).value.offset == at + 1
    ensures ParseItem(SignatureItem("signature"), data, at + 1).Ok?
    ensures var all, signature := ParseLayout(GUARDIAN_SIGNATURE_LAYOUT, data, at).value,
                                  ParseItem(SignatureItem("signature"), data, at + 1).value;
            && all.value.Keys == {"guardianIndex", "signature"} && all.offset == signature.offset
            && all.value["guardianIndex"] == ParseItem(INDEX_ITEM, data, at).value.value
            && all.value["signature"] == signature.value
  {
    var signature := SignatureItem("signature");
    assert GUARDIAN_SIGNATURE_LAYOUT == [INDEX_ITEM] + ([signature] + []);
    NamesOfCons(signature, []);
    NamesOfCons(INDEX_ITEM, [signature] + []);
    FirstField(INDEX_ITEM, [signature] + [], data, at);
    PlainUintAt("guardianIndex", 1, data, at);
    FirstField(signature, [], data, at + 1);
    DecodedNames(GUARDIAN_SIGNATURE_LAYOUT, data, at);
  }

  lemma SliceOfSlice(data: bytes, at: nat, size: nat, from: nat, to: nat)
    requires at + size <= |data| && from <= to <= size
    ensures data[at..at + size][from..to] == data[at + from..at + to]
  {
    var part := data[at..at + size];
    assert forall j | from <= j < to :: part[j] == data[at + j];
  }

  lemma SizedItemAt(name: string, size: nat, conv: BytesConversion, data: bytes, at: nat)
    requires ParseItem(BytesItem(name, SizedBytes(size, Some(conv))), data, at).Ok?
    ensures at + size <= |data| && conv.to(data[at..at + size]).Some?
    ensures ParseItem(BytesItem(name, SizedBytes(size, Some(conv))), data, at).value
         == Parsed(conv.to(data[at..at + size]).value, at + size)
  {
  }

  lemma SignatureSlices(data: bytes, at: nat)
    requires at + 65 <= |data|
    ensures var b := data[at..at + 65];
            SignatureOf(b[0..32], b[32..64], b[64]) == SignatureOf(data[at..at + 32], data[at + 32..at + 64], data[at + 64])
  {
    SliceOfSlice(data, at, 65, 0, 32);
    SliceOfSlice(data, at, 65, 32, 64);
  }

  lemma SignatureItemAt(data: bytes, at: nat)
    requires ParseItem(SignatureItem("signature"), data, at).Ok?
    ensures at + 65 <= |data|
    ensures ParseItem(SignatureItem("signature"), data, at).value.value ==
              SignatureOf(data[at..at + 32], data[at + 32..at + 64], data[at + 64])
    ensures ParseItem(SignatureItem("signature"), data, at).value.offset == at + 65
  {
    SizedItemAt("signature", 65, SignatureConversion(), data, at);
    SignatureRead(data[at..at + 65]);
    SignatureSlices(data, at);
  }

  lemma GuardianSignatureRead(data: bytes, at: nat)
    requires ParseLayout(GUARDIAN_SIGNATURE_LAYOUT, data, at).Ok?
    ensures ParseLayout(GUARDIAN_SIGNATURE_LAYOUT, data, at).value.offset == at + 66
    ensures SignatureAt(RecordV(ParseLayout(GUARDIAN_SIGNATURE_LAYOUT, data, at).value.value), data, at)
  {
    var fields := ParseLayout(GUARDIAN_SIGNATURE_LAYOUT, data, at).value.value;
    GuardianFields(data, at);
    PlainUintAt("guardianIndex", 1, data, at);
    NumberOfByte(data, at);
    SignatureItemAt(data, at + 1);
    RecordOfTwo(fields, "guardianIndex", "signature", fields["guardianIndex"], fields["signature"]);
  }

  lemma SignaturesCons(first: Value, rest: seq<Value>, data: bytes, at: nat)
    requires SignatureAt(first, data, at) && SignaturesAt(rest, data, at + 66)
    ensures SignaturesAt([first] + rest, data, at)
  {
    forall k | 0 <= k < 1 + |rest|
      ensures SignatureAt(([first] + rest)[k], data, at + 66 * k)
    {
      if k > 0 {
        assert SignatureAt(rest[k - 1], data, at + 66 + 66 * (k - 1));
      }
    }
  }

  /** Elements of 66 bytes that are signatures stand one after the other. */
  lemma {:induction false} ElemsRead(layout: Layout, data: bytes, offset: nat, count: nat)
    requires ParseElems(layout, data, offset, count).Ok?
    requires forall at: nat | ParseLayout(layout, data, at).Ok? ::
               && ParseLayout(layout, data, at).value.offset == at + 66
               && SignatureAt(RecordV(ParseLayout(layout, data, at).value.value), data, at)
    ensures var elems := ParseElems(layout, data, offset, count).value;
            |elems.value| == count && elems.offset == offset + 66 * count && SignaturesAt(elems.value, data, offset)
    decreases count
  {
    if count > 0 {
      var first := ParseLayout(layout, data, offset).value;
      assert first.offset == offset + 66;
      ElemsRead(layout, data, offset + 66, count - 1);
      SignaturesCons(RecordV(first.value), ParseElems(layout, data, offset + 66, count - 1).value.value, data, offset);
    }
  }

  lemma SignaturesRead(data: bytes, offset: nat, count: nat)
    requires ParseElems(GUARDIAN_SIGNATURE_LAYOUT, data, offset, count).Ok?
    ensures var elems := ParseElems(GUARDIAN_SIGNATURE_LAYOUT, data, offset, count).value;
            |elems.value| == count && elems.offset == offset + 66 * count && SignaturesAt(elems.value, data, offset)
  {
    forall at: nat | ParseLayout(GUARDIAN_SIGNATURE_LAYOUT, data, at).Ok?
      ensures ParseLayout(GUARDIAN_SIGNATURE_LAYOUT, data, at).value.offset == at + 66
      ensures SignatureAt(RecordV(ParseLayout(GUARDIAN_SIGNATURE_LAYOUT, data, at).value.value), data, at)
    {
      GuardianSignatureRead(data, at);
    }
    ElemsRead(GUARDIAN_SIGNATURE_LAYOUT, data, offset, count);
  }

  // ---- the header -------------------------------------------------------------------------

  /** An omitted item and two others. */
  lemma TwoFields(omitted: Item, a: Item, b: Item, data: bytes)
    requires omitted.Omitted() && !a.Omitted() && !b.Omitted() && a.name != b.name
    requires ParseLayout([omitted] + ([a] + ([b] + [])), data, 0).Ok?
    ensures ParseItem(omitted, data, 0).Ok?
    ensures var first := ParseItem(omitted, data, 0).value;
            && ParseItem(a, data, first.offset).Ok?
            && ParseItem(b, data, ParseItem(a, data, first.offset).value.offset).Ok?
    ensures var all, va := ParseLayout([omitted] + ([a] + ([b] + [])), data, 0).value,
                           ParseItem(a, data, ParseItem(omitted, data, 0).value.offset).value;
            var vb := ParseItem(b, data, va.offset).value;
            && all.offset == vb.offset && {a.name, b.name} <= all.value.Keys
            && all.value[a.name] == va.value && all.value[b.name] == vb.value
  {
    var rest := [a] + ([b] + []);
    assert ([omitted] + rest)[1..] == rest;
    var at := ParseItem(omitted, data, 0).value.offset;
    NamesOfCons(b, []);
    FirstField(a, [b] + [], data, at);
    FirstField(b, [], data, ParseItem(a, data, at).value.offset);
  }

  function Header(layout: Layout): Layout {
    [VERSION_ITEM] + ([GUARDIAN_SET_ITEM] + ([ArrayItem("signatures", Some(1), layout)] + []))
  }

  /** Version, guardian set, and from the sixth byte on the signatures, whatever their layout is. */
  lemma HeaderParts(layout: Layout, data: bytes)
    requires ParseLayout(Header(layout), data, 0).Ok?
    ensures 6 <= |data| && data[0] == 1 && ParseElems(layout, data, 6, data[5]).Ok?
    ensures var all, elems := ParseLayout(Header(layout), data, 0).value, ParseElems(layout, data, 6, data[5]).value;
            && all.offset == elems.offset && HEADER_NAMES <= all.value.Keys
            && all.value["guardianSet"] == UintV(Num(Number(data[1..5]))) && all.value["signatures"] == ListV(elems.value)
  {
    TwoFields(VERSION_ITEM, GUARDIAN_SET_ITEM, ArrayItem("signatures", Some(1), layout), data);
    NumberOfByte(data, 0);
    PlainUintAt("guardianSet", 4, data, 1);
    NumberOfByte(data, 5);
  }

  lemma HeaderRead(data: bytes)
    requires ParseLayout(HEADER_LAYOUT, data, 0).Ok?
    ensures HeaderAt(ParseLayout(HEADER_LAYOUT, data, 0).value.value, data, ParseLayout(HEADER_LAYOUT, data, 0).value.offset)
  {
    assert HEADER_LAYOUT == Header(GUARDIAN_SIGNATURE_LAYOUT);
    HeaderParts(GUARDIAN_SIGNATURE_LAYOUT, data);
    SignaturesRead(data, 6, data[5]);
  }

  // ---- the envelope -----------------------------------------------------------------------

  /** Three items in front of others. */
  lemma ThreeFields(a: Item, b: Item, c: Item, rest: Layout, data: bytes, at: nat)
    requires !a.Omitted() && !b.Omitted() && !c.Omitted()
    requires a.name != b.name && a.name != c.name && b.name != c.name && {a.name, b.name, c.name} !! Names(rest)
    requires ParseLayout([a] + ([b] + ([c] + rest)), data, at).Ok?
    ensures ParseItem(a, data, at).Ok?
    ensures var afterA := ParseItem(a, data, at).value.offset;
            && ParseItem(b, data, afterA).Ok?
            && var afterB := ParseItem(b, data, afterA).value.offset;
               ParseItem(c, data, afterB).Ok? && ParseLayout(rest, data, ParseItem(c, data, afterB).value.offset).Ok?
    ensures var all, va := ParseLayout([a] + ([b] + ([c] + rest)), data, at).value, ParseItem(a, data, at).value;
            var vb := ParseItem(b, data, va.offset).value;
            var vc := ParseItem(c, data, vb.offset).value;
            var others := ParseLayout(rest, data, vc.offset).value;
            && all.offset == others.offset && {a.name, b.name, c.name} <= all.value.Keys
            && all.value[a.name] == va.value && all.value[b.name] == vb.value && all.value[c.name] == vc.value
            && forall name <- Names(rest) :: name in all.value && name in others.value && all.value[name] == others.value[name]
  {
    NamesOfCons(c, rest);
    NamesOfCons(b, [c] + rest);
    FirstField(a, [b] + ([c] + rest), data, at);
    var afterA := ParseItem(a, data, at).value.offset;
    FirstField(b, [c] + rest, data, afterA);
    FirstField(c, rest, data, ParseItem(b, data, afterA).value.offset);
  }

  lemma ChainAt(chains: ChainMaps, data: bytes, at: nat)
    requires chains.Valid() && ParseItem(ChainItem("emitterChain", chains, NO_OPTIONS), data, at).Ok?
    ensures at + 2 <= |data| && ParseItem(ChainItem("emitterChain", chains, NO_OPTIONS), data, at).value.offset == at + 2
    ensures exists name :: IsChain(chains, name, Number(data[at..at + 2]))
                           && ParseItem(ChainItem("emitterChain", chains, NO_OPTIONS), data, at).value.value == StringV(name)
  {
    var id := Number(data[at..at + 2]);
    ChainWithId(chains, id);
    var name :| IsChain(chains, name, id);
    assert ChainOfId(chains, NO_OPTIONS, Num(id)) == Some(StringV(name));
  }

  /** Timestamp, nonce and chain. */
  lemma FrontRead(chains: ChainMaps, rest: Layout, data: bytes, h: nat)
    requires chains.Valid() && {"timestamp", "nonce", "emitterChain"} !! Names(rest)
    requires ParseLayout(Front(chains, rest), data, h).Ok?
    ensures h + 10 <= |data| && ParseLayout(rest, data, h + 10).Ok?
    ensures var all, others := ParseLayout(Front(chains, rest), data, h).value, ParseLayout(rest, data, h + 10).value;
            && all.offset == others.offset && {"timestamp", "nonce", "emitterChain"} <= all.value.Keys
            && all.value["timestamp"] == UintV(Num(Number(data[h..h + 4])))
            && all.value["nonce"] == UintV(Num(Number(data[h + 4..h + 8])))
            && (exists name :: IsChain(chains, name, Number(data[h + 8..h + 10])) && all.value["emitterChain"] == StringV(name))
            && forall name <- Names(rest) :: name in all.value && name in others.value && all.value[name] == others.value[name]
  {
    ThreeFields(UintItem("timestamp", 4, PlainUint), UintItem("nonce", 4, PlainUint),
                ChainItem("emitterChain", chains, NO_OPTIONS), rest, data, h);
    PlainUintAt("timestamp", 4, data, h);
    PlainUintAt("nonce", 4, data, h + 4);
    ChainAt(chains, data, h + 8);
  }

  function Front(chains: ChainMaps, rest: Layout): Layout {
    [UintItem("timestamp", 4, PlainUint)]
    + ([UintItem("nonce", 4, PlainUint)] + ([ChainItem("emitterChain", chains, NO_OPTIONS)] + rest))
  }

  function Back(rest: Layout): Layout {
    [AddressItem("emitterAddress")] + ([UintItem("sequence", 8, PlainUint)] + ([UintItem("consistencyLevel", 1, PlainUint)] + rest))
  }

  lemma AddressAt(data: bytes, at: nat)
    requires ParseItem(AddressItem("emitterAddress"), data, at).Ok?
    ensures at + 32 <= |data|
    ensures ParseItem(AddressItem("emitterAddress"), data, at).value.value
         == Custom("UniversalAddress", [BytesV(data[at..at + 32])])
    ensures ParseItem(AddressItem("emitterAddress"), data, at).value.offset == at + 32
  {
    SizedItemAt("emitterAddress", 32, AddressConversion(), data, at);
  }

  /** Address, sequence and consistency level. */
  lemma BackRead(rest: Layout, data: bytes, at: nat)
    requires {"emitterAddress", "sequence", "consistencyLevel"} !! Names(rest) && ParseLayout(Back(rest), data, at).Ok?
    ensures at + 41 <= |data| && ParseLayout(rest, data, at + 41).Ok?
    ensures var all, others := ParseLayout(Back(rest), data, at).value, ParseLayout(rest, data, at + 41).value;
            && all.offset == others.offset && {"emitterAddress", "sequence", "consistencyLevel"} <= all.value.Keys
            && all.value["emitterAddress"] == Custom("UniversalAddress", [BytesV(data[at..at + 32])])
            && all.value["sequence"] == UintV(Big(Number(data[at + 32..at + 40])))
            && all.value["consistencyLevel"] == UintV(Num(data[at + 40]))
            && forall name <- Names(rest) :: name in all.value && name in others.value && all.value[name] == others.value[name]
  {
    ThreeFields(AddressItem("emitterAddress"), UintItem("sequence", 8, PlainUint),
                UintItem("consistencyLevel", 1, PlainUint), rest, data, at);
    AddressAt(data, at);
    PlainUintAt("sequence", 8, data, at + 32);
    PlainUintAt("consistencyLevel", 1, data, at + 40);
    NumberOfByte(data, at + 40);
  }

  // ---- the payload ------------------------------------------------------------------------

  /** The payload, if it is all that is left. */
  lemma PayloadRead(description: Description, data: bytes, at: nat)
    requires ParseLayout([PayloadItem(description)], data, at).Ok? && at <= |data|
    requires ParseLayout([PayloadItem(description)], data, at).value.offset == |data|
    ensures var fields := ParseLayout([PayloadItem(description)], data, at).value.value;
            "payload" in fields && PayloadAt(description, fields["payload"], data, at)
  {
    var item := PayloadItem(description);
    FirstField(item, [], data, at);
    assert [item] + [] == [item];
    match description
    case LayoutDescription(layout) =>
    case ConversionDescription(conv) =>
  }

  lemma BodyInParts(chains: ChainMaps, description: Description)
    ensures var payload := [PayloadItem(description)];
            && BodyLayout(chains, description) == Front(chains, Back(payload))
            && Names(payload) == {"payload"}
            && Names(Back(payload)) == {"emitterAddress", "sequence", "consistencyLevel", "payload"}
  {
    var payload := [PayloadItem(description)];
    NamesOfCons(PayloadItem(description), []);
    assert payload == [PayloadItem(description)] + [];
    BackNames(payload);
  }

  /** The envelope stands where it should, and behind it the payload, whatever its layout is. */
  lemma EnvelopeRead(chains: ChainMaps, payload: Layout, data: bytes, h: nat)
    requires chains.Valid() && Names(payload) == {"payload"}
    requires Names(Back(payload)) == {"emitterAddress", "sequence", "consistencyLevel", "payload"}
    requires ParseLayout(Front(chains, Back(payload)), data, h).Ok?
    ensures h + 51 <= |data| && ParseLayout(payload, data, h + 51).Ok?
    ensures var all, last := ParseLayout(Front(chains, Back(payload)), data, h).value, ParseLayout(payload, data, h + 51).value;
            && all.offset == last.offset && EnvelopeAt(chains, all.value, data, h)
            && "payload" in all.value && "payload" in last.value && all.value["payload"] == last.value["payload"]
  {
    FrontRead(chains, Back(payload), data, h);
    BackRead(payload, data, h + 10);
  }

  lemma BodyRead(chains: ChainMaps, description: Description, data: bytes, h: nat, body: Fields)
    requires chains.Valid() && ParseLayout(BodyLayout(chains, description), data, h) == Ok(Parsed(body, |data|))
    ensures EnvelopeAt(chains, body, data, h)
    ensures "payload" in body && PayloadAt(description, body["payload"], data, h + 51)
  {
    BodyInParts(chains, description);
    EnvelopeRead(chains, [PayloadItem(description)], data, h);
    PayloadRead(description, data, h + 51);
  }

  lemma BackNames(rest: Layout)
    ensures Names(Back(rest)) == {"emitterAddress", "sequence", "consistencyLevel"} + Names(rest)
  {
    var sequence, level := UintItem("sequence", 8, PlainUint), UintItem("consistencyLevel", 1, PlainUint);
    NamesOfCons(level, rest);
    NamesOfCons(sequence, [level] + rest);
    NamesOfCons(AddressItem("emitterAddress"), [sequence] + ([level] + rest));
  }

  // ---- the VAA ----------------------------------------------------------------------------

  ghost predicate Extends(all: Fields, part: Fields) {
    forall name <- part :: name in all && all[name] == part[name]
  }

  lemma HeaderExtends(all: Fields, part: Fields, data: bytes, h: nat)
    requires Extends(all, part) && HeaderAt(part, data, h)
    ensures HeaderAt(all, data, h)
  {
  }

  lemma EnvelopeExtends(chains: ChainMaps, all: Fields, part: Fields, data: bytes, h: nat)
    requires Extends(all, part) && EnvelopeAt(chains, part, data, h)
    ensures EnvelopeAt(chains, all, data, h)
  {
  }

  lemma PartsExtend(payloadLiteral: string, header: Fields, body: Fields, hash: bytes)
    requires header.Keys !! body.Keys
    requires "payloadLiteral" !in header.Keys + body.Keys && "hash" !in header.Keys + body.Keys
    ensures Extends(VaaRecord(payloadLiteral, header, body, hash), header)
    ensures Extends(VaaRecord(payloadLiteral, header, body, hash), body)
  {
  }

  lemma PartsApart(w: World, description: Description, data: bytes, header: Parsed<Fields>, body: Fields)
    requires w.chains.Valid() && ParseLayout(HEADER_LAYOUT, data, 0) == Ok(header)
    requires ParseLayout(BodyLayout(w.chains, description), data, header.offset) == Ok(Parsed(body, |data|))
    ensures header.value.Keys !! body.Keys
    ensures "payloadLiteral" !in header.value.Keys + body.Keys && "hash" !in header.value.Keys + body.Keys
  {
    DecodedNames(HEADER_LAYOUT, data, 0);
    DecodedNames(BodyLayout(w.chains, description), data, header.offset);
    NamesApart(w.chains, description);
  }

  /** What deserialize finds in accepted data, and where. */
  lemma AcceptedFormat(w: World, factory: Factory, payloadLiteral: string, data: bytes)
    requires w.chains.Valid() && Deserialized(w, factory, payloadLiteral, data).Ok?
    ensures payloadLiteral in factory && 6 <= |data|
    ensures var vaa, h := Deserialized(w, factory, payloadLiteral, data).value, 6 + 66 * (data[5] as nat);
            && HeaderAt(vaa, data, h) && EnvelopeAt(w.chains, vaa, data, h)
            && "payload" in vaa && PayloadAt(factory[payloadLiteral], vaa["payload"], data, h + 51)
            && "payloadLiteral" in vaa && vaa["payloadLiteral"] == StringV(payloadLiteral)
            && "hash" in vaa && vaa["hash"] == BytesV(w.keccak256(data[h..]))
  {
    var header, body := AcceptedParts(w, factory, payloadLiteral, data);
    var h, hash := header.offset, w.keccak256(data[header.offset..]);
    var vaa := VaaRecord(payloadLiteral, header.value, body, hash);
    HeaderRead(data);
    BodyRead(w.chains, factory[payloadLiteral], data, h, body);
    PartsApart(w, factory[payloadLiteral], data, header, body);
    PartsExtend(payloadLiteral, header.value, body, hash);
    HeaderExtends(vaa, header.value, data, h);
    EnvelopeExtends(w.chains, vaa, body, data, h);
    PartsOfRecord(payloadLiteral, header.value, body, hash);
  }

  /** The first bytes of the signatures, the guardian indices, ascend. */
  predicate IndicesAscend(data: bytes)
    requires 6 <= |data| && 6 + 66 * (data[5] as nat) <= |data|
  {
    forall k | 1 <= k < data[5] as nat :: data[6 + 66 * (k - 1)] < data[6 + 66 * k]
  }

  lemma IndexAt(e: Value, data: bytes, at: nat)
    requires SignatureAt(e, data, at)
    ensures GuardianIndex(e) == data[at]
  {
  }

  lemma AscendingIsBytewise(vaa: Fields, data: bytes, h: nat)
    requires HeaderAt(vaa, data, h) && h <= |data|
    ensures Ascending(SignaturesOf(vaa)) <==> IndicesAscend(data)
  {
    var elems := vaa["signatures"].elems;
    forall k | 0 <= k < |elems|
      ensures GuardianIndex(elems[k]) == data[6 + 66 * k]
    {
      IndexAt(elems[k], data, 6 + 66 * k);
    }
    if IndicesAscend(data) {
      forall k | 1 <= k < |elems|
        ensures GuardianIndex(elems[k - 1]) < GuardianIndex(elems[k])
      {
      }
    }
    if Ascending(elems) {
      forall k | 1 <= k < |elems|
        ensures data[6 + 66 * (k - 1)] < data[6 + 66 * k]
      {
        assert GuardianIndex(elems[k - 1]) < GuardianIndex(elems[k]);
      }
    }
  }

  /** Of the data that the layout accepts, deserialize accepts just that with ascending guardian indices. */
  lemma AcceptedJustIfAscending(w: World, factory: Factory, payloadLiteral: string, data: bytes)
    requires w.chains.Valid() && payloadLiteral in factory
    requires ParseAll(VaaLayout(w.chains, factory[payloadLiteral]), data, 0).Ok?
    ensures 6 <= |data| && 6 + 66 * (data[5] as nat) <= |data|
    ensures Deserialized(w, factory, payloadLiteral, data).Ok? <==> IndicesAscend(data)
  {
    var body := BodyLayout(w.chains, factory[payloadLiteral]);
    var all := ParseAll(VaaLayout(w.chains, factory[payloadLiteral]), data, 0).value.fields;
    WholeThenAccepted(w, factory, payloadLiteral, data);
    Composition.ParseOfConcat(HEADER_LAYOUT, body, data, 0);
    var header := ParseLayout(HEADER_LAYOUT, data, 0).value;
    var rest := ParseLayout(body, data, header.offset).value;
    HeaderRead(data);
    PartsApart(w, factory[payloadLiteral], data, header, rest.value);
    ParseReadsLowerBound(HEADER_LAYOUT, data, 0);
    assert all == header.value + rest.value;
    SumExtends(header.value, rest.value);
    HeaderExtends(all, header.value, data, header.offset);
    AscendingIsBytewise(all, data, header.offset);
  }

  lemma SumExtends(header: Fields, body: Fields)
    requires header.Keys !! body.Keys
    ensures Extends(header + body, header)
  {
  }
}
