// vaa.ts: creating, serializing and deserializing VAAs with registered payload types.
module Vaa {
  import opened Common
  import opened BigEndian
  import opened Layouts
  import opened Serialize
  import opened Deserialize
  import opened RoundTrip
  import opened FixedDynamic
  import opened Composition
  import opened LayoutItems
  import HexString

  // ---- layouts ----------------------------------------------------------------------------

  const GUARDIAN_SIGNATURE_LAYOUT: Layout := [UintItem("guardianIndex", 1, PlainUint), SignatureItem("signature")]

  const VERSION_ITEM := UintItem("version", 1, ConstantUint(Num(1), true))
  const GUARDIAN_SET_ITEM := UintItem("guardianSet", 4, PlainUint)
  const SIGNATURES_ITEM := ArrayItem("signatures", Some(1), GUARDIAN_SIGNATURE_LAYOUT)

  const HEADER_LAYOUT: Layout := [VERSION_ITEM, GUARDIAN_SET_ITEM, SIGNATURES_ITEM]

  function EnvelopeLayout(chains: ChainMaps): Layout {
    [
      UintItem("timestamp", 4, PlainUint),
      UintItem("nonce", 4, PlainUint),
      ChainItem("emitterChain", chains, NO_OPTIONS),
      AddressItem("emitterAddress"),
      UintItem("sequence", 8, PlainUint),
      UintItem("consistencyLevel", 1, PlainUint)
    ]
  }

  /** What a payload type is registered with. */
  datatype Description = LayoutDescription(layout: Layout) | ConversionDescription(conv: BytesConversion)

  /** descriptionToPayloadItem */
  function PayloadItem(description: Description): Item {
    match description
    case LayoutDescription(layout) => ObjectItem("payload", layout)
    case ConversionDescription(conv) => BytesItem("payload", PrefixedBytes(None, Some(conv)))
  }

  function BodyLayout(chains: ChainMaps, description: Description): Layout {
    EnvelopeLayout(chains) + [PayloadItem(description)]
  }

  function VaaLayout(chains: ChainMaps, description: Description): Layout {
    HEADER_LAYOUT + BodyLayout(chains, description)
  }

  type Factory = map<string, Description>

  function UInt8ArrayConversion(): BytesConversion {
    BytesConversion(b => Some(BytesV(b)), (v: Value) => if v.BytesV? then Some(v.b) else None)
  }

  /** It leaves payloads as they are. */
  lemma UInt8ArraysStay(b: bytes)
    ensures UInt8ArrayConversion().to(b) == Some(BytesV(b)) && UInt8ArrayConversion().from(BytesV(b)) == Some(b)
    ensures GoodPayload(ConversionDescription(UInt8ArrayConversion()))
  {
  }

  function GetPayloadDescription(factory: Factory, payloadLiteral: string): Result<Description> {
    if payloadLiteral in factory then Ok(factory[payloadLiteral]) else Err(Invalid("No layout registered for payload type"))
  }

  // ---- what the operations compute --------------------------------------------------------

  /** The surroundings: the table of chains and keccak256, of which nothing is assumed. */
  datatype World = World(chains: ChainMaps, keccak256: bytes -> bytes)

  function VaaRecord(payloadLiteral: string, header: Fields, body: Fields, hash: bytes): Fields {
    map["payloadLiteral" := StringV(payloadLiteral)] + header + body + map["hash" := BytesV(hash)]
  }

  function Created(w: World, factory: Factory, payloadLiteral: string, vaaData: Value): Result<Fields> {
    var description :- GetPayloadDescription(factory, payloadLiteral);
    var body := BodyLayout(w.chains, description);
    var bodyWithFixed :- Filled(body, vaaData);
    var header :- Filled(HEADER_LAYOUT, vaaData);
    var bs :- LayoutBytes(body, RecordV(bodyWithFixed));
    Ok(VaaRecord(payloadLiteral, header, bodyWithFixed, w.keccak256(bs)))
  }

  /** The description for `vaa.payloadLiteral`. */
  function DescriptionOf(factory: Factory, vaa: Fields): Result<Description> {
    if "payloadLiteral" in vaa && IsString(vaa["payloadLiteral"])
    then GetPayloadDescription(factory, vaa["payloadLiteral"].kind)
    else Err(Invalid("No layout registered for payload type"))
  }

  function Serialized(w: World, factory: Factory, vaa: Fields): Result<bytes> {
    var description :- DescriptionOf(factory, vaa);
    LayoutBytes(VaaLayout(w.chains, description), RecordV(vaa))
  }

  /** `signature.guardianIndex` */
  function GuardianIndex(signature: Value): int {
    if signature.RecordV? && "guardianIndex" in signature.fields
       && signature.fields["guardianIndex"].UintV? && !signature.fields["guardianIndex"].u.Fractional?
    then signature.fields["guardianIndex"].u.n
    else -1
  }

  /** Every guardian index is above the one before it. */
  predicate Ascending(signatures: seq<Value>) {
    forall i | 1 <= i < |signatures| :: GuardianIndex(signatures[i - 1]) < GuardianIndex(signatures[i])
  }

  function SignaturesOf(header: Fields): seq<Value> {
    if "signatures" in header && header["signatures"].ListV? then header["signatures"].elems else []
  }

  /** The header, the check of its guardian indices, and the rest as the body; `body` may have no layout. */
  function PartsDeserialized(header: Layout, body: Result<Layout>, keccak256: bytes -> bytes, payloadLiteral: string,
                             data: bytes): Result<Fields>
  {
    var h :- ParseLayout(header, data, 0);
    if !Ascending(SignaturesOf(h.value)) then Err(Invalid("Guardian signatures must be in ascending order"))
    else
      var layout :- body;
      var b :- ParseAll(layout, data, h.offset);
      assert b.RecordV?;
      var rest := if h.offset <= |data| then data[h.offset..] else [];
      Ok(VaaRecord(payloadLiteral, h.value, b.fields, keccak256(rest)))
  }

  function BodyLayoutOf(w: World, factory: Factory, payloadLiteral: string): Result<Layout> {
    var description :- GetPayloadDescription(factory, payloadLiteral);
    Ok(BodyLayout(w.chains, description))
  }

  function Deserialized(w: World, factory: Factory, payloadLiteral: string, data: bytes): Result<Fields> {
    PartsDeserialized(HEADER_LAYOUT, BodyLayoutOf(w, factory, payloadLiteral), w.keccak256, payloadLiteral, data)
  }

  datatype Data = Raw(data: bytes) | Hex(str: string)

  function DataBytes(data: Data): Result<bytes> {
    match data
    case Raw(b) => Ok(b)
    case Hex(str) => HexString.Decode(str)
  }

  // ---- the operations ---------------------------------------------------------------------

  method CheckAscending(signatures: seq<Value>) returns (r: bool)
    ensures r <==> Ascending(signatures)
  {
    var i := 1;
    while i < |signatures|
      invariant 1 <= i
      invariant forall j | 1 <= j < i && j < |signatures| :: GuardianIndex(signatures[j - 1]) < GuardianIndex(signatures[j])
    {
      if GuardianIndex(signatures[i]) <= GuardianIndex(signatures[i - 1]) {
        return false;
      }
      i := i + 1;
    }
    return true;
  }

  /** The module's state: the map of registered payload types. */
  class PayloadRegistry {
    var payloadFactory: Factory
    const world: World

    constructor (world: World)
      ensures payloadFactory == map["Uint8Array" := ConversionDescription(UInt8ArrayConversion())]
      ensures this.world == world
    {
      this.world := world;
      payloadFactory := map["Uint8Array" := ConversionDescription(UInt8ArrayConversion())];
    }

    /** A payload type is never registered twice, so what was registered stays as it is. */
    method RegisterPayloadType(payloadLiteral: string, payloadSerDe: Description) returns (r: Result<()>)
      modifies this`payloadFactory
      ensures r.Ok? <==> payloadLiteral !in old(payloadFactory)
      ensures payloadFactory ==
              if r.Ok? then old(payloadFactory)[payloadLiteral := payloadSerDe] else old(payloadFactory)
      ensures forall literal <- old(payloadFactory) ::
                GetPayloadDescription(payloadFactory, literal) == GetPayloadDescription(old(payloadFactory), literal)
    {
      if payloadLiteral in payloadFactory {
        return Err(Invalid("Payload type already registered"));
      }
      payloadFactory := payloadFactory[payloadLiteral := payloadSerDe];
      return Ok(());
    }

    method Create(payloadLiteral: string, vaaData: Value) returns (r: Result<Fields>)
      ensures Created(world, payloadFactory, payloadLiteral, vaaData).Ok? <==> r.Ok?
      ensures r.Ok? ==> r == Created(world, payloadFactory, payloadLiteral, vaaData)
    {
      var description := GetPayloadDescription(payloadFactory, payloadLiteral);
      if description.Err? {
        return Err(description.error);
      }
      var body := BodyLayout(world.chains, description.value);
      var bodyWithFixed := AddFixedValues(body, vaaData);
      if bodyWithFixed.Err? {
        return bodyWithFixed;
      }
      var header := AddFixedValues(HEADER_LAYOUT, vaaData);
      if header.Err? {
        return header;
      }
      var bs := SerializeLayout(body, RecordV(bodyWithFixed.value));
      if bs.Err? {
        return Err(bs.error);
      }
      return Ok(VaaRecord(payloadLiteral, header.value, bodyWithFixed.value, world.keccak256(bs.value)));
    }

    method SerializeVaa(vaa: Fields) returns (r: Result<bytes>)
      ensures Serialized(world, payloadFactory, vaa).Ok? <==> r.Ok?
      ensures r.Ok? ==> r == Serialized(world, payloadFactory, vaa)
    {
      var description := DescriptionOf(payloadFactory, vaa);
      if description.Err? {
        return Err(description.error);
      }
      r := SerializeLayout(VaaLayout(world.chains, description.value), RecordV(vaa));
    }

    method DeserializeVaa(payloadLiteral: string, data: Data) returns (r: Result<Fields>)
      ensures DataBytes(data).Err? ==> r.Err?
      ensures DataBytes(data).Ok? ==> r == Deserialized(world, payloadFactory, payloadLiteral, DataBytes(data).value)
    {
      var bs: bytes;
      match data {
        case Raw(b) => bs := b;
        case Hex(str) =>
          var decoded := HexString.HexByteStringToUint8Array(str);
          if decoded.Err? {
            return Err(decoded.error);
          }
          bs := decoded.value;
      }
      var header := DeserializeLayout(HEADER_LAYOUT, bs, 0, false);
      if header.Err? {
        return Err(header.error);
      }
      var signatures, bodyOffset := SignaturesOf(header.value.value.fields), header.value.offset;
      var ascending := CheckAscending(signatures);
      if !ascending {
        return Err(Invalid("Guardian signatures must be in ascending order"));
      }
      var description := GetPayloadDescription(payloadFactory, payloadLiteral);
      if description.Err? {
        return Err(description.error);
      }
      var body := DeserializeLayout(BodyLayout(world.chains, description.value), bs, bodyOffset, true);
      if body.Err? {
        return Err(body.error);
      }
      var rest := if bodyOffset <= |bs| then bs[bodyOffset..] else [];
      return Ok(VaaRecord(payloadLiteral, header.value.value.fields, body.value.value.fields, world.keccak256(rest)));
    }
  }

  // ---- the layouts are well behaved -------------------------------------------------------

  /** What the round-trip laws ask of a layout that is not at the end of the data. */
  ghost predicate WellBehaved(layout: Layout, names: set<string>) {
    && Names(layout) == names && Lossless(layout) && DistinctNames(layout)
    && Delimited(layout) && !LayoutOpenEnded(layout)
  }

  ghost predicate WellBehavedItem(item: Item) {
    && ItemLossless(item) && ItemDelimited(item) && !OpenEnded(item)
    && (item.ArrayItem? || item.ObjectItem? ==> DistinctNames(item.layout))
  }

  lemma WellBehavedCons(item: Item, rest: Layout, names: set<string>)
    requires WellBehavedItem(item) && WellBehaved(rest, names)
    requires !item.Omitted() ==> item.name !in names
    ensures WellBehaved([item] + rest, names + if item.Omitted() then {} else {item.name})
  {
    assert ([item] + rest)[1..] == rest;
  }

  lemma GuardianSignatureLayout()
    ensures WellBehaved(GUARDIAN_SIGNATURE_LAYOUT, {"guardianIndex", "signature"})
  {
    SignatureItemIsLossless("signature");
    WellBehavedCons(SignatureItem("signature"), [], {});
    WellBehavedCons(UintItem("guardianIndex", 1, PlainUint), [SignatureItem("signature")] + [], {"signature"});
    assert GUARDIAN_SIGNATURE_LAYOUT == [UintItem("guardianIndex", 1, PlainUint)] + ([SignatureItem("signature")] + []);
  }

  const HEADER_NAMES := {"guardianSet", "signatures"}

  lemma HeaderIsWellBehaved()
    ensures WellBehaved(HEADER_LAYOUT, HEADER_NAMES)
  {
    GuardianSignatureLayout();
    WellBehavedCons(SIGNATURES_ITEM, [], {});
    var rest := [SIGNATURES_ITEM] + [];
    WellBehavedCons(GUARDIAN_SET_ITEM, rest, {"signatures"});
    WellBehavedCons(VERSION_ITEM, [GUARDIAN_SET_ITEM] + rest, HEADER_NAMES);
    assert HEADER_LAYOUT == [VERSION_ITEM] + ([GUARDIAN_SET_ITEM] + rest);
  }

  const ENVELOPE_NAMES := {"timestamp", "nonce", "emitterChain", "emitterAddress", "sequence", "consistencyLevel"}

  function EnvelopeTail(): Layout {
    [AddressItem("emitterAddress")] +
      ([UintItem("sequence", 8, PlainUint)] + ([UintItem("consistencyLevel", 1, PlainUint)] + []))
  }

  lemma EnvelopeTailIsWellBehaved()
    ensures WellBehaved(EnvelopeTail(), {"emitterAddress", "sequence", "consistencyLevel"})
  {
    var e, f := UintItem("sequence", 8, PlainUint), UintItem("consistencyLevel", 1, PlainUint);
    AddressItemIsLossless("emitterAddress");
    WellBehavedCons(f, [], {});
    WellBehavedCons(e, [f] + [], {"consistencyLevel"});
    WellBehavedCons(AddressItem("emitterAddress"), [e] + ([f] + []), {"sequence", "consistencyLevel"});
  }

  lemma EnvelopeAroundChain(chains: ChainMaps)
    requires WellBehavedItem(ChainItem("emitterChain", chains, NO_OPTIONS))
    ensures WellBehaved(EnvelopeLayout(chains), ENVELOPE_NAMES)
  {
    var a, b, c := UintItem("timestamp", 4, PlainUint), UintItem("nonce", 4, PlainUint), ChainItem("emitterChain", chains, NO_OPTIONS);
    var tail := EnvelopeTail();
    EnvelopeTailIsWellBehaved();
    WellBehavedCons(c, tail, {"emitterAddress", "sequence", "consistencyLevel"});
    WellBehavedCons(b, [c] + tail, {"emitterChain", "emitterAddress", "sequence", "consistencyLevel"});
    WellBehavedCons(a, [b] + ([c] + tail), {"nonce", "emitterChain", "emitterAddress", "sequence", "consistencyLevel"});
    assert EnvelopeLayout(chains) == [a] + ([b] + ([c] + tail));
  }

  lemma EnvelopeIsWellBehaved(chains: ChainMaps)
    requires chains.Valid()
    ensures WellBehaved(EnvelopeLayout(chains), ENVELOPE_NAMES)
  {
    ChainItemIsLossless("emitterChain", chains, NO_OPTIONS);
    EnvelopeAroundChain(chains);
  }

  /** What the user owes: the payload's conversions are lossless, its names distinct, its items delimited. */
  ghost predicate GoodPayload(description: Description) {
    match description
    case LayoutDescription(layout) => Lossless(layout) && DistinctNames(layout) && Delimited(layout)
    case ConversionDescription(conv) => BytesLossless(Some(conv))
  }

  lemma PayloadIsWellBehaved(description: Description)
    requires GoodPayload(description)
    ensures Names([PayloadItem(description)]) == {"payload"}
    ensures Lossless([PayloadItem(description)]) && DistinctNames([PayloadItem(description)])
    ensures Delimited([PayloadItem(description)])
  {
    assert [PayloadItem(description)][1..] == [];
  }

  lemma BodyIsWellBehaved(chains: ChainMaps, description: Description)
    requires chains.Valid() && GoodPayload(description)
    ensures Names(BodyLayout(chains, description)) == ENVELOPE_NAMES + {"payload"}
    ensures Lossless(BodyLayout(chains, description)) && DistinctNames(BodyLayout(chains, description))
    ensures Delimited(BodyLayout(chains, description))
  {
    var envelope, payload := EnvelopeLayout(chains), [PayloadItem(description)];
    EnvelopeIsWellBehaved(chains);
    PayloadIsWellBehaved(description);
    NamesOfConcat(envelope, payload);
    LosslessConcat(envelope, payload);
    DistinctConcat(envelope, payload);
    DelimitedConcat(envelope, payload);
  }

  lemma VaaIsWellBehaved(chains: ChainMaps, description: Description)
    requires chains.Valid() && GoodPayload(description)
    ensures Names(VaaLayout(chains, description)) == {"guardianSet", "signatures", "payload"} + ENVELOPE_NAMES
    ensures Lossless(VaaLayout(chains, description)) && DistinctNames(VaaLayout(chains, description))
  {
    var body := BodyLayout(chains, description);
    HeaderIsWellBehaved();
    BodyIsWellBehaved(chains, description);
    NamesOfConcat(HEADER_LAYOUT, body);
    LosslessConcat(HEADER_LAYOUT, body);
    DistinctConcat(HEADER_LAYOUT, body);
  }

  lemma BodyNames(chains: ChainMaps, description: Description)
    requires chains.Valid()
    ensures Names(BodyLayout(chains, description)) == ENVELOPE_NAMES + {"payload"}
  {
    EnvelopeIsWellBehaved(chains);
    assert [PayloadItem(description)][1..] == [];
    NamesOfConcat(EnvelopeLayout(chains), [PayloadItem(description)]);
  }

  /** The names of header, body and the two added fields are all different. */
  lemma NamesApart(chains: ChainMaps, description: Description)
    requires chains.Valid()
    ensures var body := BodyLayout(chains, description);
            && Names(HEADER_LAYOUT) !! Names(body)
            && Names(VaaLayout(chains, description)) == Names(HEADER_LAYOUT) + Names(body)
            && "payloadLiteral" !in Names(HEADER_LAYOUT) + Names(body) && "hash" !in Names(HEADER_LAYOUT) + Names(body)
            && "signatures" in Names(HEADER_LAYOUT)
    ensures "payloadLiteral" != "hash"
  {
    HeaderIsWellBehaved();
    BodyNames(chains, description);
    NamesOfConcat(HEADER_LAYOUT, BodyLayout(chains, description));
    SetsApart(Names(HEADER_LAYOUT), Names(BodyLayout(chains, description)));
  }

  lemma SetsApart(header: set<string>, body: set<string>)
    requires header == HEADER_NAMES && body == ENVELOPE_NAMES + {"payload"}
    ensures header !! body && "payloadLiteral" !in header + body && "hash" !in header + body && "signatures" in header
    ensures "payloadLiteral" != "hash"
  {
    assert "payloadLiteral"[0] != "emitterAddress"[0];
  }

  lemma PartsOfRecord(payloadLiteral: string, header: Fields, body: Fields, hash: bytes)
    requires header.Keys !! body.Keys
    requires "payloadLiteral" !in header.Keys + body.Keys && "hash" !in header.Keys + body.Keys
    ensures var vaa := VaaRecord(payloadLiteral, header, body, hash);
            && Restrict(vaa, header.Keys) == header && Restrict(vaa, body.Keys) == body
            && Restrict(vaa, header.Keys + body.Keys) == header + body
            && vaa["hash"] == BytesV(hash)
            && vaa["payloadLiteral"] == StringV(payloadLiteral)
            && ("signatures" in header ==> SignaturesOf(vaa) == SignaturesOf(header))
  {
    assert "payloadLiteral" != "hash";
    if "signatures" in header {
      assert Restrict(VaaRecord(payloadLiteral, header, body, hash), header.Keys) == header;
    }
  }

  lemma PartPrints(layout: Layout, vaa: Fields, part: Fields)
    requires Restrict(vaa, Names(layout)) == part && part.Keys == Names(layout)
    ensures LayoutBytes(layout, RecordV(vaa)) == LayoutBytes(layout, RecordV(part))
  {
    OnlyNames(part, layout);
    PrintsFromNames(layout, vaa, part);
  }

  // ---- decoding in two parts --------------------------------------------------------------

  /** The two parts of an accepted VAA. */
  lemma AcceptedParts(w: World, factory: Factory, payloadLiteral: string, data: bytes)
    returns (header: Parsed<Fields>, body: Fields)
    requires Deserialized(w, factory, payloadLiteral, data).Ok?
    ensures payloadLiteral in factory
    ensures ParseLayout(HEADER_LAYOUT, data, 0) == Ok(header) && header.offset <= |data|
    ensures Ascending(SignaturesOf(header.value))
    ensures ParseLayout(BodyLayout(w.chains, factory[payloadLiteral]), data, header.offset) == Ok(Parsed(body, |data|))
    ensures Deserialized(w, factory, payloadLiteral, data)
         == Ok(VaaRecord(payloadLiteral, header.value, body, w.keccak256(data[header.offset..])))
  {
    header := ParseLayout(HEADER_LAYOUT, data, 0).value;
    ParseReadsLowerBound(HEADER_LAYOUT, data, 0);
    body := ParseLayout(BodyLayout(w.chains, factory[payloadLiteral]), data, header.offset).value.value;
  }

  /** What of a VAA comes from its layout. */
  function LayoutFields(w: World, description: Description, vaa: Fields): Fields {
    Restrict(vaa, Names(VaaLayout(w.chains, description)))
  }

  /**
   * Decoding the header first and then the body accepts only data that the layout of the whole VAA
   * accepts, and finds the same fields.
   */
  lemma HeaderThenBody(w: World, factory: Factory, payloadLiteral: string, data: bytes)
    requires w.chains.Valid() && Deserialized(w, factory, payloadLiteral, data).Ok?
    ensures payloadLiteral in factory
    ensures var description, vaa := factory[payloadLiteral], Deserialized(w, factory, payloadLiteral, data).value;
            ParseLayout(VaaLayout(w.chains, description), data, 0) == Ok(Parsed(LayoutFields(w, description, vaa), |data|))
  {
    var header, body := AcceptedParts(w, factory, payloadLiteral, data);
    var description := factory[payloadLiteral];
    ParseOfConcat(HEADER_LAYOUT, BodyLayout(w.chains, description), data, 0);
    DecodedNames(HEADER_LAYOUT, data, 0);
    DecodedNames(BodyLayout(w.chains, description), data, header.offset);
    NamesApart(w.chains, description);
    PartsOfRecord(payloadLiteral, header.value, body, w.keccak256(data[header.offset..]));
  }

  /** Conversely, of the data that the whole layout accepts, just that with ascending indices is accepted. */
  lemma WholeThenAccepted(w: World, factory: Factory, payloadLiteral: string, data: bytes)
    requires w.chains.Valid() && payloadLiteral in factory
    requires ParseAll(VaaLayout(w.chains, factory[payloadLiteral]), data, 0).Ok?
    ensures Deserialized(w, factory, payloadLiteral, data).Ok? <==>
              Ascending(SignaturesOf(ParseAll(VaaLayout(w.chains, factory[payloadLiteral]), data, 0).value.fields))
  {
    var body := BodyLayout(w.chains, factory[payloadLiteral]);
    ParseOfConcat(HEADER_LAYOUT, body, data, 0);
    var h := ParseLayout(HEADER_LAYOUT, data, 0).value;
    var b := ParseLayout(body, data, h.offset).value;
    DecodedNames(HEADER_LAYOUT, data, 0);
    DecodedNames(body, data, h.offset);
    NamesApart(w.chains, factory[payloadLiteral]);
    assert SignaturesOf(h.value + b.value) == SignaturesOf(h.value);
  }

  /** An accepted VAA serializes to the very bytes it was read from. */
  lemma AcceptedReserializes(w: World, factory: Factory, payloadLiteral: string, data: bytes)
    requires w.chains.Valid() && payloadLiteral in factory && GoodPayload(factory[payloadLiteral])
    requires Deserialized(w, factory, payloadLiteral, data).Ok?
    ensures Serialized(w, factory, Deserialized(w, factory, payloadLiteral, data).value) == Ok(data)
  {
    var description, vaa := factory[payloadLiteral], Deserialized(w, factory, payloadLiteral, data).value;
    LiteralOfAccepted(w, factory, payloadLiteral, data);
    HeaderThenBody(w, factory, payloadLiteral, data);
    VaaIsWellBehaved(w.chains, description);
    FieldsReprint(VaaLayout(w.chains, description), data, 0, vaa);
    assert data[0..|data|] == data;
  }

  lemma LiteralOfAccepted(w: World, factory: Factory, payloadLiteral: string, data: bytes)
    requires w.chains.Valid() && Deserialized(w, factory, payloadLiteral, data).Ok?
    ensures payloadLiteral in factory
    ensures DescriptionOf(factory, Deserialized(w, factory, payloadLiteral, data).value) == Ok(factory[payloadLiteral])
  {
    var header, body := AcceptedParts(w, factory, payloadLiteral, data);
    var description := factory[payloadLiteral];
    DecodedNames(HEADER_LAYOUT, data, 0);
    DecodedNames(BodyLayout(w.chains, description), data, header.offset);
    NamesApart(w.chains, description);
    var hash := w.keccak256(data[header.offset..]);
    PartsOfRecord(payloadLiteral, header.value, body, hash);
    DescriptionFromLiteral(factory, payloadLiteral, VaaRecord(payloadLiteral, header.value, body, hash));
  }

  lemma DescriptionFromLiteral(factory: Factory, payloadLiteral: string, vaa: Fields)
    requires payloadLiteral in factory && "payloadLiteral" in vaa && vaa["payloadLiteral"] == StringV(payloadLiteral)
    ensures DescriptionOf(factory, vaa) == Ok(factory[payloadLiteral])
  {
  }

  /** Hence no two byte strings are accepted as the same VAA. */
  lemma AcceptedIsInjective(w: World, factory: Factory, payloadLiteral: string, a: bytes, b: bytes)
    requires w.chains.Valid() && payloadLiteral in factory && GoodPayload(factory[payloadLiteral])
    requires Deserialized(w, factory, payloadLiteral, a).Ok?
    requires Deserialized(w, factory, payloadLiteral, a) == Deserialized(w, factory, payloadLiteral, b)
    ensures a == b
  {
    AcceptedReserializes(w, factory, payloadLiteral, a);
    AcceptedReserializes(w, factory, payloadLiteral, b);
  }

  // ---- guardian indices -------------------------------------------------------------------

  predicate IndexInRange(signature: Value) {
    0 <= GuardianIndex(signature) < 256
  }

  lemma ByteIsInRange(data: bytes, offset: nat)
    requires offset < |data|
    ensures 0 <= Number(data[offset..offset + 1]) < 256
  {
    assert Pow256(1) == 256 * Pow256(0);
  }

  lemma ParsedIndex(data: bytes, offset: nat)
    requires ParseLayout(GUARDIAN_SIGNATURE_LAYOUT, data, offset).Ok?
    ensures IndexInRange(RecordV(ParseLayout(GUARDIAN_SIGNATURE_LAYOUT, data, offset).value.value))
  {
    var item := UintItem("guardianIndex", 1, PlainUint);
    FirstItem(item, [SignatureItem("signature")], data, offset);
    assert GUARDIAN_SIGNATURE_LAYOUT == [item] + [SignatureItem("signature")];
    assert "guardianIndex" != "signature";
    ByteIsInRange(data, offset);
  }

  /** The first item of a layout with a name of its own is what that name stands for. */
  lemma FirstItem(item: Item, rest: Layout, data: bytes, offset: nat)
    requires ParseLayout([item] + rest, data, offset).Ok? && !item.Omitted() && item.name !in Names(rest)
    ensures var v := ParseItem(item, data, offset);
            var fields := ParseLayout([item] + rest, data, offset).value.value;
            v.Ok? && item.name in fields && fields[item.name] == v.value.value
  {
    assert ([item] + rest)[1..] == rest;
    DecodedNames(rest, data, ParseItem(item, data, offset).value.offset);
  }

  /** Every element of a parsed array has been parsed at some offset. */
  lemma {:induction false} ParsedElem(layout: Layout, data: bytes, offset: nat, count: nat, k: nat) returns (at: nat)
    requires ParseElems(layout, data, offset, count).Ok? && k < |ParseElems(layout, data, offset, count).value.value|
    ensures ParseLayout(layout, data, at).Ok?
    ensures ParseElems(layout, data, offset, count).value.value[k] == RecordV(ParseLayout(layout, data, at).value.value)
    decreases count
  {
    at := offset;
    if k > 0 {
      at := ParsedElem(layout, data, ParseLayout(layout, data, offset).value.offset, count - 1, k - 1);
    }
  }

  /** The last item of a layout with a name of its own is what that name stands for. */
  lemma LastItem(front: Layout, item: Item, data: bytes)
    requires ParseLayout(front + [item], data, 0).Ok? && !item.Omitted()
    ensures ParseLayout(front, data, 0).Ok?
    ensures var v := ParseItem(item, data, ParseLayout(front, data, 0).value.offset);
            var fields := ParseLayout(front + [item], data, 0).value.value;
            v.Ok? && item.name in fields && fields[item.name] == v.value.value
  {
    ParseOfConcat(front, [item], data, 0);
    var offset := ParseLayout(front, data, 0).value.offset;
    assert [item][1..] == [];
    assert item.name in ParseLayout([item], data, offset).value.value;
  }

  lemma HeaderSignatures(data: bytes)
    requires ParseLayout(HEADER_LAYOUT, data, 0).Ok?
    ensures forall e <- SignaturesOf(ParseLayout(HEADER_LAYOUT, data, 0).value.value) :: IndexInRange(e)
  {
    var front: Layout := [VERSION_ITEM, GUARDIAN_SET_ITEM];
    assert HEADER_LAYOUT == front + [SIGNATURES_ITEM];
    LastItem(front, SIGNATURES_ITEM, data);
    SignaturesInRange(data, ParseLayout(front, data, 0).value.offset);
  }

  lemma SignaturesInRange(data: bytes, offset: nat)
    requires ParseItem(SIGNATURES_ITEM, data, offset).Ok?
    ensures ParseItem(SIGNATURES_ITEM, data, offset).value.value.ListV?
    ensures forall e <- ParseItem(SIGNATURES_ITEM, data, offset).value.value.elems :: IndexInRange(e)
  {
    var length := ParseUint(data, offset, 1).value;
    var elems := ParseElems(GUARDIAN_SIGNATURE_LAYOUT, data, length.offset, length.value).value.value;
    forall k | 0 <= k < |elems|
      ensures IndexInRange(elems[k])
    {
      var at := ParsedElem(GUARDIAN_SIGNATURE_LAYOUT, data, length.offset, length.value, k);
      ParsedIndex(data, at);
    }
  }

  lemma {:induction false} AscendsThroughout(signatures: seq<Value>, i: nat, j: nat)
    requires Ascending(signatures) && i < j < |signatures|
    ensures GuardianIndex(signatures[i]) < GuardianIndex(signatures[j])
  {
    if i + 1 < j {
      AscendsThroughout(signatures, i, j - 1);
    }
  }

  /** The guardian indices of an accepted VAA are bytes, pairwise distinct and sorted. */
  lemma AcceptedIndicesAscend(w: World, factory: Factory, payloadLiteral: string, data: bytes)
    requires w.chains.Valid() && Deserialized(w, factory, payloadLiteral, data).Ok?
    ensures var signatures := SignaturesOf(Deserialized(w, factory, payloadLiteral, data).value);
            && (forall i, j | 0 <= i < j < |signatures| :: GuardianIndex(signatures[i]) < GuardianIndex(signatures[j]))
            && forall e <- signatures :: IndexInRange(e)
  {
    var signatures := SignaturesOf(Deserialized(w, factory, payloadLiteral, data).value);
    SignaturesOfAccepted(w, factory, payloadLiteral, data);
    HeaderSignatures(data);
    forall i, j | 0 <= i < j < |signatures|
      ensures GuardianIndex(signatures[i]) < GuardianIndex(signatures[j])
    {
      AscendsThroughout(signatures, i, j);
    }
  }

  lemma SignaturesOfAccepted(w: World, factory: Factory, payloadLiteral: string, data: bytes)
    requires w.chains.Valid() && Deserialized(w, factory, payloadLiteral, data).Ok?
    ensures var signatures := SignaturesOf(Deserialized(w, factory, payloadLiteral, data).value);
            Ascending(signatures) && signatures == SignaturesOf(ParseLayout(HEADER_LAYOUT, data, 0).value.value)
  {
    var header, body := AcceptedParts(w, factory, payloadLiteral, data);
    DecodedNames(HEADER_LAYOUT, data, 0);
    DecodedNames(BodyLayout(w.chains, factory[payloadLiteral]), data, header.offset);
    NamesApart(w.chains, factory[payloadLiteral]);
    PartsOfRecord(payloadLiteral, header.value, body, w.keccak256(data[header.offset..]));
  }

  // ---- the round trip ---------------------------------------------------------------------

  predicate IsNumber(v: Value) {
    v.UintV? && v.u.Num?
  }

  predicate IsGuardianSignature(v: Value) {
    && v.RecordV? && v.fields.Keys == {"guardianIndex", "signature"}
    && IsNumber(v.fields["guardianIndex"]) && IsSignature(v.fields["signature"])
  }

  /** The fields of a VAA have the types that TypeScript derives for them; the payload is the user's. */
  predicate TypedHeader(vaa: Fields) {
    && HEADER_NAMES <= vaa.Keys
    && IsNumber(vaa["guardianSet"])
    && vaa["signatures"].ListV? && forall e <- vaa["signatures"].elems :: IsGuardianSignature(e)
  }

  predicate TypedBody(description: Description, vaa: Fields) {
    && ENVELOPE_NAMES <= vaa.Keys && "payload" in vaa
    && IsNumber(vaa["timestamp"]) && IsNumber(vaa["nonce"]) && IsNumber(vaa["consistencyLevel"])
    && IsString(vaa["emitterChain"])
    && vaa["sequence"].UintV? && vaa["sequence"].u.Big?
    && ItemConforms(PayloadItem(description), vaa["payload"])
  }

  lemma CarriesCons(item: Item, rest: Layout, fields: Fields)
    requires Carries(rest, fields)
    requires !item.Omitted() ==> item.name in fields && ItemConforms(item, fields[item.name])
    ensures Carries([item] + rest, fields)
  {
    assert ([item] + rest)[1..] == rest;
  }

  lemma GuardianSignatureConforms(e: Value)
    requires IsGuardianSignature(e)
    ensures Conforms(GUARDIAN_SIGNATURE_LAYOUT, e)
  {
    GuardianSignatureLayout();
    SignatureItemIsLossless("signature");
    var index := UintItem("guardianIndex", 1, PlainUint);
    CarriesCons(SignatureItem("signature"), [], e.fields);
    CarriesCons(index, [SignatureItem("signature")] + [], e.fields);
    assert GUARDIAN_SIGNATURE_LAYOUT == [index] + ([SignatureItem("signature")] + []);
  }

  lemma HeaderCarries(vaa: Fields)
    requires TypedHeader(vaa)
    ensures Carries(HEADER_LAYOUT, vaa)
  {
    forall e | e in vaa["signatures"].elems
      ensures e.RecordV? && e.fields.Keys == Names(GUARDIAN_SIGNATURE_LAYOUT) && Carries(GUARDIAN_SIGNATURE_LAYOUT, e.fields)
    {
      GuardianSignatureConforms(e);
    }
    var rest := [SIGNATURES_ITEM] + [];
    CarriesCons(SIGNATURES_ITEM, [], vaa);
    CarriesCons(GUARDIAN_SET_ITEM, rest, vaa);
    CarriesCons(VERSION_ITEM, [GUARDIAN_SET_ITEM] + rest, vaa);
    assert HEADER_LAYOUT == [VERSION_ITEM] + ([GUARDIAN_SET_ITEM] + rest);
  }

  lemma EnvelopeTailCarries(vaa: Fields)
    requires ENVELOPE_NAMES <= vaa.Keys && IsNumber(vaa["consistencyLevel"])
    requires vaa["sequence"].UintV? && vaa["sequence"].u.Big?
    ensures Carries(EnvelopeTail(), vaa)
  {
    var e, f := UintItem("sequence", 8, PlainUint), UintItem("consistencyLevel", 1, PlainUint);
    AddressItemIsLossless("emitterAddress");
    CarriesCons(f, [], vaa);
    CarriesCons(e, [f] + [], vaa);
    CarriesCons(AddressItem("emitterAddress"), [e] + ([f] + []), vaa);
  }

  lemma EnvelopeCarries(chains: ChainMaps, vaa: Fields)
    requires ENVELOPE_NAMES <= vaa.Keys && Carries(EnvelopeTail(), vaa)
    requires IsNumber(vaa["timestamp"]) && IsNumber(vaa["nonce"])
    requires ItemConforms(ChainItem("emitterChain", chains, NO_OPTIONS), vaa["emitterChain"])
    ensures Carries(EnvelopeLayout(chains), vaa)
  {
    var a, b, c := UintItem("timestamp", 4, PlainUint), UintItem("nonce", 4, PlainUint), ChainItem("emitterChain", chains, NO_OPTIONS);
    var tail := EnvelopeTail();
    CarriesCons(c, tail, vaa);
    CarriesCons(b, [c] + tail, vaa);
    CarriesCons(a, [b] + ([c] + tail), vaa);
    assert EnvelopeLayout(chains) == [a] + ([b] + ([c] + tail));
  }

  lemma BodyCarries(chains: ChainMaps, description: Description, vaa: Fields)
    requires chains.Valid() && TypedBody(description, vaa)
    ensures Carries(BodyLayout(chains, description), vaa)
  {
    ChainItemIsLossless("emitterChain", chains, NO_OPTIONS);
    EnvelopeTailCarries(vaa);
    EnvelopeCarries(chains, vaa);
    var payload := [PayloadItem(description)];
    CarriesCons(PayloadItem(description), [], vaa);
    assert payload == payload + [];
    CarriesConcat(EnvelopeLayout(chains), payload, vaa);
  }

  /** The two parts of a created VAA. */
  lemma CreatedParts(w: World, factory: Factory, payloadLiteral: string, vaaData: Value)
    returns (header: Fields, body: Fields, bs: bytes)
    requires Created(w, factory, payloadLiteral, vaaData).Ok?
    ensures payloadLiteral in factory
    ensures header.Keys == Names(HEADER_LAYOUT) && body.Keys == Names(BodyLayout(w.chains, factory[payloadLiteral]))
    ensures LayoutBytes(BodyLayout(w.chains, factory[payloadLiteral]), RecordV(body)) == Ok(bs)
    ensures Created(w, factory, payloadLiteral, vaaData).value == VaaRecord(payloadLiteral, header, body, w.keccak256(bs))
  {
    var layout := BodyLayout(w.chains, factory[payloadLiteral]);
    header, body := Filled(HEADER_LAYOUT, vaaData).value, Filled(layout, vaaData).value;
    bs := LayoutBytes(layout, RecordV(body)).value;
    FilledNames(HEADER_LAYOUT, vaaData);
    FilledNames(layout, vaaData);
  }

  /** A VAA put together from a header and a body has them as its parts. */
  lemma AssembledParts(chains: ChainMaps, factory: Factory, payloadLiteral: string, header: Fields, body: Fields, hash: bytes)
    requires chains.Valid() && payloadLiteral in factory
    requires header.Keys == Names(HEADER_LAYOUT) && body.Keys == Names(BodyLayout(chains, factory[payloadLiteral]))
    ensures var layout, vaa := BodyLayout(chains, factory[payloadLiteral]), VaaRecord(payloadLiteral, header, body, hash);
            && Restrict(vaa, Names(HEADER_LAYOUT)) == header && Restrict(vaa, Names(layout)) == body
            && LayoutBytes(layout, RecordV(vaa)) == LayoutBytes(layout, RecordV(body))
            && DescriptionOf(factory, vaa) == Ok(factory[payloadLiteral])
            && SignaturesOf(vaa) == SignaturesOf(header)
  {
    var layout, vaa := BodyLayout(chains, factory[payloadLiteral]), VaaRecord(payloadLiteral, header, body, hash);
    NamesApart(chains, factory[payloadLiteral]);
    PartsOfRecord(payloadLiteral, header, body, hash);
    PartPrints(layout, vaa, body);
  }

  /** Both parts can be decoded from what `vaa` is serialized to. */
  predicate Ready(header: Layout, body: Layout, vaa: Fields) {
    Delimited(header) && !LayoutOpenEnded(header) && Carries(header, vaa) && Delimited(body) && Carries(body, vaa)
  }

  lemma TypedIsReady(chains: ChainMaps, description: Description, vaa: Fields)
    requires chains.Valid() && GoodPayload(description) && TypedHeader(vaa) && TypedBody(description, vaa)
    ensures Ready(HEADER_LAYOUT, BodyLayout(chains, description), vaa)
  {
    HeaderIsWellBehaved();
    HeaderCarries(vaa);
    BodyIsWellBehaved(chains, description);
    BodyCarries(chains, description, vaa);
  }

  /** A record of two parts comes back from its serialization, with the hash of the second part. */
  lemma PartsComeBack(header: Layout, body: Layout, keccak256: bytes -> bytes, payloadLiteral: string,
                      vaa: Fields, h: bytes, b: bytes)
    requires Ready(header, body, vaa)
    requires LayoutBytes(header, RecordV(vaa)) == Ok(h) && LayoutBytes(body, RecordV(vaa)) == Ok(b)
    requires Ascending(SignaturesOf(Restrict(vaa, Names(header))))
    requires vaa == VaaRecord(payloadLiteral, Restrict(vaa, Names(header)), Restrict(vaa, Names(body)), keccak256(b))
    ensures PartsDeserialized(header, Ok(body), keccak256, payloadLiteral, h + b) == Ok(vaa)
  {
    PrefixAt(h, b);
    SuffixAt(h, b);
    PartsDecode(header, body, keccak256, payloadLiteral, vaa, h, b, h + b);
  }

  lemma PartsDecode(header: Layout, body: Layout, keccak256: bytes -> bytes, payloadLiteral: string,
                    vaa: Fields, h: bytes, b: bytes, data: bytes)
    requires Ready(header, body, vaa)
    requires LayoutBytes(header, RecordV(vaa)) == Ok(h) && LayoutBytes(body, RecordV(vaa)) == Ok(b)
    requires At(h, data, 0, false) && At(b, data, |h|, true)
    requires Ascending(SignaturesOf(Restrict(vaa, Names(header))))
    ensures PartsDeserialized(header, Ok(body), keccak256, payloadLiteral, data)
         == Ok(VaaRecord(payloadLiteral, Restrict(vaa, Names(header)), Restrict(vaa, Names(body)), keccak256(b)))
  {
    DelimitedDecodes(header, vaa, h, data, 0);
    LastDecodes(body, vaa, b, data, |h|);
    assert data[|h|..] == b;
    PartsAssembled(header, body, keccak256, payloadLiteral, data, 0 + |h|, |h| + |b|,
                   Restrict(vaa, Names(header)), Restrict(vaa, Names(body)));
  }

  lemma PartsAssembled(header: Layout, body: Layout, keccak256: bytes -> bytes, payloadLiteral: string, data: bytes, n: nat, end: nat,
                       headerFields: Fields, bodyFields: Fields)
    requires n <= |data| == end && ParseLayout(header, data, 0) == Ok(Parsed(headerFields, n))
    requires Ascending(SignaturesOf(headerFields)) && ParseLayout(body, data, n) == Ok(Parsed(bodyFields, end))
    ensures PartsDeserialized(header, Ok(body), keccak256, payloadLiteral, data)
         == Ok(VaaRecord(payloadLiteral, headerFields, bodyFields, keccak256(data[n..])))
  {
  }

  /** Deserializing what was serialized gives back the VAA that was created, its hash included. */
  lemma DeserializeUndoesSerialize(w: World, factory: Factory, payloadLiteral: string, vaaData: Value)
    requires w.chains.Valid() && payloadLiteral in factory && GoodPayload(factory[payloadLiteral])
    requires Created(w, factory, payloadLiteral, vaaData).Ok?
    requires var vaa := Created(w, factory, payloadLiteral, vaaData).value;
             && TypedHeader(vaa) && TypedBody(factory[payloadLiteral], vaa) && Ascending(SignaturesOf(vaa))
             && Serialized(w, factory, vaa).Ok?
    ensures var vaa := Created(w, factory, payloadLiteral, vaaData).value;
            Deserialized(w, factory, payloadLiteral, Serialized(w, factory, vaa).value) == Ok(vaa)
  {
    var vaa := Created(w, factory, payloadLiteral, vaaData).value;
    var layout := BodyLayout(w.chains, factory[payloadLiteral]);
    var header, body, b := CreatedParts(w, factory, payloadLiteral, vaaData);
    AssembledParts(w.chains, factory, payloadLiteral, header, body, w.keccak256(b));
    BytesOfConcat(HEADER_LAYOUT, layout, RecordV(vaa));
    TypedIsReady(w.chains, factory[payloadLiteral], vaa);
    PartsComeBack(HEADER_LAYOUT, layout, w.keccak256, payloadLiteral, vaa, LayoutBytes(HEADER_LAYOUT, RecordV(vaa)).value, b);
  }
}
