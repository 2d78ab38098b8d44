/**
 * The E1.31 data packet (class `Packet` in src/packet.ts): 638 bytes with
 * every field at a fixed offset, built either from a received buffer,
 * whose protocol fields are checked, or from caller options.
 */
module DataPackets {
  import opened Bytes
  import opened Constants
  import opened PacketLayout

  const DMP_TYPE: nat := 0xa1
  const FIRST_ADDRESS: nat := 0
  const ADDRESS_INCREMENT: nat := 1
  const START_CODE: nat := 0

  /** The flags/length words the options constructor writes. */
  const ROOT_FL: nat := 0x726e
  const FRAME_FL: nat := 0x7258
  const DMP_FL: nat := 0x720b

  /** 1 + 512: every slot is sent, so an unset channel is a deliberate 0. */
  const PROPERTY_VALUE_COUNT: nat := 0x0201
  const DEFAULT_PRIORITY: nat := 100

  const CHANNELS: nat := 512
  /** Offset of the start code; channel ch is at START_CODE_OFFSET + ch. */
  const START_CODE_OFFSET: nat := 125
  const PACKET_LENGTH: nat := 638

  datatype DataPacket = DataPacket(
    rootFl: nat,
    cid: Cid,
    frameFl: nat,
    options: nat,
    sequence: nat,
    sourceName: seq<Byte>,
    priority: nat,
    syncUniverse: nat,
    universe: nat,
    dmpFl: nat,
    propertyValueCount: nat,
    payload: PayloadData,
    sourceAddress: Option<string>)

  /** The `Options` interface: universe, payload and sequence are required. */
  datatype Options = Options(
    universe: nat,
    payload: Payload,
    sequence: nat,
    sourceName: Option<seq<Byte>>,
    priority: Option<nat>,
    cid: Option<Cid>)

  /** The fixed field that check c of the data-packet constructor compares. */
  predicate DataHolds(buf: seq<Byte>, c: Check)
  {
    match c
    case RootVector => RootCheckHolds(buf, c, ROOT_VECTOR_DATA)
    case AcnPid => RootCheckHolds(buf, c, ROOT_VECTOR_DATA)
    case Preamble => RootCheckHolds(buf, c, ROOT_VECTOR_DATA)
    case Postamble => RootCheckHolds(buf, c, ROOT_VECTOR_DATA)
    case FrameVector => |buf| >= 44 && Field(buf, 40, 4) == FRAME_VECTOR_DATA
    case DmpVector => |buf| >= 118 && buf[117] == DMP_VECTOR_DATA
    case DmpType => |buf| >= 119 && buf[118] == DMP_TYPE
    case FirstAddress => |buf| >= 121 && Field(buf, 119, 2) == FIRST_ADDRESS
    case AddressIncrement => |buf| >= 123 && Field(buf, 121, 2) == ADDRESS_INCREMENT
    case StartCode => |buf| >= 126 && buf[125] == START_CODE
    case DiscoveryVector => false
  }

  /** A buffer the data-packet constructor accepts: long enough, every check holds. */
  predicate IsDataPacket(buf: seq<Byte>)
  {
    && |buf| >= START_CODE_OFFSET + 1
    && RootLayerHolds(buf, ROOT_VECTOR_DATA)
    && DataHolds(buf, FrameVector)
    && DataHolds(buf, DmpVector)
    && DataHolds(buf, DmpType)
    && DataHolds(buf, FirstAddress)
    && DataHolds(buf, AddressIncrement)
    && DataHolds(buf, StartCode)
  }

  /**
   * The first failure of the framing-layer reads: the frame vector (a
   * 32-bit read at 40), then the reads of the options byte at 112 and of
   * the universe at 113..114, the furthest ones.
   */
  function FrameLayerError(buf: seq<Byte>): (e: Option<ParseError>)
    ensures e.None? <==> DataHolds(buf, FrameVector) && |buf| >= 115
    ensures e.Some? && e.value.Corrupt? ==> e.value.check == FrameVector && !DataHolds(buf, FrameVector)
    ensures e.Some? && e.value.OutOfRange? ==> |buf| < 115 && e.value.offset in {40, 112, 113}
    ensures |buf| < 44 ==> e == Some(OutOfRange(40))
    ensures |buf| >= 44 && !DataHolds(buf, FrameVector) ==> e == Some(Corrupt(FrameVector))
    ensures e == Some(OutOfRange(112)) ==> 44 <= |buf| <= 112
    ensures e == Some(OutOfRange(113)) ==> 113 <= |buf| <= 114
  {
    if |buf| < 44 then Some(OutOfRange(40))
    else if Field(buf, 40, 4) != FRAME_VECTOR_DATA then Some(Corrupt(FrameVector))
    else if |buf| < 113 then Some(OutOfRange(112))
    else if |buf| < 115 then Some(OutOfRange(113))
    else None
  }

  /** The first failure of the DMP-layer checks, in the order of the source. */
  function DmpLayerError(buf: seq<Byte>): (e: Option<ParseError>)
    requires |buf| >= 115
    ensures e.None? <==>
      |buf| >= START_CODE_OFFSET + 1 && DataHolds(buf, DmpVector) && DataHolds(buf, DmpType)
      && DataHolds(buf, FirstAddress) && DataHolds(buf, AddressIncrement) && DataHolds(buf, StartCode)
    ensures e.Some? && e.value.Corrupt? ==>
      e.value.check in {DmpVector, DmpType, FirstAddress, AddressIncrement, StartCode}
      && !DataHolds(buf, e.value.check)
    ensures e.Some? && e.value.OutOfRange? ==> |buf| < e.value.offset + 4 && e.value.offset <= START_CODE_OFFSET
    ensures |buf| < 118 ==> e == Some(OutOfRange(117))
    ensures e.Some? && e.value.OutOfRange? ==>
      && e.value.offset in {117, 118, 119, 121, 123, 125}
      && (e.value.offset == 117 || e.value.offset <= |buf|) && |buf| <= e.value.offset + 1
    ensures e.Some? && ((e.value.Corrupt? && e.value.check != DmpVector) || (e.value.OutOfRange? && e.value.offset > 117)) ==>
      DataHolds(buf, DmpVector)
    ensures e.Some? && ((e.value.Corrupt? && e.value.check !in {DmpVector, DmpType}) || (e.value.OutOfRange? && e.value.offset > 118)) ==>
      DataHolds(buf, DmpType)
    ensures e.Some? && ((e.value.Corrupt? && e.value.check in {AddressIncrement, StartCode}) || (e.value.OutOfRange? && e.value.offset > 119)) ==>
      DataHolds(buf, FirstAddress)
    ensures e.Some? && ((e.value.Corrupt? && e.value.check == StartCode) || (e.value.OutOfRange? && e.value.offset > 121)) ==>
      DataHolds(buf, AddressIncrement)
  {
    if |buf| < 118 then Some(OutOfRange(117))
    else if buf[117] != DMP_VECTOR_DATA then Some(Corrupt(DmpVector))
    else if |buf| < 119 then Some(OutOfRange(118))
    else if buf[118] != DMP_TYPE then Some(Corrupt(DmpType))
    else if |buf| < 121 then Some(OutOfRange(119))
    else if Field(buf, 119, 2) != FIRST_ADDRESS then Some(Corrupt(FirstAddress))
    else if |buf| < 123 then Some(OutOfRange(121))
    else if Field(buf, 121, 2) != ADDRESS_INCREMENT then Some(Corrupt(AddressIncrement))
    else if |buf| < 125 then Some(OutOfRange(123))
    else if |buf| < 126 then Some(OutOfRange(125))
    else if buf[125] != START_CODE then Some(Corrupt(StartCode))
    else None
  }

  /**
   * The buffer constructor: the root, framing and DMP checks in the order
   * of the source; a read past the end fails with the offset it was made at.
   * On success every field is read from its fixed offset.
   */
  function ParseData(buf: seq<Byte>, sourceAddress: Option<string>): (r: Result<DataPacket, ParseError>)
    ensures r.Success? <==> IsDataPacket(buf)
    ensures r.Success? ==>
      && r.value.rootFl == Field(buf, 16, 2)
      && r.value.cid == buf[22..38]
      && r.value.frameFl == Field(buf, 38, 2)
      && r.value.sourceName == AsciiName(buf[44..107])
      && r.value.priority == buf[108]
      && r.value.syncUniverse == Field(buf, 109, 2)
      && r.value.sequence == buf[111]
      && r.value.options == buf[112]
      && r.value.universe == Field(buf, 113, 2)
      && r.value.dmpFl == Field(buf, 115, 2)
      && r.value.propertyValueCount == Field(buf, 123, 2)
      && r.value.payload == Raw(buf[126..])
      && r.value.sourceAddress == sourceAddress
    ensures r.Failure? && r.error.Corrupt? ==> !DataHolds(buf, r.error.check)
    ensures r.Failure? && r.error.OutOfRange? ==> |buf| <= START_CODE_OFFSET && r.error.offset <= START_CODE_OFFSET
  {
    var rootError := RootLayerError(buf, ROOT_VECTOR_DATA);
    if rootError.Some? then Failure(rootError.value)
    else
      var frameError := FrameLayerError(buf);
      if frameError.Some? then Failure(frameError.value)
      else
        var dmpError := DmpLayerError(buf);
        if dmpError.Some? then Failure(dmpError.value)
        else
          Success(DataPacket(
            rootFl := Field(buf, 16, 2),
            cid := buf[22..38],
            frameFl := Field(buf, 38, 2),
            options := buf[112],
            sequence := buf[111],
            sourceName := AsciiName(buf[44..107]),
            priority := buf[108],
            syncUniverse := Field(buf, 109, 2),
            universe := Field(buf, 113, 2),
            dmpFl := Field(buf, 115, 2),
            propertyValueCount := Field(buf, 123, 2),
            payload := Raw(buf[126..]),
            sourceAddress := sourceAddress))
  }

  /** `options.priority || 100`: an unset priority and priority 0 both become 100. */
  function PriorityOrDefault(priority: Option<nat>): (r: nat)
    ensures r != 0
    ensures priority.Some? && priority.value != 0 ==> r == priority.value
    ensures !(priority.Some? && priority.value != 0) ==> r == DEFAULT_PRIORITY
  {
    if priority.Some? && priority.value != 0 then priority.value else DEFAULT_PRIORITY
  }

  /** The options constructor: constants, defaults and the fixed property value count. */
  function ConstructData(o: Options, sourceAddress: Option<string>): (p: DataPacket)
    ensures p.priority == DEFAULT_PRIORITY <==> o.priority in {None, Some(0), Some(DEFAULT_PRIORITY)}
    ensures p.sourceName == DEFAULT_SOURCE_NAME <==> o.sourceName in {None, Some([]), Some(DEFAULT_SOURCE_NAME)}
    ensures p.cid == (if o.cid.Some? then o.cid.value else DEFAULT_CID)
    ensures p.syncUniverse == 0 && p.options == 0
    ensures p.propertyValueCount == 1 + CHANNELS
    ensures p.payload == Sparse(o.payload)
    ensures p.priority == PriorityOrDefault(o.priority)
    ensures p.sourceName == NameOrDefault(o.sourceName)
    ensures p.sequence == o.sequence && p.universe == o.universe
    ensures p.rootFl == ROOT_FL && p.frameFl == FRAME_FL && p.dmpFl == DMP_FL
    ensures p.sourceAddress == sourceAddress
  {
    DataPacket(
      rootFl := ROOT_FL,
      cid := o.cid.GetOr(DEFAULT_CID),
      frameFl := FRAME_FL,
      options := 0,
      sequence := o.sequence,
      sourceName := NameOrDefault(o.sourceName),
      priority := PriorityOrDefault(o.priority),
      syncUniverse := 0,
      universe := o.universe,
      dmpFl := DMP_FL,
      propertyValueCount := PROPERTY_VALUE_COUNT,
      payload := Sparse(o.payload),
      sourceAddress := sourceAddress)
  }

  /**
   * The `payload` getter: the raw slice is handed to `objectify` (in
   * src/util.ts, not part of this model, hence a parameter); a mapping
   * given to the options constructor is returned as it is.
   */
  function PayloadOf(p: DataPacket, objectify: seq<Byte> -> Payload): (r: Payload)
    ensures p.payload.Raw? ==> r == objectify(p.payload.bytes)
    ensures p.payload.Sparse? ==> r == p.payload.values
  {
    match p.payload
    case Raw(bytes) => objectify(bytes)
    case Sparse(values) => values
  }

  /** `payloadAsBuffer`: the raw payload of a parsed packet, nothing for a built one. */
  function PayloadAsBuffer(p: DataPacket): (r: Option<seq<Byte>>)
    ensures r.Some? <==> p.payload.Raw?
    ensures r.Some? ==> r.value == p.payload.bytes
  {
    match p.payload
    case Raw(bytes) => Some(bytes)
    case Sparse(_) => None
  }

  /** Framing layer, bytes 38..114 when the name fits its 64-byte field. */
  function DataFrameLayer(p: DataPacket): (r: seq<Byte>)
    ensures |r| == 13 + |NameField(p.sourceName)|
  {
    Bit(16, p.frameFl) + Bit(32, FRAME_VECTOR_DATA) + NameField(p.sourceName)
      + Bit(8, p.priority) + Bit(16, p.syncUniverse) + Bit(8, p.sequence)
      + Bit(8, p.options) + Bit(16, p.universe)
  }

  /** DMP layer, bytes 115..125 when the name fits its 64-byte field. */
  function DmpLayer(p: DataPacket): (r: seq<Byte>)
    ensures |r| == 11
  {
    Bit(16, p.dmpFl) + Bit(8, DMP_VECTOR_DATA) + Bit(8, DMP_TYPE)
      + Bit(16, FIRST_ADDRESS) + Bit(16, ADDRESS_INCREMENT)
      + Bit(16, p.propertyValueCount) + Bit(8, START_CODE)
  }

  /** The concatenated header that precedes the 512 zeroed channel bytes. */
  function DataHeader(p: DataPacket): (r: seq<Byte>)
    ensures |r| >= START_CODE_OFFSET + 1
  {
    RootLayer(p.rootFl, ROOT_VECTOR_DATA, p.cid) + DataFrameLayer(p) + DmpLayer(p)
  }

  /**
   * base with channel ch of payload written at 125 + ch for every key ch
   * in 1..512 that is not still pending.
   */
  function Overlay(base: seq<Byte>, payload: Payload, pending: set<int>, scale: int -> Byte): (r: seq<Byte>)
    ensures |r| == |base|
  {
    seq(|base|, k requires 0 <= k < |base| =>
      if START_CODE_OFFSET < k <= START_CODE_OFFSET + CHANNELS
         && k - START_CODE_OFFSET in payload && k - START_CODE_OFFSET !in pending
      then scale(payload[k - START_CODE_OFFSET])
      else base[k])
  }

  /**
   * The bytes of the `buffer` getter: the header and 512 zero bytes, with
   * channel ch of the payload written at 125 + ch for every key ch in
   * 1..512. `scale` stands for `inRange(value * 2.55)`.
   */
  function DataWire(p: DataPacket, objectify: seq<Byte> -> Payload, scale: int -> Byte): (r: seq<Byte>)
    ensures |r| == |DataHeader(p)| + CHANNELS
  {
    Overlay(DataHeader(p) + Zeros(CHANNELS), PayloadOf(p, objectify), {}, scale)
  }

  /** The channel loop of the `buffer` getter, one key of the payload at a time. */
  method WriteChannels(n: array<Byte>, payload: Payload, scale: int -> Byte)
    modifies n
    ensures n[..] == Overlay(old(n[..]), payload, {}, scale)
  {
    ghost var base := n[..];
    var keys := payload.Keys;
    while keys != {}
      invariant keys <= payload.Keys
      invariant n[..] == Overlay(base, payload, keys, scale)
      decreases |keys|
    {
      assert exists ch :: ch in keys by {
        if forall ch :: ch !in keys {
          assert false;
        }
      }
      var ch :| ch in keys;
      if 1 <= ch <= CHANNELS && START_CODE_OFFSET + ch < n.Length {
        n[START_CODE_OFFSET + ch] := scale(payload[ch]);
      }
      keys := keys - {ch};
    }
  }

  /** The `buffer` getter: concatenate, then write each channel in place. */
  method DataBuffer(p: DataPacket, objectify: seq<Byte> -> Payload, scale: int -> Byte) returns (r: seq<Byte>)
    ensures r == DataWire(p, objectify, scale)
  {
    var base := DataHeader(p) + Zeros(CHANNELS);
    var n := new Byte[|base|](k requires 0 <= k < |base| => base[k]);
    assert n[..] == base;
    WriteChannels(n, PayloadOf(p, objectify), scale);
    r := n[..];
  }
}

module DataPacketProperties {
  import opened Bytes
  import opened Constants
  import opened PacketLayout
  import opened DataPackets

  /** Each framing-layer field at its offset from the start of the layer (38). */
  lemma DataFrameLayerFields(p: DataPacket)
    requires |p.sourceName| <= NAME_FIELD_LENGTH
    ensures var f := DataFrameLayer(p);
      && |f| == 77
      && f[0..2] == Bit(16, p.frameFl)
      && f[2..6] == Bit(32, FRAME_VECTOR_DATA)
      && f[6..70] == NameField(p.sourceName)
      && f[70] == p.priority % 256
      && f[71..73] == Bit(16, p.syncUniverse)
      && f[73] == p.sequence % 256
      && f[74] == p.options % 256
      && f[75..77] == Bit(16, p.universe)
  {
  }

  /** Each DMP-layer field at its offset from the start of the layer (115). */
  lemma DmpLayerFields(p: DataPacket)
    ensures var d := DmpLayer(p);
      && d[0..2] == Bit(16, p.dmpFl)
      && d[2] == DMP_VECTOR_DATA
      && d[3] == DMP_TYPE
      && d[4..6] == Bit(16, FIRST_ADDRESS)
      && d[6..8] == Bit(16, ADDRESS_INCREMENT)
      && d[8..10] == Bit(16, p.propertyValueCount)
      && d[10] == START_CODE
  {
  }

  /**
   * The data-packet header is 126 bytes when the source name fits its
   * field, and every field sits at its fixed offset.
   */
  lemma DataHeaderFields(p: DataPacket)
    requires |p.sourceName| <= NAME_FIELD_LENGTH
    ensures var h := DataHeader(p);
      && |h| == START_CODE_OFFSET + 1
      && h[..38] == RootLayer(p.rootFl, ROOT_VECTOR_DATA, p.cid)
      && h[38..40] == Bit(16, p.frameFl)
      && h[40..44] == Bit(32, FRAME_VECTOR_DATA)
      && h[44..108] == NameField(p.sourceName)
      && h[108] == p.priority % 256
      && h[109..111] == Bit(16, p.syncUniverse)
      && h[111] == p.sequence % 256
      && h[112] == p.options % 256
      && h[113..115] == Bit(16, p.universe)
      && h[115..117] == Bit(16, p.dmpFl)
      && h[117] == DMP_VECTOR_DATA
      && h[118] == DMP_TYPE
      && h[119..121] == Bit(16, FIRST_ADDRESS)
      && h[121..123] == Bit(16, ADDRESS_INCREMENT)
      && h[123..125] == Bit(16, p.propertyValueCount)
      && h[125] == START_CODE
  {
    var r, f, d := RootLayer(p.rootFl, ROOT_VECTOR_DATA, p.cid), DataFrameLayer(p), DmpLayer(p);
    DataFrameLayerFields(p);
    DmpLayerFields(p);
    var h := DataHeader(p);
    assert h == r + f + d;
    assert h[38..115] == f;
    assert h[115..126] == d;
  }

  /**
   * The serialized data packet is 638 bytes when the source name fits its
   * field. The channel loop leaves bytes 0..125 as the header wrote them,
   * and byte 125 + ch holds channel ch when the payload has key ch and 0
   * otherwise.
   */
  lemma DataWireLayout(p: DataPacket, objectify: seq<Byte> -> Payload, scale: int -> Byte)
    requires |p.sourceName| <= NAME_FIELD_LENGTH
    ensures var w := DataWire(p, objectify, scale);
      && |w| == PACKET_LENGTH
      && w[..START_CODE_OFFSET + 1] == DataHeader(p)
      && forall ch :: 1 <= ch <= CHANNELS ==>
           w[START_CODE_OFFSET + ch] ==
             if ch in PayloadOf(p, objectify) then scale(PayloadOf(p, objectify)[ch]) else 0
  {
    DataHeaderFields(p);
    var w := DataWire(p, objectify, scale);
    var base := DataHeader(p) + Zeros(CHANNELS);
    assert forall k :: 0 <= k < START_CODE_OFFSET + 1 ==> w[k] == base[k];
  }

  /**
   * Every field of a serialized data packet whose name fits its field reads
   * back as the packet's value reduced to the field's width, and the
   * buffer passes every check of the buffer constructor.
   */
  lemma DataWireFields(p: DataPacket, objectify: seq<Byte> -> Payload, scale: int -> Byte)
    requires |p.sourceName| <= NAME_FIELD_LENGTH
    ensures var w := DataWire(p, objectify, scale);
      && IsDataPacket(w)
      && Field(w, 16, 2) == p.rootFl % 0x1_0000
      && w[22..38] == p.cid
      && Field(w, 38, 2) == p.frameFl % 0x1_0000
      && w[44..108] == NameField(p.sourceName)
      && w[108] == p.priority % 256
      && Field(w, 109, 2) == p.syncUniverse % 0x1_0000
      && w[111] == p.sequence % 256
      && w[112] == p.options % 256
      && Field(w, 113, 2) == p.universe % 0x1_0000
      && Field(w, 115, 2) == p.dmpFl % 0x1_0000
      && Field(w, 123, 2) == p.propertyValueCount % 0x1_0000
  {
    var w := DataWire(p, objectify, scale);
    DataWireLayout(p, objectify, scale);
    DataHeaderFields(p);
    assert w[..38] == RootLayer(p.rootFl, ROOT_VECTOR_DATA, p.cid) by {
      assert w[..38] == w[..126][..38];
    }
    ParsedOfRootLayer(w, p.rootFl, ROOT_VECTOR_DATA, p.cid);
    DataFrameFieldsRead(p, w);
    DmpFieldsRead(p, w);
  }

  /** The framing-layer fields of a buffer that begins with a data header. */
  lemma DataFrameFieldsRead(p: DataPacket, w: seq<Byte>)
    requires |p.sourceName| <= NAME_FIELD_LENGTH
    requires |w| >= START_CODE_OFFSET + 1 && w[..START_CODE_OFFSET + 1] == DataHeader(p)
    ensures Field(w, 38, 2) == p.frameFl % 0x1_0000
    ensures Field(w, 40, 4) == FRAME_VECTOR_DATA
    ensures w[44..108] == NameField(p.sourceName)
    ensures w[108] == p.priority % 256 && Field(w, 109, 2) == p.syncUniverse % 0x1_0000
    ensures w[111] == p.sequence % 256 && w[112] == p.options % 256
    ensures Field(w, 113, 2) == p.universe % 0x1_0000
  {
    var h := DataHeader(p);
    DataHeaderFields(p);
    assert Pow256(2) == 0x1_0000;
    FieldOfHeader(w, h, 38, 2, p.frameFl);
    FieldOfHeader(w, h, 40, 4, FRAME_VECTOR_DATA);
    FieldOfHeader(w, h, 109, 2, p.syncUniverse);
    FieldOfHeader(w, h, 113, 2, p.universe);
    assert w[44..108] == h[44..108] by {
      assert w[44..108] == w[..126][44..108];
    }
    assert w[108] == h[108] && w[111] == h[111] && w[112] == h[112] by {
      assert w[108] == w[..126][108] && w[111] == w[..126][111] && w[112] == w[..126][112];
    }
  }

  /** The DMP-layer fields of a buffer that begins with a data header. */
  lemma DmpFieldsRead(p: DataPacket, w: seq<Byte>)
    requires |p.sourceName| <= NAME_FIELD_LENGTH
    requires |w| >= START_CODE_OFFSET + 1 && w[..START_CODE_OFFSET + 1] == DataHeader(p)
    ensures Field(w, 115, 2) == p.dmpFl % 0x1_0000
    ensures w[117] == DMP_VECTOR_DATA && w[118] == DMP_TYPE && w[125] == START_CODE
    ensures Field(w, 119, 2) == FIRST_ADDRESS && Field(w, 121, 2) == ADDRESS_INCREMENT
    ensures Field(w, 123, 2) == p.propertyValueCount % 0x1_0000
  {
    var h := DataHeader(p);
    DataHeaderFields(p);
    assert Pow256(2) == 0x1_0000;
    FieldOfHeader(w, h, 115, 2, p.dmpFl);
    FieldOfHeader(w, h, 119, 2, FIRST_ADDRESS);
    FieldOfHeader(w, h, 121, 2, ADDRESS_INCREMENT);
    FieldOfHeader(w, h, 123, 2, p.propertyValueCount);
    assert w[117] == h[117] && w[118] == h[118] && w[125] == h[125] by {
      assert w[117] == w[..126][117] && w[118] == w[..126][118] && w[125] == w[..126][125];
    }
  }

  /**
   * A data packet built from options serializes to 638 bytes whose three
   * flags/length words are 0x7000 plus the number of bytes from the start
   * of their layer (root at 16, framing at 38, DMP at 115) to the end, and
   * whose property value count is 1 + 512.
   */
  lemma ConstructedDataLengths(o: Options, sourceAddress: Option<string>,
                               objectify: seq<Byte> -> Payload, scale: int -> Byte)
    requires |NameOrDefault(o.sourceName)| <= NAME_FIELD_LENGTH
    ensures var w := DataWire(ConstructData(o, sourceAddress), objectify, scale);
      && |w| == PACKET_LENGTH
      && Field(w, 16, 2) == 0x7000 + (|w| - 16)
      && Field(w, 38, 2) == 0x7000 + (|w| - 38)
      && Field(w, 115, 2) == 0x7000 + (|w| - 115)
      && Field(w, 123, 2) == 1 + CHANNELS
  {
    var p := ConstructData(o, sourceAddress);
    DataWireLayout(p, objectify, scale);
    DataWireFields(p, objectify, scale);
    ConstructedWidths(o, sourceAddress, objectify);
  }

  /** The 512 channel bytes a data packet built from options carries. */
  function ChannelBytes(payload: Payload, scale: int -> Byte): (r: seq<Byte>)
    ensures |r| == CHANNELS
  {
    seq(CHANNELS, i requires 0 <= i < CHANNELS =>
      if i + 1 in payload then scale(payload[i + 1]) else 0)
  }

  /**
   * Parsing the serialization of a data packet built from options gives
   * back its options, defaults applied, each numeric field reduced to its
   * wire width, the name decoded from its 64-byte field and the channels as
   * raw bytes.
   */
  lemma ConstructedDataRoundTrip(o: Options, sent: Option<string>, received: Option<string>,
                                 objectify: seq<Byte> -> Payload, scale: int -> Byte)
    requires |NameOrDefault(o.sourceName)| < NAME_FIELD_LENGTH
    requires IsAsciiName(NameOrDefault(o.sourceName))
    ensures ParseData(DataWire(ConstructData(o, sent), objectify, scale), received)
      == Success(DataPacket(
           rootFl := ROOT_FL,
           cid := o.cid.GetOr(DEFAULT_CID),
           frameFl := FRAME_FL,
           options := 0,
           sequence := o.sequence % 256,
           sourceName := NameOrDefault(o.sourceName),
           priority := PriorityOrDefault(o.priority) % 256,
           syncUniverse := 0,
           universe := o.universe % 0x1_0000,
           dmpFl := DMP_FL,
           propertyValueCount := PROPERTY_VALUE_COUNT,
           payload := Raw(ChannelBytes(o.payload, scale)),
           sourceAddress := received))
  {
    var p := ConstructData(o, sent);
    var w := DataRoundTrip(p, received, objectify, scale);
    ConstructedWidths(o, sent, objectify);
  }

  /** The constants a packet built from options carries already fit their fields. */
  lemma ConstructedWidths(o: Options, sent: Option<string>, objectify: seq<Byte> -> Payload)
    ensures var p := ConstructData(o, sent);
      && p.rootFl % 0x1_0000 == ROOT_FL && p.frameFl % 0x1_0000 == FRAME_FL && p.dmpFl % 0x1_0000 == DMP_FL
      && p.options % 256 == 0 && p.syncUniverse % 0x1_0000 == 0
      && p.propertyValueCount % 0x1_0000 == PROPERTY_VALUE_COUNT
      && PayloadOf(p, objectify) == o.payload
  {
  }

  /**
   * Parsing the serialization of any data packet whose name is 7-bit ASCII
   * and shorter than its field gives back its fields, each reduced to its
   * wire width, and the 512 channel bytes written from its payload.
   */
  lemma DataRoundTrip(p: DataPacket, received: Option<string>, objectify: seq<Byte> -> Payload, scale: int -> Byte)
    returns (w: seq<Byte>)
    requires |p.sourceName| < NAME_FIELD_LENGTH && IsAsciiName(p.sourceName)
    ensures w == DataWire(p, objectify, scale)
    ensures ParseData(w, received)
      == Success(DataPacket(
           rootFl := p.rootFl % 0x1_0000,
           cid := p.cid,
           frameFl := p.frameFl % 0x1_0000,
           options := p.options % 256,
           sequence := p.sequence % 256,
           sourceName := p.sourceName,
           priority := p.priority % 256,
           syncUniverse := p.syncUniverse % 0x1_0000,
           universe := p.universe % 0x1_0000,
           dmpFl := p.dmpFl % 0x1_0000,
           propertyValueCount := p.propertyValueCount % 0x1_0000,
           payload := Raw(ChannelBytes(PayloadOf(p, objectify), scale)),
           sourceAddress := received))
  {
    w := DataWire(p, objectify, scale);
    DataWireFields(p, objectify, scale);
    ChannelsOfWire(p, objectify, scale);
    assert w[44..107] == NameField(p.sourceName)[..63] by {
      assert w[44..107] == w[44..108][..63];
    }
    NameFieldRoundTrip(p.sourceName);
  }

  /** The 512 bytes after the start code are the channels. */
  lemma ChannelsOfWire(p: DataPacket, objectify: seq<Byte> -> Payload, scale: int -> Byte)
    requires |p.sourceName| <= NAME_FIELD_LENGTH
    ensures DataWire(p, objectify, scale)[START_CODE_OFFSET + 1..]
      == ChannelBytes(PayloadOf(p, objectify), scale)
  {
    var w := DataWire(p, objectify, scale);
    DataWireLayout(p, objectify, scale);
    var c := ChannelBytes(PayloadOf(p, objectify), scale);
    forall i | 0 <= i < CHANNELS
      ensures w[START_CODE_OFFSET + 1..][i] == c[i]
    {
      assert w[START_CODE_OFFSET + 1..][i] == w[START_CODE_OFFSET + (i + 1)];
    }
  }

  /**
   * The framing layer of a parsed data packet whose name field is well
   * formed is rewritten byte for byte.
   */
  lemma ParsedDataFrameLayer(buf: seq<Byte>, sourceAddress: Option<string>)
    requires IsDataPacket(buf) && IsNameField(buf[44..108])
    ensures ParseData(buf, sourceAddress).Success?
    ensures DataFrameLayer(ParseData(buf, sourceAddress).value) == buf[38..115]
  {
    var q := ParseData(buf, sourceAddress).value;
    DataFrameLayerOfFields(q, buf);
  }

  /** A framing layer whose fields were read from buf[38..115] writes those bytes. */
  lemma DataFrameLayerOfFields(q: DataPacket, buf: seq<Byte>)
    requires |buf| >= 115 && IsNameField(buf[44..108])
    requires q.frameFl == Field(buf, 38, 2) && Field(buf, 40, 4) == FRAME_VECTOR_DATA
    requires q.sourceName == AsciiName(buf[44..107])
    requires q.priority == buf[108] && q.syncUniverse == Field(buf, 109, 2)
    requires q.sequence == buf[111] && q.options == buf[112] && q.universe == Field(buf, 113, 2)
    ensures DataFrameLayer(q) == buf[38..115]
  {
    FieldOfRead(buf, 38, 2);
    FieldOfRead(buf, 40, 4);
    assert buf[44..107] == buf[44..108][..63];
    NameFieldOfParsed(buf[44..108]);
    ByteOfRead(buf, 108);
    FieldOfRead(buf, 109, 2);
    ByteOfRead(buf, 111);
    ByteOfRead(buf, 112);
    FieldOfRead(buf, 113, 2);
    AppendSlice(buf, 38, 40, 44, Bit(16, q.frameFl), Bit(32, FRAME_VECTOR_DATA));
    var a := Bit(16, q.frameFl) + Bit(32, FRAME_VECTOR_DATA);
    AppendSlice(buf, 38, 44, 108, a, NameField(q.sourceName));
    var b := a + NameField(q.sourceName);
    AppendSlice(buf, 38, 108, 109, b, Bit(8, q.priority));
    var c := b + Bit(8, q.priority);
    AppendSlice(buf, 38, 109, 111, c, Bit(16, q.syncUniverse));
    var d := c + Bit(16, q.syncUniverse);
    AppendSlice(buf, 38, 111, 112, d, Bit(8, q.sequence));
    var e := d + Bit(8, q.sequence);
    AppendSlice(buf, 38, 112, 113, e, Bit(8, q.options));
    var f := e + Bit(8, q.options);
    AppendSlice(buf, 38, 113, 115, f, Bit(16, q.universe));
  }

  /** The DMP layer of a parsed data packet is rewritten byte for byte. */
  lemma ParsedDmpLayer(buf: seq<Byte>, sourceAddress: Option<string>)
    requires IsDataPacket(buf)
    ensures ParseData(buf, sourceAddress).Success?
    ensures DmpLayer(ParseData(buf, sourceAddress).value) == buf[115..126]
  {
    var q := ParseData(buf, sourceAddress).value;
    DmpLayerOfFields(q, buf);
  }

  /** A DMP layer whose fields were read from buf[115..126] writes those bytes. */
  lemma DmpLayerOfFields(q: DataPacket, buf: seq<Byte>)
    requires |buf| >= 126 && q.dmpFl == Field(buf, 115, 2) && q.propertyValueCount == Field(buf, 123, 2)
    requires buf[117] == DMP_VECTOR_DATA && buf[118] == DMP_TYPE && buf[125] == START_CODE
    requires Field(buf, 119, 2) == FIRST_ADDRESS && Field(buf, 121, 2) == ADDRESS_INCREMENT
    ensures DmpLayer(q) == buf[115..126]
  {
    var a := DmpVectors(q, buf);
    var b := DmpAddressing(buf, a);
    DmpPropertyValues(q, buf, b);
  }

  /** The flags/length word, the DMP vector and the address type: bytes 115..118. */
  lemma DmpVectors(q: DataPacket, buf: seq<Byte>) returns (a: seq<Byte>)
    requires |buf| >= 126 && q.dmpFl == Field(buf, 115, 2)
    requires buf[117] == DMP_VECTOR_DATA && buf[118] == DMP_TYPE
    ensures a == Bit(16, q.dmpFl) + Bit(8, DMP_VECTOR_DATA) + Bit(8, DMP_TYPE)
    ensures a == buf[115..119]
  {
    FieldOfRead(buf, 115, 2);
    ByteOfRead(buf, 117);
    ByteOfRead(buf, 118);
    AppendSlice(buf, 115, 117, 118, Bit(16, q.dmpFl), Bit(8, DMP_VECTOR_DATA));
    a := Bit(16, q.dmpFl) + Bit(8, DMP_VECTOR_DATA) + Bit(8, DMP_TYPE);
    AppendSlice(buf, 115, 118, 119, Bit(16, q.dmpFl) + Bit(8, DMP_VECTOR_DATA), Bit(8, DMP_TYPE));
  }

  /** The first property address and the address increment: bytes 119..122. */
  lemma DmpAddressing(buf: seq<Byte>, a: seq<Byte>) returns (b: seq<Byte>)
    requires |buf| >= 126 && a == buf[115..119]
    requires Field(buf, 119, 2) == FIRST_ADDRESS && Field(buf, 121, 2) == ADDRESS_INCREMENT
    ensures b == a + Bit(16, FIRST_ADDRESS) + Bit(16, ADDRESS_INCREMENT)
    ensures b == buf[115..123]
  {
    FieldOfRead(buf, 119, 2);
    FieldOfRead(buf, 121, 2);
    AppendSlice(buf, 115, 119, 121, a, Bit(16, FIRST_ADDRESS));
    b := a + Bit(16, FIRST_ADDRESS) + Bit(16, ADDRESS_INCREMENT);
    AppendSlice(buf, 115, 121, 123, a + Bit(16, FIRST_ADDRESS), Bit(16, ADDRESS_INCREMENT));
  }

  /** The property value count and the start code: bytes 123..125. */
  lemma DmpPropertyValues(q: DataPacket, buf: seq<Byte>, b: seq<Byte>)
    requires |buf| >= 126 && b == buf[115..123]
    requires q.propertyValueCount == Field(buf, 123, 2) && buf[125] == START_CODE
    ensures b + Bit(16, q.propertyValueCount) + Bit(8, START_CODE) == buf[115..126]
  {
    FieldOfRead(buf, 123, 2);
    ByteOfRead(buf, 125);
    AppendSlice(buf, 115, 123, 125, b, Bit(16, q.propertyValueCount));
    AppendSlice(buf, 115, 125, 126, b + Bit(16, q.propertyValueCount), Bit(8, START_CODE));
  }

  /**
   * Serializing a parsed data packet whose name field is well formed
   * (7-bit ASCII, NUL-padded, last byte NUL) writes its 126-byte header
   * back byte for byte; the channels depend on `objectify` and `scale`.
   */
  lemma ParsedDataHeaderRoundTrip(buf: seq<Byte>, sourceAddress: Option<string>,
                                  objectify: seq<Byte> -> Payload, scale: int -> Byte)
    requires IsDataPacket(buf) && IsNameField(buf[44..108])
    ensures ParseData(buf, sourceAddress).Success?
    ensures DataWire(ParseData(buf, sourceAddress).value, objectify, scale)[..START_CODE_OFFSET + 1]
      == buf[..START_CODE_OFFSET + 1]
  {
    var q := ParseData(buf, sourceAddress).value;
    RootLayerOfParsed(buf, ROOT_VECTOR_DATA);
    ParsedDataFrameLayer(buf, sourceAddress);
    ParsedDmpLayer(buf, sourceAddress);
    SliceSplit(buf, 0, 38, 115);
    SliceSplit(buf, 0, 115, 126);
    assert DataHeader(q) == buf[..126];
    DataWireLayout(q, objectify, scale);
  }

  /**
   * A parsed packet hands out its channels as the raw bytes from 126 on;
   * a packet built from options has no buffer to hand out.
   */
  lemma PayloadBuffers(buf: seq<Byte>, sourceAddress: Option<string>, o: Options, sent: Option<string>)
    ensures ParseData(buf, sourceAddress).Success? ==>
      PayloadAsBuffer(ParseData(buf, sourceAddress).value) == Some(buf[126..])
    ensures PayloadAsBuffer(ConstructData(o, sent)) == None
  {
  }
}
