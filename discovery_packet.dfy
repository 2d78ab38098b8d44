/**
 * The E1.31 universe discovery packet (class `DiscoveryPacket` in
 * src/packet.ts): a 120-byte header followed by a list of 2-byte universe
 * numbers, built either from a received buffer or from caller options.
 */
module DiscoveryPackets {
  import opened Bytes
  import opened Constants
  import opened PacketLayout

  /** Most universes one page may list. */
  const MAX_UNIVERSES: nat := 512
  /** Offset of the universe list; entry i sits at LIST_OFFSET + 2i. */
  const LIST_OFFSET: nat := 120

  datatype DiscoveryPacket = DiscoveryPacket(
    rootFl: nat,
    cid: Cid,
    frameFl: nat,
    sourceName: seq<Byte>,
    discFl: nat,
    page: nat,
    lastPage: nat,
    list: PayloadData,
    sourceAddress: Option<string>)

  /** The `DiscoveryOptions` interface: only the universes are required. */
  datatype DiscoveryOptions = DiscoveryOptions(
    universes: Payload,
    sourceName: Option<seq<Byte>>,
    page: Option<nat>,
    lastPage: Option<nat>,
    cid: Option<Cid>)

  /** The `Error` the options constructor throws for an over-long list. */
  datatype ConstructError = ListTooLong(listSize: nat)

  /** The fixed field that check c of the discovery constructor compares. */
  predicate DiscoveryHolds(buf: seq<Byte>, c: Check)
  {
    match c
    case RootVector => RootCheckHolds(buf, c, ROOT_VECTOR_EXTENDED)
    case AcnPid => RootCheckHolds(buf, c, ROOT_VECTOR_EXTENDED)
    case Preamble => RootCheckHolds(buf, c, ROOT_VECTOR_EXTENDED)
    case Postamble => RootCheckHolds(buf, c, ROOT_VECTOR_EXTENDED)
    case FrameVector => |buf| >= 44 && Field(buf, 40, 4) == FRAME_VECTOR_EXTENDED_DISCOVERY
    case DiscoveryVector => |buf| >= 118 && Field(buf, 114, 4) == DISCOVERY_VECTOR_LIST
    case _ => false
  }

  /** A buffer the discovery constructor accepts: long enough, every check holds. */
  predicate IsDiscoveryPacket(buf: seq<Byte>)
  {
    && |buf| >= LIST_OFFSET
    && RootLayerHolds(buf, ROOT_VECTOR_EXTENDED)
    && DiscoveryHolds(buf, FrameVector)
    && DiscoveryHolds(buf, DiscoveryVector)
  }

  /**
   * The first failure after the root layer: the frame vector (a 32-bit
   * read at 40), the discovery vector (a 32-bit read at 114), then the
   * reads of the page at 118 and of the last page at 119.
   */
  function DiscoveryLayerError(buf: seq<Byte>): (e: Option<ParseError>)
    ensures e.None? <==>
      |buf| >= LIST_OFFSET && DiscoveryHolds(buf, FrameVector) && DiscoveryHolds(buf, DiscoveryVector)
    ensures e.Some? && e.value.Corrupt? ==>
      e.value.check in {FrameVector, DiscoveryVector} && !DiscoveryHolds(buf, e.value.check)
    ensures e.Some? && e.value.OutOfRange? ==>
      |buf| < e.value.offset + 4 && e.value.offset in {40, 114, 118, 119}
    ensures |buf| < 44 ==> e == Some(OutOfRange(40))
    ensures |buf| >= 44 && !DiscoveryHolds(buf, FrameVector) ==> e == Some(Corrupt(FrameVector))
    ensures e == Some(OutOfRange(114)) ==> 44 <= |buf| < 118
    ensures e.Some? && ((e.value.Corrupt? && e.value.check == DiscoveryVector) || (e.value.OutOfRange? && e.value.offset > 40)) ==>
      DiscoveryHolds(buf, FrameVector)
    ensures e.Some? && e.value.OutOfRange? && e.value.offset > 114 ==>
      DiscoveryHolds(buf, DiscoveryVector) && |buf| == e.value.offset
  {
    if |buf| < 44 then Some(OutOfRange(40))
    else if Field(buf, 40, 4) != FRAME_VECTOR_EXTENDED_DISCOVERY then Some(Corrupt(FrameVector))
    else if |buf| < 118 then Some(OutOfRange(114))
    else if Field(buf, 114, 4) != DISCOVERY_VECTOR_LIST then Some(Corrupt(DiscoveryVector))
    else if |buf| < 119 then Some(OutOfRange(118))
    else if |buf| < 120 then Some(OutOfRange(119))
    else None
  }

  /**
   * The buffer constructor: the root, framing and discovery checks in the
   * order of the source; on success every field is read from its fixed
   * offset and the list is kept as the raw bytes from 120 on.
   */
  function ParseDiscovery(buf: seq<Byte>, sourceAddress: Option<string>): (r: Result<DiscoveryPacket, ParseError>)
    ensures r.Success? <==> IsDiscoveryPacket(buf)
    ensures r.Success? ==>
      && r.value.rootFl == Field(buf, 16, 2)
      && r.value.cid == buf[22..38]
      && r.value.frameFl == Field(buf, 38, 2)
      && r.value.sourceName == AsciiName(buf[44..107])
      && r.value.discFl == Field(buf, 112, 2)
      && r.value.page == buf[118]
      && r.value.lastPage == buf[119]
      && r.value.list == Raw(buf[LIST_OFFSET..])
      && r.value.sourceAddress == sourceAddress
    ensures r.Failure? && r.error.Corrupt? ==> !DiscoveryHolds(buf, r.error.check)
    ensures r.Failure? && r.error.OutOfRange? ==> |buf| < LIST_OFFSET && r.error.offset < LIST_OFFSET
  {
    var rootError := RootLayerError(buf, ROOT_VECTOR_EXTENDED);
    if rootError.Some? then Failure(rootError.value)
    else
      var discError := DiscoveryLayerError(buf);
      if discError.Some? then Failure(discError.value)
      else
        Success(DiscoveryPacket(
          rootFl := Field(buf, 16, 2),
          cid := buf[22..38],
          frameFl := Field(buf, 38, 2),
          sourceName := AsciiName(buf[44..107]),
          discFl := Field(buf, 112, 2),
          page := buf[118],
          lastPage := buf[119],
          list := Raw(buf[LIST_OFFSET..]),
          sourceAddress := sourceAddress))
  }

  /** `Object.keys(options.universes).length`. */
  function ListSize(universes: Payload): nat
  {
    |universes|
  }

  /**
   * The options constructor: more than 512 universes is an error; otherwise
   * the defaults are applied and the three flags/length words count the
   * 2-byte entries.
   */
  function ConstructDiscovery(o: DiscoveryOptions, sourceAddress: Option<string>): (r: Result<DiscoveryPacket, ConstructError>)
    ensures r.Success? <==> ListSize(o.universes) <= MAX_UNIVERSES
    ensures r.Failure? ==> r.error.listSize > MAX_UNIVERSES
    ensures r.Success? ==>
      && r.value.sourceName == NameOrDefault(o.sourceName)
      && (o.page.None? ==> r.value.page == 0)
      && (o.lastPage.None? ==> r.value.lastPage == 0)
      && (o.cid.None? ==> r.value.cid == DEFAULT_CID)
      && r.value.list == Sparse(o.universes)
    ensures r.Success? ==>
      && r.value.page == o.page.GetOr(0)
      && r.value.lastPage == o.lastPage.GetOr(0)
      && r.value.cid == o.cid.GetOr(DEFAULT_CID)
      && r.value.sourceAddress == sourceAddress
    ensures r.Success? ==>
      && r.value.discFl == 0x7000 + 8 + 2 * ListSize(o.universes)
      && r.value.frameFl == 0x7000 + 74 + 8 + 2 * ListSize(o.universes)
      && r.value.rootFl == 0x7000 + 22 + 74 + 8 + 2 * ListSize(o.universes)
  {
    var listSize := ListSize(o.universes);
    if listSize > MAX_UNIVERSES then Failure(ListTooLong(listSize))
    else
      var discSize := 8 + listSize * 2;
      var frameSize := 74 + discSize;
      var rootSize := 22 + frameSize;
      Success(DiscoveryPacket(
        rootFl := 0x7000 + rootSize,
        cid := o.cid.GetOr(DEFAULT_CID),
        frameFl := 0x7000 + frameSize,
        sourceName := NameOrDefault(o.sourceName),
        discFl := 0x7000 + discSize,
        page := o.page.GetOr(0),
        lastPage := o.lastPage.GetOr(0),
        list := Sparse(o.universes),
        sourceAddress := sourceAddress))
  }

  /**
   * The entries of a raw list: the 2-byte big-endian entry i under key
   * first + i, for every complete entry.
   */
  function Entries(bytes: seq<Byte>, first: int): (r: Payload)
    ensures forall k :: k in r <==> first <= k < first + |bytes| / 2
    ensures forall k :: k in r ==> r[k] == Field(bytes, 2 * (k - first), 2)
  {
    EntriesUpTo(bytes, first, |bytes| / 2)
  }

  /** The first `count` entries of a raw list, under keys first on. */
  function EntriesUpTo(bytes: seq<Byte>, first: int, count: nat): Payload
    requires count <= |bytes| / 2
  {
    map k | first <= k < first + count :: EntryValue(bytes, first, k)
  }

  /** The 2-byte big-endian entry read under key k of a list whose first key is first. */
  function EntryValue(bytes: seq<Byte>, first: int, k: int): nat
    requires first <= k < first + |bytes| / 2
  {
    Field(bytes, 2 * (k - first), 2)
  }

  /** One more entry adds one key. */
  lemma EntriesUpToStep(bytes: seq<Byte>, first: int, count: nat)
    requires count < |bytes| / 2
    ensures EntriesUpTo(bytes, first, count + 1)
      == EntriesUpTo(bytes, first, count)[first + count := Field(bytes, 2 * count, 2)]
  {
  }

  /** `page * 512 + 1`: the key of the first universe listed on a page. */
  function FirstKey(page: nat): int
  {
    page * 512 + 1
  }

  /**
   * The `list` getter. A raw list is read two bytes at a time under keys
   * page * 512 + 1 on; an odd trailing byte makes the last 16-bit read fail
   * with a `RangeError` at its offset within the list. A mapping given to
   * the options constructor is returned as it is.
   */
  function ListOf(p: DiscoveryPacket): (r: Result<Payload, ParseError>)
    ensures p.list.Sparse? ==> r == Success(p.list.values)
    ensures r.Failure? <==> p.list.Raw? && |p.list.bytes| % 2 == 1
    ensures r.Failure? ==> r.error == OutOfRange(|p.list.bytes| - 1)
    ensures p.list.Raw? && r.Success? ==> r.value == Entries(p.list.bytes, FirstKey(p.page))
  {
    match p.list
    case Sparse(values) => Success(values)
    case Raw(bytes) =>
      if |bytes| % 2 == 1 then Failure(OutOfRange(|bytes| - 1))
      else Success(Entries(bytes, FirstKey(p.page)))
  }

  /** The `list` getter: two counters, the byte offset and the key. */
  method List(p: DiscoveryPacket) returns (r: Result<Payload, ParseError>)
    ensures r == ListOf(p)
  {
    match p.list
    case Sparse(values) =>
      r := Success(values);
    case Raw(buf) =>
      var first := FirstKey(p.page);
      var data: Payload := map[];
      var i, index := 0, first;
      ghost var count: nat := 0;
      while i < |buf|
        invariant i == 2 * count && i <= |buf|
        invariant index == first + count
        invariant data == EntriesUpTo(buf, first, count)
        decreases |buf| - i
      {
        if i + 2 > |buf| {
          assert |buf| == 2 * count + 1;
          return Failure(OutOfRange(i));
        }
        EntriesUpToStep(buf, first, count);
        data := data[index := Field(buf, i, 2)];
        i, index, count := i + 2, index + 1, count + 1;
      }
      assert |buf| == 2 * count;
      r := Success(data);
  }

  /** `listAsBuffer`: the raw list of a parsed packet, nothing for a built one. */
  function ListAsBuffer(p: DiscoveryPacket): (r: Option<seq<Byte>>)
    ensures r.Some? <==> p.list.Raw?
    ensures r.Some? ==> r.value == p.list.bytes
  {
    match p.list
    case Raw(bytes) => Some(bytes)
    case Sparse(_) => None
  }

  /** Framing layer, bytes 38..111 when the name fits its 64-byte field. */
  function DiscoveryFrameLayer(p: DiscoveryPacket): (r: seq<Byte>)
    ensures |r| == 10 + |NameField(p.sourceName)|
  {
    Bit(16, p.frameFl) + Bit(32, FRAME_VECTOR_EXTENDED_DISCOVERY)
      + NameField(p.sourceName) + Bit(32, 0)
  }

  /** Universe discovery layer up to the list, bytes 112..119. */
  function DiscoveryLayer(p: DiscoveryPacket): (r: seq<Byte>)
    ensures |r| == 8
  {
    Bit(16, p.discFl) + Bit(32, DISCOVERY_VECTOR_LIST) + Bit(8, p.page) + Bit(8, p.lastPage)
  }

  /** The concatenated header that precedes the zeroed list. */
  function DiscoveryHeader(p: DiscoveryPacket): (r: seq<Byte>)
    ensures |r| >= LIST_OFFSET
  {
    RootLayer(p.rootFl, ROOT_VECTOR_EXTENDED, p.cid) + DiscoveryFrameLayer(p) + DiscoveryLayer(p)
  }

  /** `list[key]`, where a missing key reads as `undefined` and that is written as 0. */
  function Lookup(list: Payload, key: int): int
  {
    if key in list then list[key] else 0
  }

  /**
   * JavaScript's `v << 8`: v is taken modulo 2^32 as a signed 32-bit
   * integer, shifted, and the result again wraps to a signed 32-bit integer.
   */
  function ShiftLeft8(v: int): (r: int)
    ensures -0x8000_0000 <= r < 0x8000_0000
    ensures r % 256 == 0
    ensures 0 <= v < 0x80_0000 ==> r == v * 256
  {
    var shifted := (v % 0x1_0000_0000) * 256 % 0x1_0000_0000;
    ShiftedBytes(v, shifted);
    if shifted >= 0x8000_0000 then shifted - 0x1_0000_0000 else shifted
  }

  /** The shifted word has a zero low byte, before and after the signed wrap. */
  lemma ShiftedBytes(v: int, shifted: int)
    requires shifted == (v % 0x1_0000_0000) * 256 % 0x1_0000_0000
    ensures shifted % 256 == 0 && (shifted - 0x1_0000_0000) % 256 == 0
    ensures 0 <= v < 0x80_0000 ==> shifted == v * 256
  {
    var m := v % 0x1_0000_0000;
    var q := m * 256 / 0x1_0000_0000;
    assert m * 256 == 0x1_0000_0000 * q + shifted;
    assert shifted == 256 * (m - 0x100_0000 * q) + 0;
    LemmaModUnique(shifted, 256, m - 0x100_0000 * q, 0);
    assert shifted - 0x1_0000_0000 == 256 * (m - 0x100_0000 * q - 0x100_0000) + 0;
    LemmaModUnique(shifted - 0x1_0000_0000, 256, m - 0x100_0000 * q - 0x100_0000, 0);
    if 0 <= v < 0x80_0000 {
      LemmaModUnique(v, 0x1_0000_0000, 0, v);
      LemmaModUnique(v * 256, 0x1_0000_0000, 0, v * 256);
    }
  }

  /**
   * Byte j of the list as the `buffer` getter writes it: entry j / 2 is
   * looked up under key j / 2 + 1, its high byte is written as
   * `value << 8` and its low byte as `value`, each keeping its low 8 bits.
   */
  function EntryByte(list: Payload, j: nat): Byte
  {
    var v := Lookup(list, j / 2 + 1);
    if j % 2 == 0 then LowByte(ShiftLeft8(v)) else LowByte(v)
  }

  /** base with the first `done` list entries written over bytes 120 on. */
  function WithEntries(base: seq<Byte>, list: Payload, done: nat): (r: seq<Byte>)
    requires LIST_OFFSET + 2 * done <= |base|
    ensures |r| == |base|
  {
    seq(|base|, k requires 0 <= k < |base| => WrittenByte(base, list, done, k))
  }

  /** Byte k of base once the first `done` list entries are written. */
  function WrittenByte(base: seq<Byte>, list: Payload, done: nat, k: nat): Byte
    requires k < |base|
  {
    if LIST_OFFSET <= k < LIST_OFFSET + 2 * done then EntryByte(list, k - LIST_OFFSET) else base[k]
  }

  /**
   * The bytes of the `buffer` getter: the header and two zero bytes per
   * key of the list, then entry i rewritten from key i + 1. The list is
   * read first, so a raw list of odd length fails here too.
   */
  function DiscoveryWire(p: DiscoveryPacket): (r: Result<seq<Byte>, ParseError>)
    ensures r.Success? <==> ListOf(p).Success?
    ensures r.Success? ==> |r.value| == |DiscoveryHeader(p)| + 2 * |ListOf(p).value|
  {
    match ListOf(p)
    case Failure(e) => Failure(e)
    case Success(list) =>
      var listSize := |list|;
      Success(WithEntries(DiscoveryHeader(p) + Zeros(2 * listSize), list, listSize))
  }

  /** The `buffer` getter: concatenate, then write each entry in place. */
  method DiscoveryBuffer(p: DiscoveryPacket) returns (r: Result<seq<Byte>, ParseError>)
    ensures r == DiscoveryWire(p)
  {
    var listed := List(p);
    if listed.Failure? {
      return Failure(listed.error);
    }
    var list := listed.value;
    var listSize := |list|;
    var base := DiscoveryHeader(p) + Zeros(2 * listSize);
    var n := new Byte[|base|](k requires 0 <= k < |base| => base[k]);
    assert n[..] == WithEntries(base, list, 0);
    for i := 0 to listSize
      invariant n[..] == WithEntries(base, list, i)
    {
      var v := Lookup(list, i + 1);
      WithEntriesStep(base, list, i);
      n[LIST_OFFSET + i * 2] := LowByte(ShiftLeft8(v));
      n[LIST_OFFSET + i * 2 + 1] := LowByte(v);
    }
    r := Success(n[..]);
  }

  /** Writing entry i's two bytes extends the entries written by one. */
  lemma WithEntriesStep(base: seq<Byte>, list: Payload, i: nat)
    requires LIST_OFFSET + 2 * (i + 1) <= |base|
    ensures var v := Lookup(list, i + 1);
      WithEntries(base, list, i)[LIST_OFFSET + i * 2 := LowByte(ShiftLeft8(v))][LIST_OFFSET + i * 2 + 1 := LowByte(v)]
        == WithEntries(base, list, i + 1)
  {
    var v := Lookup(list, i + 1);
    var a := WithEntries(base, list, i)[LIST_OFFSET + i * 2 := LowByte(ShiftLeft8(v))][LIST_OFFSET + i * 2 + 1 := LowByte(v)];
    var b := WithEntries(base, list, i + 1);
    forall k | 0 <= k < |base|
      ensures a[k] == b[k]
    {
      if k == LIST_OFFSET + i * 2 {
        assert EntryByte(list, 2 * i) == LowByte(ShiftLeft8(v));
      } else if k == LIST_OFFSET + i * 2 + 1 {
        assert EntryByte(list, 2 * i + 1) == LowByte(v);
      }
    }
  }
}
