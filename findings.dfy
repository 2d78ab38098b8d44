/**
 * Two places where the `buffer` getter of `DiscoveryPacket`
 * (src/packet.ts) does not write what its `list` getter reads back:
 * `list[i + 1] << 8` keeps nothing of an entry's high byte, and the list
 * is looked up under keys 1 on whatever the page, while a parsed page
 * lists its universes under keys page * 512 + 1 on. Each is shown on the
 * getter as written (DiscoveryWire), then repaired in
 * DiscoveryWireIntended, whose round trips are proved.
 */
module DiscoveryFindings {
  import opened Bytes
  import opened PacketLayout
  import opened DiscoveryPackets
  import opened DiscoveryPacketProperties
  import opened DiscoveryFixtures

  /**
   * As written: an entry under key 1 that does not fit one byte is not
   * what the serialized packet lists under its first key.
   */
  lemma HighByteLost(p: DiscoveryPacket, received: Option<string>)
    requires |p.sourceName| <= NAME_FIELD_LENGTH && ListOf(p).Success?
    requires 1 in ListOf(p).value && !(0 <= ListOf(p).value[1] < 256)
    ensures DiscoveryWire(p).Success?
    ensures ParseDiscovery(DiscoveryWire(p).value, received).Success?
    ensures var q := ParseDiscovery(DiscoveryWire(p).value, received).value;
      && ListOf(q).Success?
      && FirstKey(q.page) in ListOf(q).value
      && ListOf(q).value[FirstKey(q.page)] != ListOf(p).value[1]
  {
    WireListRoundTrip(p, received);
  }

  /**
   * As written, on a page-0 packet whose only entry is universe 256 under
   * key 1: it is read back as universe 0.
   */
  lemma HighByteLostExample(p: DiscoveryPacket)
    requires |p.sourceName| <= NAME_FIELD_LENGTH && p.page == 0 && p.list == Sparse(map[1 := 256])
    ensures DiscoveryWire(p).Success?
    ensures ParseDiscovery(DiscoveryWire(p).value, None).Success?
    ensures ListOf(ParseDiscovery(DiscoveryWire(p).value, None).value) == Success(map[1 := 0])
  {
    var list := PageZeroRead(p);
    OneLowByte(list);
  }

  /** The one-entry list that universe 256 under key 1 is read back as. */
  lemma OneLowByte(list: Payload)
    requires LowBytesListed(list, 1, map[1 := 256])
    ensures list == map[1 := 0]
  {
    assert |map[1 := 256]| == 1;
    assert Lookup(map[1 := 256], 1) == 256;
    forall key | key in list
      ensures key == 1 && list[key] == 0
    {
    }
  }

  /**
   * As written: a parsed packet of page 1 or later whose first entry has
   * a non-zero low byte is not written back as it was received, because
   * its entries sit under keys page * 512 + 1 on and the getter reads key 1.
   */
  lemma PageEntriesLost(buf: seq<Byte>, received: Option<string>)
    requires IsDiscoveryPacket(buf) && |buf| % 2 == 0 && |buf| >= LIST_OFFSET + 2
    requires buf[118] >= 1 && buf[LIST_OFFSET + 1] != 0
    ensures ParseDiscovery(buf, received).Success?
    ensures var q := ParseDiscovery(buf, received).value;
      && DiscoveryWire(q).Success?
      && |DiscoveryWire(q).value| == |buf|
      && DiscoveryWire(q).value[LIST_OFFSET + 1] == 0
      && DiscoveryWire(q).value != buf
  {
    var q := ParseDiscovery(buf, received).value;
    ParsedList(buf, received);
    var list := ListOf(q).value;
    assert 1 !in list by {
      assert FirstKey(buf[118]) > 1;
    }
    DiscoveryWireLayout(q);
    assert DiscoveryWire(q).value[LIST_OFFSET + 2 * 0 + 1] == LowByte(Lookup(list, 0 + 1));
  }

  /**
   * Byte j of the list as the getter evidently means to write it: the
   * entry under key first + j / 2, high byte `(v >> 8) & 0xff` first,
   * then its low byte.
   */
  function IntendedEntryByte(list: Payload, first: int, j: nat): Byte
  {
    var v := Lookup(list, first + j / 2);
    if j % 2 == 0 then LowByte(v / 256) else LowByte(v)
  }

  /** The 2n list bytes of the intended getter. */
  function IntendedListBytes(list: Payload, first: int, n: nat): (r: seq<Byte>)
    ensures |r| == 2 * n
  {
    seq(2 * n, j requires 0 <= j < 2 * n => IntendedEntryByte(list, first, j))
  }

  /**
   * The corrected `buffer` getter: the same header, then each of the n
   * entries under keys page * 512 + 1 on, in two big-endian bytes.
   */
  function DiscoveryWireIntended(p: DiscoveryPacket): (r: Result<seq<Byte>, ParseError>)
    ensures r.Success? <==> ListOf(p).Success?
    ensures r.Success? ==> |r.value| == |DiscoveryHeader(p)| + 2 * |ListOf(p).value|
  {
    match ListOf(p)
    case Failure(e) => Failure(e)
    case Success(list) =>
      Success(DiscoveryHeader(p) + IntendedListBytes(list, FirstKey(p.page), |list|))
  }

  /**
   * Corrected: every well-formed received packet with whole entries is
   * written back byte for byte, on every page and for every 16-bit entry.
   */
  lemma IntendedParsedRoundTrip(buf: seq<Byte>, sourceAddress: Option<string>)
    requires IsDiscoveryPacket(buf) && IsNameField(buf[44..108]) && buf[108..112] == [0, 0, 0, 0]
    requires |buf| % 2 == 0
    ensures ParseDiscovery(buf, sourceAddress).Success?
    ensures DiscoveryWireIntended(ParseDiscovery(buf, sourceAddress).value) == Success(buf)
  {
    var q := ParseDiscovery(buf, sourceAddress).value;
    ParsedDiscoveryHeader(buf, sourceAddress);
    IntendedOfRaw(q, buf);
  }

  /** A packet whose header and raw list were read from buf writes buf back. */
  lemma IntendedOfRaw(q: DiscoveryPacket, buf: seq<Byte>)
    requires |buf| >= LIST_OFFSET && |buf| % 2 == 0
    requires DiscoveryHeader(q) == buf[..LIST_OFFSET] && q.list == Raw(buf[LIST_OFFSET..])
    ensures DiscoveryWireIntended(q) == Success(buf)
  {
    var raw := buf[LIST_OFFSET..];
    PrefixSuffix(buf, LIST_OFFSET);
    var first := FirstKey(q.page);
    EvenListLength(|buf|);
    var n := |raw| / 2;
    assert |raw| == 2 * n;
    var list := Entries(raw, first);
    assert ListOf(q) == Success(list);
    EntriesKeys(raw, first);
    IntendedBytesOfRaw(raw, first, n);
  }

  /** The intended bytes of the entries of 2n raw bytes are those bytes. */
  lemma IntendedBytesOfRaw(raw: seq<Byte>, first: int, n: nat)
    requires |raw| == 2 * n
    ensures IntendedListBytes(Entries(raw, first), first, n) == raw
  {
    var list := Entries(raw, first);
    forall j | 0 <= j < 2 * n
      ensures IntendedEntryByte(list, first, j) == raw[j]
    {
      var i := j / 2;
      RawEntry(raw, first, i);
      SplitBytes(list[first + i], raw[2 * i], raw[2 * i + 1]);
      assert j == 2 * i || j == 2 * i + 1;
    }
  }

  /** Entry i of a raw list, under key first + i, is the 16-bit value at 2i. */
  lemma RawEntry(raw: seq<Byte>, first: int, i: nat)
    requires 2 * i + 2 <= |raw|
    ensures first + i in Entries(raw, first)
    ensures Entries(raw, first)[first + i] == raw[2 * i] as int * 256 + raw[2 * i + 1]
  {
    assert Entries(raw, first)[first + i] == EntryValue(raw, first, first + i);
    Field16(raw, 2 * i);
  }

  /** The two bytes of hi * 256 + lo, as the intended getter extracts them. */
  lemma SplitBytes(v: int, hi: Byte, lo: Byte)
    requires v == hi as int * 256 + lo
    ensures LowByte(v / 256) == hi && LowByte(v) == lo
  {
    DivModByte(hi, lo);
  }

  /** list holds its n universes under exactly the keys first .. first + n - 1, each a 16-bit value. */
  ghost predicate PagedList(list: Payload, first: int)
  {
    && (forall key :: key in list <==> first <= key < first + |list|)
    && (forall key :: key in list ==> 0 <= list[key] < 0x1_0000)
  }

  /**
   * Corrected: a packet whose name fits its field, whose page fits its
   * byte and whose list is paged from page * 512 + 1 reads back with the
   * same list.
   */
  lemma IntendedListRoundTrip(p: DiscoveryPacket, received: Option<string>)
    requires |p.sourceName| <= NAME_FIELD_LENGTH && p.page < 256
    requires ListOf(p).Success? && PagedList(ListOf(p).value, FirstKey(p.page))
    ensures DiscoveryWireIntended(p).Success?
    ensures ParseDiscovery(DiscoveryWireIntended(p).value, received).Success?
    ensures ListOf(ParseDiscovery(DiscoveryWireIntended(p).value, received).value) == ListOf(p)
  {
    var list := ListOf(p).value;
    var first := FirstKey(p.page);
    var raw := IntendedListBytes(list, first, |list|);
    var w := IntendedWireLayout(p);
    HeaderFieldsRead(p, w, received);
    var q := ParseDiscovery(w, received).value;
    LemmaModUnique(p.page, 256, 0, p.page);
    assert q.page == p.page && q.list == Raw(raw);
    assert |raw| % 2 == 0 && |raw| / 2 == |list|;
    PagedEntries(list, first);
    assert ListOf(q) == Success(Entries(raw, first));
  }

  /** The intended serialization is the 120-byte header, then the list bytes. */
  lemma IntendedWireLayout(p: DiscoveryPacket) returns (w: seq<Byte>)
    requires |p.sourceName| <= NAME_FIELD_LENGTH && ListOf(p).Success?
    ensures DiscoveryWireIntended(p) == Success(w)
    ensures |w| >= LIST_OFFSET && w[..LIST_OFFSET] == DiscoveryHeader(p)
    ensures w[LIST_OFFSET..] == IntendedListBytes(ListOf(p).value, FirstKey(p.page), |ListOf(p).value|)
  {
    DiscoveryHeaderFields(p);
    w := DiscoveryWireIntended(p).value;
  }

  /** The entries of the intended bytes of a paged list are that list. */
  lemma PagedEntries(list: Payload, first: int)
    requires PagedList(list, first)
    ensures Entries(IntendedListBytes(list, first, |list|), first) == list
  {
    var raw := IntendedListBytes(list, first, |list|);
    forall i | 0 <= i < |list|
      ensures raw[2 * i] as int * 256 + raw[2 * i + 1] == list[first + i]
    {
      IntendedEntry(list, first, raw, i);
    }
    EntriesOfPairs(raw, first, list);
  }

  /**
   * 2n bytes whose pair i is the 16-bit value under key first + i of a
   * list of n keys from first on have that list as their entries.
   */
  lemma EntriesOfPairs(raw: seq<Byte>, first: int, list: Payload)
    requires |raw| == 2 * |list|
    requires forall key :: key in list <==> first <= key < first + |list|
    requires forall i :: 0 <= i < |list| ==> raw[2 * i] as int * 256 + raw[2 * i + 1] == list[first + i]
    ensures Entries(raw, first) == list
  {
    var back := Entries(raw, first);
    assert |raw| / 2 == |list|;
    forall key | key in back
      ensures key in list && back[key] == list[key]
    {
      RawEntry(raw, first, key - first);
    }
    forall key | key in list
      ensures key in back
    {
      RawEntry(raw, first, key - first);
    }
  }

  /** The two intended bytes of entry i read back as its value. */
  lemma IntendedEntry(list: Payload, first: int, raw: seq<Byte>, i: nat)
    requires PagedList(list, first) && i < |list| && raw == IntendedListBytes(list, first, |list|)
    ensures raw[2 * i] as int * 256 + raw[2 * i + 1] == list[first + i]
  {
    assert raw[2 * i] == IntendedEntryByte(list, first, 2 * i);
    assert raw[2 * i + 1] == IntendedEntryByte(list, first, 2 * i + 1);
    assert (2 * i) / 2 == i && (2 * i + 1) / 2 == i;
    SplitEntry(list[first + i]);
  }

  /** A sequence is its first k elements followed by the rest. */
  lemma PrefixSuffix<T>(s: seq<T>, k: nat)
    requires k <= |s|
    ensures s[..k] + s[k..] == s
  {
  }

  /** A 16-bit value is its high byte times 256 plus its low byte. */
  lemma SplitEntry(v: int)
    requires 0 <= v < 0x1_0000
    ensures LowByte(v / 256) * 256 + LowByte(v) == v
  {
    LemmaModUnique(v / 256, 256, 0, v / 256);
  }
}
