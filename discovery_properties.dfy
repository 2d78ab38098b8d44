/**
 * Layout, length and round-trip properties of the universe discovery
 * packet as src/packet.ts writes it.
 */
module DiscoveryPacketProperties {
  import opened Bytes
  import opened Constants
  import opened PacketLayout
  import opened DiscoveryPackets

  /**
   * Whatever the entry, `value << 8` keeps nothing in its low 8 bits: the
   * high byte of every list entry is written as 0.
   */
  lemma ShiftedByteIsZero(v: int)
    ensures LowByte(ShiftLeft8(v)) == 0
  {
    var x := v % 0x1_0000_0000;
    var q := x * 256 / 0x1_0000_0000;
    var shifted := x * 256 % 0x1_0000_0000;
    assert shifted == 256 * (x - 0x100_0000 * q);
    LemmaModUnique(shifted, 256, x - 0x100_0000 * q, 0);
    if shifted >= 0x8000_0000 {
      assert shifted - 0x1_0000_0000 == 256 * (x - 0x100_0000 * q - 0x100_0000);
      LemmaModUnique(shifted - 0x1_0000_0000, 256, x - 0x100_0000 * q - 0x100_0000, 0);
    }
  }

  /** A raw list of 2n bytes has exactly the n keys first .. first + n - 1. */
  lemma EntriesKeys(bytes: seq<Byte>, first: int)
    ensures Entries(bytes, first).Keys == set k | first <= k < first + |bytes| / 2 && InInterval(k, first, |bytes| / 2)
    ensures |Entries(bytes, first)| == |bytes| / 2
  {
    IntervalSize(first, |bytes| / 2);
  }

  /**
   * The list of a parsed packet: an even number of bytes gives one entry
   * per byte pair, entry i under key page * 512 + 1 + i; an odd number fails
   * at the last byte.
   */
  lemma ParsedList(buf: seq<Byte>, sourceAddress: Option<string>)
    requires IsDiscoveryPacket(buf)
    ensures var p := ParseDiscovery(buf, sourceAddress).value;
      var raw := buf[LIST_OFFSET..];
      var first := FirstKey(buf[118]);
      && ListAsBuffer(p) == Some(raw)
      && (ListOf(p).Failure? <==> |raw| % 2 == 1)
      && (ListOf(p).Failure? ==> ListOf(p).error == OutOfRange(|raw| - 1))
      && (ListOf(p).Success? ==>
            && |ListOf(p).value| == |raw| / 2
            && (forall key :: key in ListOf(p).value <==> first <= key < first + |raw| / 2)
            && (forall key :: key in ListOf(p).value ==>
                  ListOf(p).value[key] == Field(raw, 2 * (key - first), 2)))
  {
    var raw := buf[LIST_OFFSET..];
    EntriesKeys(raw, FirstKey(buf[118]));
  }

  /** A packet built from options keeps its universes and has no raw list. */
  lemma ConstructedList(o: DiscoveryOptions, sourceAddress: Option<string>)
    requires ListSize(o.universes) <= MAX_UNIVERSES
    ensures ListOf(ConstructDiscovery(o, sourceAddress).value) == Success(o.universes)
    ensures ListAsBuffer(ConstructDiscovery(o, sourceAddress).value) == None
  {
  }

  /** Each framing-layer field at its offset from the start of the layer (38). */
  lemma DiscoveryFrameLayerFields(p: DiscoveryPacket)
    requires |p.sourceName| <= NAME_FIELD_LENGTH
    ensures var f := DiscoveryFrameLayer(p);
      && |f| == 74
      && f[0..2] == Bit(16, p.frameFl)
      && f[2..6] == Bit(32, FRAME_VECTOR_EXTENDED_DISCOVERY)
      && f[6..70] == NameField(p.sourceName)
      && f[70..74] == [0, 0, 0, 0]
  {
  }

  /** Each discovery-layer field at its offset from the start of the layer (112). */
  lemma DiscoveryLayerFields(p: DiscoveryPacket)
    ensures var d := DiscoveryLayer(p);
      && d[0..2] == Bit(16, p.discFl)
      && d[2..6] == Bit(32, DISCOVERY_VECTOR_LIST)
      && d[6] == p.page % 256
      && d[7] == p.lastPage % 256
  {
  }

  /**
   * The discovery header is 120 bytes when the source name fits its field,
   * and every field sits at its fixed offset.
   */
  lemma DiscoveryHeaderFields(p: DiscoveryPacket)
    requires |p.sourceName| <= NAME_FIELD_LENGTH
    ensures var h := DiscoveryHeader(p);
      && |h| == LIST_OFFSET
      && h[..38] == RootLayer(p.rootFl, ROOT_VECTOR_EXTENDED, p.cid)
      && h[38..40] == Bit(16, p.frameFl)
      && h[40..44] == Bit(32, FRAME_VECTOR_EXTENDED_DISCOVERY)
      && h[44..108] == NameField(p.sourceName)
      && h[108..112] == [0, 0, 0, 0]
      && h[112..114] == Bit(16, p.discFl)
      && h[114..118] == Bit(32, DISCOVERY_VECTOR_LIST)
      && h[118] == p.page % 256
      && h[119] == p.lastPage % 256
  {
    var r, f, d := RootLayer(p.rootFl, ROOT_VECTOR_EXTENDED, p.cid), DiscoveryFrameLayer(p), DiscoveryLayer(p);
    DiscoveryFrameLayerFields(p);
    DiscoveryLayerFields(p);
    var h := DiscoveryHeader(p);
    assert h == r + f + d;
    assert h[38..112] == f;
    assert h[112..120] == d;
  }

  /**
   * The serialized discovery packet is 120 + 2n bytes for a list of n keys
   * when the source name fits its field. The entry loop leaves the header
   * as it was written, writes 0 at 120 + 2i and the low 8 bits of the value
   * under key i + 1 (0 when there is none) at 121 + 2i.
   */
  lemma DiscoveryWireLayout(p: DiscoveryPacket)
    requires |p.sourceName| <= NAME_FIELD_LENGTH && ListOf(p).Success?
    ensures var list := ListOf(p).value;
      && DiscoveryWire(p).Success?
      && var w := DiscoveryWire(p).value;
      && |w| == LIST_OFFSET + 2 * |list|
      && w[..LIST_OFFSET] == DiscoveryHeader(p)
      && (forall i :: 0 <= i < |list| ==> w[LIST_OFFSET + 2 * i] == 0)
      && (forall i :: 0 <= i < |list| ==> w[LIST_OFFSET + 2 * i + 1] == LowByte(Lookup(list, i + 1)))
  {
    var list := ListOf(p).value;
    var w := DiscoveryWire(p).value;
    DiscoveryHeaderFields(p);
    var base := DiscoveryHeader(p) + Zeros(2 * |list|);
    assert forall k :: 0 <= k < LIST_OFFSET ==> w[k] == base[k];
    forall i | 0 <= i < |list|
      ensures w[LIST_OFFSET + 2 * i] == 0
    {
      assert w[LIST_OFFSET + 2 * i] == EntryByte(list, 2 * i);
      ShiftedByteIsZero(Lookup(list, i + 1));
    }
    forall i | 0 <= i < |list|
      ensures w[LIST_OFFSET + 2 * i + 1] == LowByte(Lookup(list, i + 1))
    {
      assert w[LIST_OFFSET + 2 * i + 1] == EntryByte(list, 2 * i + 1);
    }
  }

  /**
   * A discovery packet built from options whose name fits its field
   * serializes to 120 + 2n bytes for n universes, and its three
   * flags/length words are 0x7000 plus the number of bytes from the start
   * of their layer (root at 16, framing at 38, discovery at 112) to the end.
   */
  lemma ConstructedDiscoveryLengths(o: DiscoveryOptions, sourceAddress: Option<string>)
    requires ListSize(o.universes) <= MAX_UNIVERSES
    requires |NameOrDefault(o.sourceName)| <= NAME_FIELD_LENGTH
    ensures var p := ConstructDiscovery(o, sourceAddress).value;
      && DiscoveryWire(p).Success?
      && var w := DiscoveryWire(p).value;
      && |w| == LIST_OFFSET + 2 * ListSize(o.universes)
      && Field(w, 16, 2) == 0x7000 + (|w| - 16)
      && Field(w, 38, 2) == 0x7000 + (|w| - 38)
      && Field(w, 112, 2) == 0x7000 + (|w| - 112)
  {
    var p := ConstructDiscovery(o, sourceAddress).value;
    ConstructedList(o, sourceAddress);
    FlagWords(p, ListSize(o.universes));
  }

  /** The flags/length words of a packet whose list has n keys, when they count n. */
  lemma FlagWords(p: DiscoveryPacket, n: nat)
    requires |p.sourceName| <= NAME_FIELD_LENGTH && ListOf(p).Success? && |ListOf(p).value| == n
    requires n <= MAX_UNIVERSES
    requires p.rootFl == 0x7000 + 104 + 2 * n
    requires p.frameFl == 0x7000 + 82 + 2 * n
    requires p.discFl == 0x7000 + 8 + 2 * n
    ensures DiscoveryWire(p).Success?
    ensures var w := DiscoveryWire(p).value;
      && |w| == LIST_OFFSET + 2 * n
      && Field(w, 16, 2) == 0x7000 + (|w| - 16)
      && Field(w, 38, 2) == 0x7000 + (|w| - 38)
      && Field(w, 112, 2) == 0x7000 + (|w| - 112)
  {
    DiscoveryWireLayout(p);
    DiscoveryWireFields(p, None);
    LemmaModUnique(p.rootFl, 0x1_0000, 0, p.rootFl);
    LemmaModUnique(p.frameFl, 0x1_0000, 0, p.frameFl);
    LemmaModUnique(p.discFl, 0x1_0000, 0, p.discFl);
  }

  /**
   * A buffer that begins with the header of a discovery packet whose name
   * fits its field passes every check of the buffer constructor and reads
   * back as the packet's fields, each reduced to its wire width.
   */
  lemma HeaderFieldsRead(p: DiscoveryPacket, w: seq<Byte>, received: Option<string>)
    requires |p.sourceName| <= NAME_FIELD_LENGTH
    requires |w| >= LIST_OFFSET && w[..LIST_OFFSET] == DiscoveryHeader(p)
    ensures ParseDiscovery(w, received).Success?
    ensures var q := ParseDiscovery(w, received).value;
      && q.rootFl == p.rootFl % 0x1_0000
      && q.cid == p.cid
      && q.frameFl == p.frameFl % 0x1_0000
      && w[44..108] == NameField(p.sourceName)
      && q.discFl == p.discFl % 0x1_0000
      && q.page == p.page % 256
      && q.lastPage == p.lastPage % 256
      && q.list == Raw(w[LIST_OFFSET..])
      && q.sourceAddress == received
  {
    DiscoveryHeaderFields(p);
    assert w[..38] == RootLayer(p.rootFl, ROOT_VECTOR_EXTENDED, p.cid) by {
      assert w[..38] == w[..LIST_OFFSET][..38];
    }
    ParsedOfRootLayer(w, p.rootFl, ROOT_VECTOR_EXTENDED, p.cid);
    FrameFieldsRead(p, w);
    DiscoveryFieldsRead(p, w);
  }

  /** The framing-layer fields of such a buffer. */
  lemma FrameFieldsRead(p: DiscoveryPacket, w: seq<Byte>)
    requires |p.sourceName| <= NAME_FIELD_LENGTH
    requires |w| >= LIST_OFFSET && w[..LIST_OFFSET] == DiscoveryHeader(p)
    ensures Field(w, 38, 2) == p.frameFl % 0x1_0000
    ensures Field(w, 40, 4) == FRAME_VECTOR_EXTENDED_DISCOVERY
    ensures w[44..108] == NameField(p.sourceName)
  {
    var h := DiscoveryHeader(p);
    DiscoveryHeaderFields(p);
    assert Pow256(2) == 0x1_0000;
    FieldOfHeader(w, h, 38, 2, p.frameFl);
    FieldOfHeader(w, h, 40, 4, FRAME_VECTOR_EXTENDED_DISCOVERY);
    assert w[44..108] == h[44..108] by {
      assert w[44..108] == w[..LIST_OFFSET][44..108];
    }
  }

  /** The discovery-layer fields of such a buffer. */
  lemma DiscoveryFieldsRead(p: DiscoveryPacket, w: seq<Byte>)
    requires |p.sourceName| <= NAME_FIELD_LENGTH
    requires |w| >= LIST_OFFSET && w[..LIST_OFFSET] == DiscoveryHeader(p)
    ensures Field(w, 112, 2) == p.discFl % 0x1_0000
    ensures Field(w, 114, 4) == DISCOVERY_VECTOR_LIST
    ensures w[118] == p.page % 256 && w[119] == p.lastPage % 256
  {
    var h := DiscoveryHeader(p);
    DiscoveryHeaderFields(p);
    assert Pow256(2) == 0x1_0000;
    FieldOfHeader(w, h, 112, 2, p.discFl);
    FieldOfHeader(w, h, 114, 4, DISCOVERY_VECTOR_LIST);
    assert w[118] == h[118] && w[119] == h[119] by {
      assert w[118] == w[..LIST_OFFSET][118] && w[119] == w[..LIST_OFFSET][119];
    }
  }

  /** The header fields of a serialized discovery packet read back (see HeaderFieldsRead). */
  lemma DiscoveryWireFields(p: DiscoveryPacket, received: Option<string>)
    requires |p.sourceName| <= NAME_FIELD_LENGTH && ListOf(p).Success?
    ensures DiscoveryWire(p).Success?
    ensures var w := DiscoveryWire(p).value;
      && ParseDiscovery(w, received).Success?
      && var q := ParseDiscovery(w, received).value;
      && q.rootFl == p.rootFl % 0x1_0000
      && q.cid == p.cid
      && q.frameFl == p.frameFl % 0x1_0000
      && w[44..108] == NameField(p.sourceName)
      && q.discFl == p.discFl % 0x1_0000
      && q.page == p.page % 256
      && q.lastPage == p.lastPage % 256
      && q.sourceAddress == received
  {
    DiscoveryWireLayout(p);
    HeaderFieldsRead(p, DiscoveryWire(p).value, received);
  }

  /**
   * list holds one key per key of source, from first on, and the value
   * under first + i is the low 8 bits of the value of source under key
   * i + 1 (0 when source has no such key).
   */
  ghost predicate LowBytesListed(list: Payload, first: int, source: Payload)
  {
    && (forall key :: key in list <==> first <= key < first + |source|)
    && (forall key :: key in list ==> list[key] == LowByte(Lookup(source, key - first + 1)))
  }

  /**
   * The list parsed back from a serialized discovery packet has one key
   * per key of the packet's list, from page * 512 + 1 on, and entry i holds
   * the low 8 bits of the value under key i + 1 (0 when absent).
   */
  lemma WireListRoundTrip(p: DiscoveryPacket, received: Option<string>)
    requires |p.sourceName| <= NAME_FIELD_LENGTH && ListOf(p).Success?
    ensures DiscoveryWire(p).Success?
    ensures ParseDiscovery(DiscoveryWire(p).value, received).Success?
    ensures var q := ParseDiscovery(DiscoveryWire(p).value, received).value;
      && ListOf(q).Success?
      && LowBytesListed(ListOf(q).value, FirstKey(q.page), ListOf(p).value)
  {
    WireEntries(p);
    var w := DiscoveryWire(p).value;
    DiscoveryWireLayout(p);
    HeaderFieldsRead(p, w, received);
    RawLowBytesListed(ParseDiscovery(w, received).value, ListOf(p).value);
  }

  /**
   * A raw list of 2n bytes whose even bytes are 0 and whose byte 2i + 1 is
   * the low byte of the value under key i + 1 of source lists those low
   * bytes under keys page * 512 + 1 on.
   */
  lemma RawLowBytesListed(q: DiscoveryPacket, source: Payload)
    requires q.list.Raw? && |q.list.bytes| == 2 * |source|
    requires forall i :: 0 <= i < |source| ==> q.list.bytes[2 * i] == 0
    requires forall i :: 0 <= i < |source| ==> q.list.bytes[2 * i + 1] == LowByte(Lookup(source, i + 1))
    ensures ListOf(q).Success?
    ensures LowBytesListed(ListOf(q).value, FirstKey(q.page), source)
  {
    var raw := q.list.bytes;
    assert ListOf(q) == Success(Entries(raw, FirstKey(q.page)));
    EntriesLowBytesListed(raw, FirstKey(q.page), source, |source|);
  }

  /** The entries of 2n such bytes, under keys first on, are those low bytes. */
  lemma EntriesLowBytesListed(raw: seq<Byte>, first: int, source: Payload, n: nat)
    requires |raw| == 2 * n && |source| == n
    requires forall i :: 0 <= i < n ==> raw[2 * i] == 0
    requires forall i :: 0 <= i < n ==> raw[2 * i + 1] == LowByte(Lookup(source, i + 1))
    ensures LowBytesListed(Entries(raw, first), first, source)
  {
    assert |raw| / 2 == n;
    var list := EntriesUpTo(raw, first, n);
    assert Entries(raw, first) == list;
    forall key | key in list
      ensures list[key] == LowByte(Lookup(source, key - first + 1))
    {
      var i := key - first;
      assert list[key] == EntryValue(raw, first, key);
      Field16(raw, 2 * i);
    }
  }

  /** The list bytes of a serialized packet: 0, then the low byte of each entry. */
  lemma WireEntries(p: DiscoveryPacket)
    requires |p.sourceName| <= NAME_FIELD_LENGTH && ListOf(p).Success?
    ensures DiscoveryWire(p).Success?
    ensures var raw := DiscoveryWire(p).value[LIST_OFFSET..];
      var list := ListOf(p).value;
      && |raw| == 2 * |list|
      && (forall i :: 0 <= i < |list| ==> raw[2 * i] == 0)
      && (forall i :: 0 <= i < |list| ==> raw[2 * i + 1] == LowByte(Lookup(list, i + 1)))
  {
    DiscoveryWireLayout(p);
  }

  /**
   * Parsing the serialization of a discovery packet whose name is 7-bit
   * ASCII and shorter than its field gives back its fields, each reduced
   * to its wire width, and the low bytes of its list (see LowBytesListed).
   */
  lemma DiscoveryRoundTrip(p: DiscoveryPacket, received: Option<string>)
    requires |p.sourceName| < NAME_FIELD_LENGTH && IsAsciiName(p.sourceName)
    requires ListOf(p).Success?
    ensures DiscoveryWire(p).Success?
    ensures ParseDiscovery(DiscoveryWire(p).value, received).Success?
    ensures var q := ParseDiscovery(DiscoveryWire(p).value, received).value;
      && q.rootFl == p.rootFl % 0x1_0000
      && q.cid == p.cid
      && q.frameFl == p.frameFl % 0x1_0000
      && q.sourceName == p.sourceName
      && q.discFl == p.discFl % 0x1_0000
      && q.page == p.page % 256
      && q.lastPage == p.lastPage % 256
      && q.sourceAddress == received
      && ListOf(q).Success?
      && LowBytesListed(ListOf(q).value, FirstKey(q.page), ListOf(p).value)
  {
    DiscoveryWireFields(p, received);
    WireListRoundTrip(p, received);
    var w := DiscoveryWire(p).value;
    assert w[44..107] == NameField(p.sourceName)[..63] by {
      assert w[44..107] == w[44..108][..63];
    }
    NameFieldRoundTrip(p.sourceName);
  }

  /**
   * Parsing the serialization of a discovery packet built from options
   * gives back its header fields, defaults applied, and a list of n
   * entries under keys page * 512 + 1 on, entry i holding only the low
   * 8 bits of the value under key i + 1 of the universes (0 when absent).
   */
  lemma ConstructedDiscoveryRoundTrip(o: DiscoveryOptions, sent: Option<string>, received: Option<string>)
      returns (p: DiscoveryPacket, w: seq<Byte>, q: DiscoveryPacket)
    requires ListSize(o.universes) <= MAX_UNIVERSES
    requires |NameOrDefault(o.sourceName)| < NAME_FIELD_LENGTH
    requires IsAsciiName(NameOrDefault(o.sourceName))
    ensures ConstructDiscovery(o, sent) == Success(p)
    ensures DiscoveryWire(p) == Success(w)
    ensures ParseDiscovery(w, received) == Success(q)
    ensures q.rootFl == p.rootFl && q.frameFl == p.frameFl && q.discFl == p.discFl
    ensures q.cid == o.cid.GetOr(DEFAULT_CID)
    ensures q.sourceName == NameOrDefault(o.sourceName)
    ensures q.page == o.page.GetOr(0) % 256
    ensures q.lastPage == o.lastPage.GetOr(0) % 256
    ensures q.sourceAddress == received
    ensures ListOf(q).Success?
    ensures LowBytesListed(ListOf(q).value, FirstKey(q.page), o.universes)
  {
    p := ConstructDiscovery(o, sent).value;
    ConstructedFlagWords(o, sent);
    ConstructedList(o, sent);
    DiscoveryRoundTrip(p, received);
    w := DiscoveryWire(p).value;
    q := ParseDiscovery(w, received).value;
  }

  /** The flags/length words of a packet built from options fit 16 bits. */
  lemma ConstructedFlagWords(o: DiscoveryOptions, sourceAddress: Option<string>)
    requires ListSize(o.universes) <= MAX_UNIVERSES
    ensures var p := ConstructDiscovery(o, sourceAddress).value;
      && p.rootFl % 0x1_0000 == p.rootFl
      && p.frameFl % 0x1_0000 == p.frameFl
      && p.discFl % 0x1_0000 == p.discFl
  {
    var p := ConstructDiscovery(o, sourceAddress).value;
    var n := ListSize(o.universes);
    assert p.rootFl == 0x7000 + 104 + 2 * n;
    assert p.frameFl == 0x7000 + 82 + 2 * n;
    assert p.discFl == 0x7000 + 8 + 2 * n;
    LemmaModUnique(p.rootFl, 0x1_0000, 0, p.rootFl);
    LemmaModUnique(p.frameFl, 0x1_0000, 0, p.frameFl);
    LemmaModUnique(p.discFl, 0x1_0000, 0, p.discFl);
  }

  /**
   * The header of a parsed discovery packet whose name field is well
   * formed and whose reserved bytes 108..111 are 0 is rewritten byte for
   * byte.
   */
  lemma ParsedDiscoveryHeader(buf: seq<Byte>, sourceAddress: Option<string>)
    requires IsDiscoveryPacket(buf) && IsNameField(buf[44..108]) && buf[108..112] == [0, 0, 0, 0]
    ensures ParseDiscovery(buf, sourceAddress).Success?
    ensures DiscoveryHeader(ParseDiscovery(buf, sourceAddress).value) == buf[..LIST_OFFSET]
  {
    RootLayerOfParsed(buf, ROOT_VECTOR_EXTENDED);
    ParsedDiscoveryFrameLayer(buf, sourceAddress);
    ParsedDiscoveryLayer(buf, sourceAddress);
    SliceSplit(buf, 0, 38, 112);
    SliceSplit(buf, 0, 112, 120);
  }

  /** The framing layer of such a packet is rewritten byte for byte. */
  lemma ParsedDiscoveryFrameLayer(buf: seq<Byte>, sourceAddress: Option<string>)
    requires IsDiscoveryPacket(buf) && IsNameField(buf[44..108]) && buf[108..112] == [0, 0, 0, 0]
    ensures ParseDiscovery(buf, sourceAddress).Success?
    ensures DiscoveryFrameLayer(ParseDiscovery(buf, sourceAddress).value) == buf[38..112]
  {
    var q := ParseDiscovery(buf, sourceAddress).value;
    FrameLayerOfFields(q, buf);
  }

  /** A framing layer whose fields were read from buf[38..112] writes those bytes. */
  lemma FrameLayerOfFields(q: DiscoveryPacket, buf: seq<Byte>)
    requires |buf| >= 112 && IsNameField(buf[44..108]) && buf[108..112] == [0, 0, 0, 0]
    requires q.frameFl == Field(buf, 38, 2) && Field(buf, 40, 4) == FRAME_VECTOR_EXTENDED_DISCOVERY
    requires q.sourceName == AsciiName(buf[44..107])
    ensures DiscoveryFrameLayer(q) == buf[38..112]
  {
    FieldOfRead(buf, 38, 2);
    FieldOfRead(buf, 40, 4);
    assert buf[44..107] == buf[44..108][..63];
    NameFieldOfParsed(buf[44..108]);
    assert Bit(32, 0) == [0, 0, 0, 0];
    AppendSlice(buf, 38, 40, 44, Bit(16, q.frameFl), Bit(32, FRAME_VECTOR_EXTENDED_DISCOVERY));
    var a := Bit(16, q.frameFl) + Bit(32, FRAME_VECTOR_EXTENDED_DISCOVERY);
    AppendSlice(buf, 38, 44, 108, a, NameField(q.sourceName));
    var b := a + NameField(q.sourceName);
    AppendSlice(buf, 38, 108, 112, b, Bit(32, 0));
  }

  /** The discovery layer of a parsed packet is rewritten byte for byte. */
  lemma ParsedDiscoveryLayer(buf: seq<Byte>, sourceAddress: Option<string>)
    requires IsDiscoveryPacket(buf)
    ensures ParseDiscovery(buf, sourceAddress).Success?
    ensures DiscoveryLayer(ParseDiscovery(buf, sourceAddress).value) == buf[112..120]
  {
    var q := ParseDiscovery(buf, sourceAddress).value;
    DiscoveryLayerOfFields(q, buf);
  }

  /** A discovery layer whose fields were read from buf[112..120] writes those bytes. */
  lemma DiscoveryLayerOfFields(q: DiscoveryPacket, buf: seq<Byte>)
    requires |buf| >= LIST_OFFSET && q.discFl == Field(buf, 112, 2)
    requires Field(buf, 114, 4) == DISCOVERY_VECTOR_LIST && q.page == buf[118] && q.lastPage == buf[119]
    ensures DiscoveryLayer(q) == buf[112..120]
  {
    FieldOfRead(buf, 112, 2);
    FieldOfRead(buf, 114, 4);
    ByteOfRead(buf, 118);
    ByteOfRead(buf, 119);
    AppendSlice(buf, 112, 114, 118, Bit(16, q.discFl), Bit(32, DISCOVERY_VECTOR_LIST));
    var a := Bit(16, q.discFl) + Bit(32, DISCOVERY_VECTOR_LIST);
    AppendSlice(buf, 112, 118, 119, a, Bit(8, q.page));
    var b := a + Bit(8, q.page);
    AppendSlice(buf, 112, 119, 120, b, Bit(8, q.lastPage));
  }

  /**
   * Serializing a parsed discovery packet writes the buffer back byte for
   * byte when its name field is well formed, its reserved bytes are 0, its
   * list has an even length, its page is 0 and every entry is below 256
   * (its high byte is 0): the conditions the getter's key lookup and its
   * `<< 8` impose.
   */
  lemma ParsedDiscoveryRoundTrip(buf: seq<Byte>, sourceAddress: Option<string>)
    requires IsDiscoveryPacket(buf) && IsNameField(buf[44..108]) && buf[108..112] == [0, 0, 0, 0]
    requires |buf| % 2 == 0 && buf[118] == 0
    requires forall i :: 0 <= i < (|buf| - LIST_OFFSET) / 2 ==> buf[LIST_OFFSET + 2 * i] == 0
    ensures ParseDiscovery(buf, sourceAddress).Success?
    ensures DiscoveryWire(ParseDiscovery(buf, sourceAddress).value) == Success(buf)
  {
    var q := ParseDiscovery(buf, sourceAddress).value;
    ParsedDiscoveryHeader(buf, sourceAddress);
    var list, n := ParsedLowBytes(q, buf);
    DiscoveryWireLayout(q);
    ListBytesMatch(DiscoveryWire(q).value, buf, list, n);
  }

  /**
   * A serialization and a buffer of the same length with the same header
   * agree when both have 0 at every even list offset and the list entries'
   * low bytes at every odd one.
   */
  lemma ListBytesMatch(w: seq<Byte>, buf: seq<Byte>, list: Payload, n: nat)
    requires |w| == |buf| == LIST_OFFSET + 2 * n
    requires w[..LIST_OFFSET] == buf[..LIST_OFFSET]
    requires forall i :: 0 <= i < n ==> w[LIST_OFFSET + 2 * i] == 0
    requires forall i :: 0 <= i < n ==> buf[LIST_OFFSET + 2 * i] == 0
    requires forall i :: 0 <= i < n ==> w[LIST_OFFSET + 2 * i + 1] == LowByte(Lookup(list, i + 1))
    requires forall i :: 0 <= i < n ==> LowByte(Lookup(list, i + 1)) == buf[LIST_OFFSET + 2 * i + 1]
    ensures w == buf
  {
    SameListBytes(w, buf, n);
  }

  /**
   * In a page-0 list parsed from an even-length buffer whose high bytes
   * are 0, the value under key i + 1 is the low byte at 121 + 2i.
   */
  lemma ParsedLowBytes(q: DiscoveryPacket, buf: seq<Byte>) returns (list: Payload, n: nat)
    requires |buf| >= LIST_OFFSET && |buf| % 2 == 0
    requires q.list == Raw(buf[LIST_OFFSET..]) && q.page == 0
    requires forall i :: 0 <= i < (|buf| - LIST_OFFSET) / 2 ==> buf[LIST_OFFSET + 2 * i] == 0
    ensures ListOf(q) == Success(list)
    ensures |list| == n && |buf| == LIST_OFFSET + 2 * n
    ensures forall i :: 0 <= i < n ==> buf[LIST_OFFSET + 2 * i] == 0
    ensures forall i :: 0 <= i < n ==> LowByte(Lookup(list, i + 1)) == buf[LIST_OFFSET + 2 * i + 1]
  {
    var raw := buf[LIST_OFFSET..];
    n := (|buf| - LIST_OFFSET) / 2;
    EvenListLength(|buf|);
    assert |raw| == 2 * n;
    forall i | 0 <= i < n
      ensures raw[2 * i] == 0
    {
      assert raw[2 * i] == buf[LIST_OFFSET + 2 * i];
    }
    assert FirstKey(0) == 1;
    assert |raw| / 2 == n;
    list := Entries(raw, 1);
    LowBytesOfRaw(raw, n);
    EntriesKeys(raw, 1);
    forall i | 0 <= i < n
      ensures raw[2 * i + 1] == buf[LIST_OFFSET + 2 * i + 1]
    {
    }
  }

  /** Entry i of a list of 2n bytes whose high bytes are 0 is its low byte. */
  lemma LowBytesOfRaw(raw: seq<Byte>, n: nat)
    requires |raw| == 2 * n
    requires forall i :: 0 <= i < n ==> raw[2 * i] == 0
    ensures forall i :: 0 <= i < n ==> LowByte(Lookup(Entries(raw, 1), i + 1)) == raw[2 * i + 1]
  {
    forall i | 0 <= i < n
      ensures LowByte(Lookup(Entries(raw, 1), i + 1)) == raw[2 * i + 1]
    {
      Field16(raw, 2 * i);
      assert Entries(raw, 1)[i + 1] == EntryValue(raw, 1, i + 1);
    }
  }

  /** An even length of at least 120 leaves room for whole list entries. */
  lemma EvenListLength(len: nat)
    requires len >= LIST_OFFSET && len % 2 == 0
    ensures len == LIST_OFFSET + 2 * ((len - LIST_OFFSET) / 2)
  {
  }

  /** Two buffers with the same header and the same list bytes are equal. */
  lemma SameListBytes(w: seq<Byte>, buf: seq<Byte>, n: nat)
    requires |w| == |buf| == LIST_OFFSET + 2 * n
    requires w[..LIST_OFFSET] == buf[..LIST_OFFSET]
    requires forall i :: 0 <= i < n ==>
      w[LIST_OFFSET + 2 * i] == buf[LIST_OFFSET + 2 * i] && w[LIST_OFFSET + 2 * i + 1] == buf[LIST_OFFSET + 2 * i + 1]
    ensures w == buf
  {
    forall k | 0 <= k < |buf|
      ensures w[k] == buf[k]
    {
      if k < LIST_OFFSET {
        assert w[k] == w[..LIST_OFFSET][k];
      } else {
        var i := (k - LIST_OFFSET) / 2;
        assert k == LIST_OFFSET + 2 * i || k == LIST_OFFSET + 2 * i + 1;
      }
    }
  }
}
