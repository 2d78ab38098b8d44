/**
 * The discovery-packet claims of the repository's test suite
 * (test/discovery.packet.test.ts), stated on the model: the two-universe
 * list, the empty list and the 513-universe rejection.
 */
module DiscoveryFixtures {
  import opened Bytes
  import opened PacketLayout
  import opened DiscoveryPackets
  import opened DiscoveryPacketProperties

  /** The list of the test suite: universe 1 under key 1, universe 100 under key 2. */
  const TEST_LIST: Payload := map[1 := 1, 2 := 100]

  /**
   * A page-0 packet listing TEST_LIST serializes its list as the bytes
   * 0, 1, 0, 100 in network order and reads back with the same list.
   */
  lemma TestListFixture(p: DiscoveryPacket)
    requires |p.sourceName| <= NAME_FIELD_LENGTH && p.page == 0 && p.list == Sparse(TEST_LIST)
    ensures DiscoveryWire(p).Success?
    ensures DiscoveryWire(p).value[LIST_OFFSET..] == [0, 1, 0, 100]
    ensures ParseDiscovery(DiscoveryWire(p).value, None).Success?
    ensures ListOf(ParseDiscovery(DiscoveryWire(p).value, None).value) == Success(TEST_LIST)
  {
    TestListBytes(p);
    TestListRead(p);
  }

  /** The list bytes of such a packet. */
  lemma TestListBytes(p: DiscoveryPacket)
    requires |p.sourceName| <= NAME_FIELD_LENGTH && p.list == Sparse(TEST_LIST)
    ensures DiscoveryWire(p).Success?
    ensures DiscoveryWire(p).value[LIST_OFFSET..] == [0, 1, 0, 100]
  {
    assert |TEST_LIST| == 2;
    WireEntries(p);
    var raw := DiscoveryWire(p).value[LIST_OFFSET..];
    assert raw[2 * 0] == 0 && raw[2 * 1] == 0;
    assert raw[2 * 0 + 1] == LowByte(Lookup(TEST_LIST, 0 + 1));
    assert raw[2 * 1 + 1] == LowByte(Lookup(TEST_LIST, 1 + 1));
    assert raw == [0, 1, 0, 100];
  }

  /** The list such a packet reads back with. */
  lemma TestListRead(p: DiscoveryPacket)
    requires |p.sourceName| <= NAME_FIELD_LENGTH && p.page == 0 && p.list == Sparse(TEST_LIST)
    ensures DiscoveryWire(p).Success?
    ensures ParseDiscovery(DiscoveryWire(p).value, None).Success?
    ensures ListOf(ParseDiscovery(DiscoveryWire(p).value, None).value) == Success(TEST_LIST)
  {
    var list := PageZeroRead(p);
    TestListBack(list);
  }

  /** A page-0 packet reads back with the low bytes of its list under keys 1 on. */
  lemma PageZeroRead(p: DiscoveryPacket) returns (list: Payload)
    requires |p.sourceName| <= NAME_FIELD_LENGTH && p.page == 0 && ListOf(p).Success?
    ensures DiscoveryWire(p).Success?
    ensures ParseDiscovery(DiscoveryWire(p).value, None).Success?
    ensures ListOf(ParseDiscovery(DiscoveryWire(p).value, None).value) == Success(list)
    ensures LowBytesListed(list, 1, ListOf(p).value)
  {
    DiscoveryWireFields(p, None);
    WireListRoundTrip(p, None);
    var q := ParseDiscovery(DiscoveryWire(p).value, None).value;
    assert FirstKey(q.page) == 1;
    list := ListOf(q).value;
  }

  /** The list that TEST_LIST's low bytes are read back as is TEST_LIST. */
  lemma TestListBack(list: Payload)
    requires LowBytesListed(list, 1, TEST_LIST)
    ensures list == TEST_LIST
  {
    assert |TEST_LIST| == 2;
    forall key | key in list
      ensures key in TEST_LIST && list[key] == TEST_LIST[key]
    {
      assert key == 1 || key == 2;
      assert LowByte(1) == 1 && LowByte(100) == 100;
    }
  }

  /**
   * A packet with an empty list serializes to its 120-byte header alone
   * and reads back with an empty list.
   */
  lemma EmptyListFixture(p: DiscoveryPacket)
    requires |p.sourceName| <= NAME_FIELD_LENGTH && p.list == Sparse(map[])
    ensures DiscoveryWire(p).Success? && |DiscoveryWire(p).value| == LIST_OFFSET
    ensures ParseDiscovery(DiscoveryWire(p).value, None).Success?
    ensures ListOf(ParseDiscovery(DiscoveryWire(p).value, None).value) == Success(map[])
  {
    WireListRoundTrip(p, None);
    var q := ParseDiscovery(DiscoveryWire(p).value, None).value;
    var list := ListOf(q).value;
    assert forall key :: key !in list;
  }

  /** Universes 1 .. 513, each under its own number, as the test suite builds them. */
  function TooManyUniverses(): (r: Payload)
    ensures |r| == MAX_UNIVERSES + 1
  {
    var m := map i | 1 <= i < 1 + 513 && InInterval(i, 1, 513) :: i;
    IntervalSize(1, 513);
    assert m.Keys == set i | 1 <= i < 1 + 513 && InInterval(i, 1, 513);
    m
  }

  /** Building a discovery packet from 513 universes fails. */
  lemma TooManyUniversesRejected(sourceAddress: Option<string>)
    ensures ConstructDiscovery(DiscoveryOptions(TooManyUniverses(), None, None, None, None), sourceAddress)
      == Failure(ListTooLong(513))
  {
  }
}
