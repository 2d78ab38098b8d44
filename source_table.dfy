/**
 * The values behind the source table of `DiscoveryReceiver`
 * (src/discovery.receiver.ts): discovered sources, the events the receiver
 * emits, how a packet's page updates a source, and the key a source is
 * filed under.
 */
module SourceTables {
  import opened Bytes
  import opened Constants
  import opened PacketLayout
  import opened DiscoveryPackets
  import opened TimerQueues

  /**
   * The `Source` record: the CID as text, the name and address of the first
   * packet heard, when it was last heard (ms) and the universe list of each
   * page heard since the last page 0.
   */
  datatype Source = Source(
    cid: string,
    sourceName: seq<Byte>,
    sourceAddress: Option<string>,
    lastHeard: int,
    pages: map<int, Payload>)

  /** What the receiver emits, in order. */
  datatype Event =
    | PacketReceived(packet: DiscoveryPacket)
    | SourceDetected(source: Source)
    | SourceTimeout(source: Source)
    | PacketCorruption(check: Check)
    | ErrorRaised(error: ParseError)

  /**
   * The `catch` of the message handler: an `AssertionError` is emitted as
   * 'PacketCorruption', any other error (a `RangeError`) as 'error'.
   */
  function Rejected(e: ParseError): (r: Event)
    ensures r.PacketCorruption? <==> e.Corrupt?
    ensures r.ErrorRaised? <==> e.OutOfRange?
    ensures r.PacketCorruption? ==> r.check == e.check
    ensures r.ErrorRaised? ==> r.error == e
  {
    if e.Corrupt? then PacketCorruption(e.check) else ErrorRaised(e)
  }

  /**
   * The pages after a packet for `page` is heard: page 0 starts a new
   * list of pages, any other page is stored beside the pages already heard.
   */
  function NewPages(pages: map<int, Payload>, page: int, list: Payload): (r: map<int, Payload>)
    ensures page in r && r[page] == list
    ensures page == 0 ==> r.Keys == {0}
    ensures page != 0 ==> r.Keys == pages.Keys + {page}
    ensures page != 0 ==> forall q :: q in pages && q != page ==> r[q] == pages[q]
  {
    if page == 0 then map[0 := list] else pages[page := list]
  }

  /**
   * The key of a source is its CID text followed by its address; keys of
   * CID texts of equal length are equal only for the same CID text and
   * address.
   */
  lemma SourceKeyInjective(cid1: string, address1: string, cid2: string, address2: string)
    requires |cid1| == |cid2| && cid1 + address1 == cid2 + address2
    ensures cid1 == cid2 && address1 == address2
  {
    assert cid1 == (cid1 + address1)[..|cid1|];
    assert cid2 == (cid2 + address2)[..|cid2|];
    assert address1 == (cid1 + address1)[|cid1|..];
    assert address2 == (cid2 + address2)[|cid2|..];
  }

  /** Every source is filed under its own key. */
  ghost predicate FiledByKey(sources: map<string, Source>)
  {
    forall k :: k in sources ==> KeyOf(sources[k]) == Some(k)
  }

  /** The key the message handler files a source under, once its address is known. */
  function KeyOf(source: Source): (r: Option<string>)
    ensures r.Some? <==> source.sourceAddress.Some?
    ensures r.Some? ==> |r.value| == |source.cid| + |source.sourceAddress.value|
  {
    match source.sourceAddress
    case Some(address) => Some(source.cid + address)
    case None => None
  }

  /** A second update of the same key overrides the first. */
  lemma UpdateTwice(m: map<string, Source>, k: string, a: Source, b: Source)
    ensures m[k := a][k := b] == m[k := b]
  {
  }
}
