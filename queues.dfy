/**
 * The bookkeeping of `DiscoveryReceiver` (src/discovery.receiver.ts) that
 * does not depend on what a source is: the order in which keys joined
 * `privateSources` (the order `for ... in` visits them), and the timeouts
 * of `#sourcesID`. Node runs timers of one duration in the order they were
 * set, so the pending timeouts form a queue ordered by due time in which
 * `clearTimeout` removes a key's timer and `setTimeout` appends one.
 */
module TimerQueues {
  import opened Constants

  /** `1000 * (DISCOVERY_INTERVAL + 1)`: how long, in ms, a source may stay silent. */
  const TIMEOUT: nat := 1000 * (DISCOVERY_INTERVAL + 1)

  /** One pending `setTimeout`: the key of its source and when it fires (ms). */
  datatype Timer<K> = Timer(key: K, due: int)

  predicate Distinct<T(==)>(s: seq<T>)
  {
    forall i, j :: 0 <= i < j < |s| ==> s[i] != s[j]
  }

  /** The elements of s. */
  ghost function Members<K>(s: seq<K>): set<K>
  {
    if s == [] then {} else {s[0]} + Members(s[1..])
  }

  lemma {:induction false} MembersIn<K>(s: seq<K>, x: K)
    ensures x in Members(s) <==> x in s
  {
    if s != [] {
      MembersIn(s[1..], x);
      assert s == [s[0]] + s[1..];
    }
  }

  lemma {:induction false} MembersAppend<K>(a: seq<K>, b: seq<K>)
    ensures Members(a + b) == Members(a) + Members(b)
  {
    if a == [] {
      assert a + b == b;
    } else {
      assert (a + b)[1..] == a[1..] + b;
      MembersAppend(a[1..], b);
    }
  }

  /** s without the elements of gone, in the same order. */
  function Keep<K(==)>(s: seq<K>, gone: set<K>): (r: seq<K>)
    ensures |r| <= |s|
  {
    if s == [] then []
    else (if s[0] in gone then [] else [s[0]]) + Keep(s[1..], gone)
  }

  /** Keep removes exactly the elements of gone. */
  lemma {:induction false} KeepMembers<K>(s: seq<K>, gone: set<K>)
    ensures Members(Keep(s, gone)) == Members(s) - gone
  {
    if s != [] {
      KeepMembers(s[1..], gone);
      var head := if s[0] in gone then [] else [s[0]];
      MembersAppend(head, Keep(s[1..], gone));
    }
  }

  lemma {:induction false} KeepDistinct<K>(s: seq<K>, gone: set<K>)
    requires Distinct(s)
    ensures Distinct(Keep(s, gone))
  {
    if s != [] {
      var rest := Keep(s[1..], gone);
      KeepDistinct(s[1..], gone);
      if s[0] in gone {
        assert Keep(s, gone) == rest;
      } else {
        assert s[0] !in s[1..] by {
          forall j | 0 <= j < |s| - 1
            ensures s[1..][j] != s[0]
          {
            assert s[1..][j] == s[j + 1];
          }
        }
        KeepMembers(s[1..], gone);
        MembersIn(s[1..], s[0]);
        MembersIn(rest, s[0]);
        DistinctCons(s[0], rest);
      }
    }
  }

  lemma DistinctCons<K>(x: K, s: seq<K>)
    requires Distinct(s) && x !in s
    ensures Distinct([x] + s)
  {
    var r := [x] + s;
    forall i, j | 0 <= i < j < |r|
      ensures r[i] != r[j]
    {
      assert r[j] == s[j - 1];
      if i > 0 {
        assert r[i] == s[i - 1];
      }
    }
  }

  lemma DistinctSnoc<K>(s: seq<K>, x: K)
    requires Distinct(s) && x !in s
    ensures Distinct(s + [x])
  {
    var r := s + [x];
    forall i, j | 0 <= i < j < |r|
      ensures r[i] != r[j]
    {
      assert r[i] == s[i];
      if j < |s| {
        assert r[j] == s[j];
      }
    }
  }

  /** The keys of a timer queue, in queue order. */
  function Keys<K(==)>(t: seq<Timer<K>>): (r: seq<K>)
    ensures |r| == |t|
    ensures forall i :: 0 <= i < |t| ==> r[i] == t[i].key
  {
    if t == [] then [] else [t[0].key] + Keys(t[1..])
  }

  /** The set of keys of a timer queue. */
  function KeySet<K(==)>(t: seq<Timer<K>>): set<K>
  {
    set i | 0 <= i < |t| :: t[i].key
  }

  /** Timers fire in queue order, so the queue is ordered by due time. */
  predicate Sorted<K(==)>(t: seq<Timer<K>>)
  {
    forall i, j :: 0 <= i < j < |t| ==> t[i].due <= t[j].due
  }

  /** t without the timers of the keys in gone (`clearTimeout`), in the same order. */
  function KeepTimers<K(==)>(t: seq<Timer<K>>, gone: set<K>): (r: seq<Timer<K>>)
    ensures |r| <= |t|
    ensures forall i :: 0 <= i < |r| ==> r[i].key !in gone && r[i] in t
  {
    if t == [] then []
    else (if t[0].key in gone then [] else [t[0]]) + KeepTimers(t[1..], gone)
  }

  /** KeepTimers keeps a lower bound on the due times. */
  lemma {:induction false} KeepTimersAbove<K>(t: seq<Timer<K>>, gone: set<K>, lo: int)
    requires forall i :: 0 <= i < |t| ==> lo <= t[i].due
    ensures forall i :: 0 <= i < |KeepTimers(t, gone)| ==> lo <= KeepTimers(t, gone)[i].due
  {
    if t != [] {
      KeepTimersAbove(t[1..], gone, lo);
    }
  }

  /** KeepTimers keeps an upper bound on the due times. */
  lemma {:induction false} KeepTimersBelow<K>(t: seq<Timer<K>>, gone: set<K>, hi: int)
    requires forall i :: 0 <= i < |t| ==> t[i].due <= hi
    ensures forall i :: 0 <= i < |KeepTimers(t, gone)| ==> KeepTimers(t, gone)[i].due <= hi
  {
    if t != [] {
      KeepTimersBelow(t[1..], gone, hi);
    }
  }

  lemma {:induction false} KeysOfKeepTimers<K>(t: seq<Timer<K>>, gone: set<K>)
    ensures Keys(KeepTimers(t, gone)) == Keep(Keys(t), gone)
  {
    if t != [] {
      KeysOfKeepTimers(t[1..], gone);
      assert Keys(t)[1..] == Keys(t[1..]);
      var head := if t[0].key in gone then [] else [t[0]];
      KeysAppend(head, KeepTimers(t[1..], gone));
    }
  }

  lemma {:induction false} KeysAppend<K>(a: seq<Timer<K>>, b: seq<Timer<K>>)
    ensures Keys(a + b) == Keys(a) + Keys(b)
  {
    if a != [] {
      assert (a + b)[1..] == a[1..] + b;
      KeysAppend(a[1..], b);
    } else {
      assert a + b == b;
    }
  }

  lemma {:induction false} KeepTimersSorted<K>(t: seq<Timer<K>>, gone: set<K>)
    requires Sorted(t)
    ensures Sorted(KeepTimers(t, gone))
  {
    if t != [] {
      KeepTimersSorted(t[1..], gone);
      KeepTimersAbove(t[1..], gone, t[0].due);
    }
  }

  /**
   * `setSourceTimeout(key)` at time now: the pending timeout of key is
   * cleared and a new one, due TIMEOUT ms later, joins the end of the queue.
   */
  function Rearm<K(==)>(t: seq<Timer<K>>, key: K, now: int): (r: seq<Timer<K>>)
    ensures 1 <= |r| <= |t| + 1 && r[|r| - 1] == Timer(key, now + TIMEOUT)
    ensures forall i :: 0 <= i < |r| - 1 ==> r[i].key != key && r[i] in t
  {
    KeepTimers(t, {key}) + [Timer(key, now + TIMEOUT)]
  }

  /** The invariant of the timer queue: distinct keys, ordered by due time, none due after clock + TIMEOUT. */
  predicate QueueValid<K(==)>(t: seq<Timer<K>>, clock: int)
  {
    && Distinct(Keys(t))
    && Sorted(t)
    && (forall i :: 0 <= i < |t| ==> t[i].due <= clock + TIMEOUT)
  }

  /**
   * Re-arming keeps the queue valid at the current time, adds key to its
   * keys and nothing else, and puts key's timer last, due TIMEOUT ms on.
   */
  lemma RearmValid<K>(t: seq<Timer<K>>, key: K, clock: int, now: int)
    requires QueueValid(t, clock) && clock <= now
    ensures QueueValid(Rearm(t, key, now), now)
    ensures Members(Keys(Rearm(t, key, now))) == Members(Keys(t)) + {key}
    ensures Rearm(t, key, now)[|Rearm(t, key, now)| - 1] == Timer(key, now + TIMEOUT)
  {
    RearmKeys(t, key, now);
    KeepDistinct(Keys(t), {key});
    KeepMembers(Keys(t), {key});
    MembersIn(Keep(Keys(t), {key}), key);
    DistinctSnoc(Keep(Keys(t), {key}), key);
    MembersAppend(Keep(Keys(t), {key}), [key]);
    assert Members([key]) == {key} + Members([key][1..]);
    RearmSorted(t, key, clock, now);
  }

  /** The keys of the re-armed queue: the others in their order, then key. */
  lemma RearmKeys<K>(t: seq<Timer<K>>, key: K, now: int)
    ensures Keys(Rearm(t, key, now)) == Keep(Keys(t), {key}) + [key]
  {
    KeysOfKeepTimers(t, {key});
    KeysAppend(KeepTimers(t, {key}), [Timer(key, now + TIMEOUT)]);
  }

  lemma RearmSorted<K>(t: seq<Timer<K>>, key: K, clock: int, now: int)
    requires QueueValid(t, clock) && clock <= now
    ensures Sorted(Rearm(t, key, now))
    ensures forall i :: 0 <= i < |Rearm(t, key, now)| ==> Rearm(t, key, now)[i].due <= now + TIMEOUT
  {
    var kept := KeepTimers(t, {key});
    var r := Rearm(t, key, now);
    KeepTimersSorted(t, {key});
    KeepTimersBelow(t, {key}, now + TIMEOUT);
    forall i, j | 0 <= i < j < |r|
      ensures r[i].due <= r[j].due
    {
      assert r[i] == kept[i];
      if j < |kept| {
        assert r[j] == kept[j];
      }
    }
  }

  /** The number of timers at the front of the queue that are due at now. */
  function DueCount<K(==)>(t: seq<Timer<K>>, now: int): (r: nat)
    ensures r <= |t|
    ensures forall i :: 0 <= i < r ==> t[i].due <= now
    ensures r < |t| ==> t[r].due > now
    ensures Sorted(t) ==> forall i :: r <= i < |t| ==> t[i].due > now
  {
    if t == [] || t[0].due > now then 0
    else
      assert Sorted(t) ==> Sorted(t[1..]);
      1 + DueCount(t[1..], now)
  }

  /**
   * A source re-armed at time heard is not among the timers due at any
   * time before heard + TIMEOUT.
   */
  lemma RearmedSurvives<K>(t: seq<Timer<K>>, key: K, clock: int, heard: int, now: int)
    requires QueueValid(t, clock) && clock <= heard && now < heard + TIMEOUT
    ensures key !in KeySet(Rearm(t, key, heard)[..DueCount(Rearm(t, key, heard), now)])
  {
    var r := Rearm(t, key, heard);
    RearmValid(t, key, clock, heard);
    var d := DueCount(r, now);
    assert d < |r|;
    forall i | 0 <= i < d
      ensures r[i].key != key
    {
      assert Keys(r)[i] != Keys(r)[|r| - 1];
    }
  }

  /** The only pending timer of t[0].key is t[0], so clearing it drops the front. */
  lemma KeepFront<K>(t: seq<Timer<K>>)
    requires t != [] && Distinct(Keys(t))
    ensures KeepTimers(t, {t[0].key}) == t[1..]
  {
    KeepNone(t[1..], {t[0].key}) by {
      forall i | 0 <= i < |t[1..]|
        ensures t[1..][i].key != t[0].key
      {
        assert Keys(t)[i + 1] != Keys(t)[0];
      }
    }
  }

  lemma {:induction false} KeepNone<K>(t: seq<Timer<K>>, gone: set<K>)
    requires forall i :: 0 <= i < |t| ==> t[i].key !in gone
    ensures KeepTimers(t, gone) == t
  {
    if t != [] {
      KeepNone(t[1..], gone);
      assert t == [t[0]] + t[1..];
    }
  }

  /** A distinct sequence has as many elements as its set. */
  lemma {:induction false} DistinctCard<K>(s: seq<K>)
    requires Distinct(s)
    ensures |Members(s)| == |s|
  {
    if s != [] {
      var rest := s[1..];
      DistinctCard(rest);
      assert s[0] !in rest by {
        forall j | 0 <= j < |rest|
          ensures rest[j] != s[0]
        {
          assert rest[j] == s[j + 1];
        }
      }
      MembersIn(rest, s[0]);
    }
  }

  /** The invariant of a table of values under keys with its insertion order and its timer queue. */
  ghost predicate TableValid<K, V>(table: map<K, V>, order: seq<K>, timers: seq<Timer<K>>, clock: int)
  {
    && Distinct(order)
    && table.Keys == Members(order)
    && QueueValid(timers, clock)
    && table.Keys == Members(Keys(timers))
  }

  /** The queue stays valid as time passes. */
  lemma QueueLater<K>(t: seq<Timer<K>>, clock: int, now: int)
    requires QueueValid(t, clock) && clock <= now
    ensures QueueValid(t, now)
  {
  }

  /** Replacing the value of a known key, and perhaps re-arming it, keeps the table valid. */
  lemma UpdateValid<K, V>(table: map<K, V>, order: seq<K>, timers: seq<Timer<K>>, clock: int,
                              now: int, key: K, value: V, rearm: bool)
    requires TableValid(table, order, timers, clock) && clock <= now && key in table
    ensures TableValid(table[key := value], order, if rearm then Rearm(timers, key, now) else timers, now)
  {
    assert table[key := value].Keys == table.Keys;
    if rearm {
      RearmValid(timers, key, clock, now);
    } else {
      QueueLater(timers, clock, now);
    }
  }

  /** Adding a new key at the end of the order, with a fresh timeout, keeps the table valid. */
  lemma InsertValid<K, V>(table: map<K, V>, order: seq<K>, timers: seq<Timer<K>>, clock: int,
                              now: int, key: K, value: V)
    requires TableValid(table, order, timers, clock) && clock <= now && key !in table
    ensures TableValid(table[key := value], order + [key], Rearm(timers, key, now), now)
  {
    RearmValid(timers, key, clock, now);
    MembersIn(order, key);
    DistinctSnoc(order, key);
    MembersAppend(order, [key]);
    assert Members([key]) == {key} + Members([key][1..]);
  }

  /** Removing a key from the table, the order and the queue keeps the table valid. */
  lemma RemoveValid<K, V>(table: map<K, V>, order: seq<K>, timers: seq<Timer<K>>, clock: int, key: K)
    requires TableValid(table, order, timers, clock) && key in table
    ensures TableValid(table - {key}, Keep(order, {key}), KeepTimers(timers, {key}), clock)
  {
    KeepDistinct(order, {key});
    KeepMembers(order, {key});
    KeysOfKeepTimers(timers, {key});
    KeepDistinct(Keys(timers), {key});
    KeepMembers(Keys(timers), {key});
    KeepTimersSorted(timers, {key});
    KeepTimersBelow(timers, {key}, clock + TIMEOUT);
  }

  /** Every key in the order of a valid table has a value. */
  lemma OrderedKeysFiled<K, V>(table: map<K, V>, order: seq<K>)
    requires table.Keys == Members(order)
    ensures forall j :: 0 <= j < |order| ==> order[j] in table
  {
    forall j | 0 <= j < |order|
      ensures order[j] in Members(order)
    {
      MembersIn(order, order[j]);
    }
  }

  /** A valid table has one entry in its order per key. */
  lemma TableCount<K, V>(table: map<K, V>, order: seq<K>)
    requires Distinct(order) && table.Keys == Members(order)
    ensures |table| == |order|
  {
    DistinctCard(order);
    assert |table| == |table.Keys|;
  }

  /** The position of x in s. */
  function IndexOf<K(==)>(s: seq<K>, x: K): (r: nat)
    requires x in s
    ensures r < |s| && s[r] == x
    ensures forall j :: 0 <= j < r ==> s[j] != x
  {
    if s[0] == x then 0 else 1 + IndexOf(s[1..], x)
  }

  /**
   * Numbering the order of a valid table (the `sources` getter) holds
   * every key under exactly one number: the one after its place in the order.
   */
  lemma NumberedOnce<K, V>(table: map<K, V>, order: seq<K>, k: K)
    requires Distinct(order) && table.Keys == Members(order) && k in table
    ensures k in order && order[IndexOf(order, k)] == k
    ensures forall j :: 0 <= j < |order| && order[j] == k ==> j == IndexOf(order, k)
  {
    MembersIn(order, k);
  }
}
