/** The LRU cache of file metadata, and what its order says about the history of touches. */
module LruCache {
  import opened Options

  // ---- The specification: recency ----

  function Without<K(==)>(keys: seq<K>, k: K): seq<K> {
    if keys == [] then []
    else (if keys[0] == k then [] else [keys[0]]) + Without(keys[1..], k)
  }

  /** The touched keys, most recently touched first, each once. */
  function Recency<K(==)>(touches: seq<K>): seq<K> {
    if touches == [] then []
    else
      var k := touches[|touches| - 1];
      [k] + Without(Recency(touches[..|touches| - 1]), k)
  }

  function Take<K>(keys: seq<K>, n: nat): seq<K> {
    if |keys| <= n then keys else keys[..n]
  }

  predicate NoDuplicates<K(==)>(keys: seq<K>) {
    forall i, j :: 0 <= i < j < |keys| ==> keys[i] != keys[j]
  }

  lemma {:induction false} WithoutMembers<K>(keys: seq<K>, k: K)
    ensures forall x :: x in Without(keys, k) <==> x in keys && x != k
    ensures k !in keys ==> Without(keys, k) == keys
  {
    if keys != [] {
      WithoutMembers(keys[1..], k);
      assert keys == [keys[0]] + keys[1..];
    }
  }

  lemma {:induction false} WithoutOnce<K>(keys: seq<K>, k: K)
    requires NoDuplicates(keys)
    ensures NoDuplicates(Without(keys, k))
    ensures |Without(keys, k)| == if k in keys then |keys| - 1 else |keys|
  {
    if keys != [] {
      var rest := keys[1..];
      WithoutOnce(rest, k);
      WithoutMembers(rest, k);
      assert keys[0] !in rest;
      assert k in keys <==> k == keys[0] || k in rest;
      assert forall i :: 0 <= i < |Without(rest, k)| ==> Without(rest, k)[i] in Without(rest, k);
    }
  }

  lemma {:induction false} RecencyMembers<K>(touches: seq<K>)
    ensures NoDuplicates(Recency(touches))
    ensures forall x :: x in Recency(touches) <==> x in touches
  {
    if touches != [] {
      var init, k := touches[..|touches| - 1], touches[|touches| - 1];
      RecencyMembers(init);
      WithoutMembers(Recency(init), k);
      WithoutOnce(Recency(init), k);
      assert touches == init + [k];
    }
  }

  /** The position of the last touch of a key. */
  function LastTouch<K(==)>(touches: seq<K>, k: K): (i: nat)
    requires k in touches
    ensures i < |touches| && touches[i] == k
    ensures forall j :: i < j < |touches| ==> touches[j] != k
  {
    if touches[|touches| - 1] == k then |touches| - 1
    else
      assert touches == touches[..|touches| - 1] + [touches[|touches| - 1]];
      LastTouch(touches[..|touches| - 1], k)
  }

  lemma LastTouchIs<K>(touches: seq<K>, k: K, i: nat)
    requires k in touches && i < |touches| && touches[i] == k && forall j :: i < j < |touches| ==> touches[j] != k
    ensures LastTouch(touches, k) == i
  {
  }

  ghost predicate ByLastTouch<K>(touches: seq<K>, keys: seq<K>) {
    && (forall k :: k in keys ==> k in touches)
    && forall i, j :: 0 <= i < j < |keys| ==> LastTouch(touches, keys[i]) > LastTouch(touches, keys[j])
  }

  lemma ByLastTouchCons<K>(touches: seq<K>, head: K, tail: seq<K>)
    requires head in touches && ByLastTouch(touches, tail)
    requires forall x :: x in tail ==> LastTouch(touches, head) > LastTouch(touches, x)
    ensures ByLastTouch(touches, [head] + tail)
  {
    var keys := [head] + tail;
    forall i, j | 0 <= i < j < |keys| ensures LastTouch(touches, keys[i]) > LastTouch(touches, keys[j]) {
      assert keys[j] == tail[j - 1] && tail[j - 1] in tail;
      assert i > 0 ==> keys[i] == tail[i - 1];
    }
  }

  lemma {:induction false} WithoutKeepsOrder<K>(touches: seq<K>, keys: seq<K>, k: K)
    requires ByLastTouch(touches, keys)
    ensures ByLastTouch(touches, Without(keys, k))
  {
    if keys != [] {
      var head, rest := keys[0], keys[1..];
      assert ByLastTouch(touches, rest) by {
        assert forall i :: 0 <= i < |rest| ==> rest[i] == keys[i + 1];
      }
      WithoutKeepsOrder(touches, rest, k);
      WithoutMembers(rest, k);
      forall x | x in Without(rest, k) ensures LastTouch(touches, head) > LastTouch(touches, x) {
        var m :| 0 <= m < |rest| && rest[m] == x;
        assert keys[m + 1] == x;
      }
      ByLastTouchCons(touches, head, Without(rest, k));
    }
  }

  /** What `Recency` means: the touched keys ordered by their last touch, the latest first. */
  lemma {:induction false} RecencyIsByLastTouch<K>(touches: seq<K>)
    ensures ByLastTouch(touches, Recency(touches))
  {
    if touches != [] {
      var n := |touches| - 1;
      var init, k := touches[..n], touches[n];
      assert touches == init + [k];
      RecencyIsByLastTouch(init);
      WithoutKeepsOrder(init, Recency(init), k);
      WithoutMembers(Recency(init), k);
      var rest := Without(Recency(init), k);
      forall x | x in rest ensures x in touches && LastTouch(touches, x) == LastTouch(init, x) {
        assert x in init;
        LastTouchIs(touches, x, LastTouch(init, x));
      }
      assert ByLastTouch(touches, rest) by {
        assert forall i :: 0 <= i < |rest| ==> rest[i] in rest;
      }
      LastTouchIs(touches, k, n);
      ByLastTouchCons(touches, k, rest);
    }
  }

  /** Keeping the `n` most recent keys, one touch at a time. */
  lemma TouchMoves<K>(touches: seq<K>, k: K, n: nat)
    requires n >= 1
    ensures Take(Recency(touches + [k]), n) ==
            [k] + Without(if k in Take(Recency(touches), n) then Take(Recency(touches), n)
                          else Take(Recency(touches), n - 1), k)
  {
    var r := Recency(touches);
    assert (touches + [k])[..|touches|] == touches;
    assert Recency(touches + [k]) == [k] + Without(r, k);
    RecencyMembers(touches);
    if k in Take(r, n) {
      MoveKept(r, k, n);
    } else {
      MoveOther(r, k, n);
    }
  }

  lemma MoveKept<K>(r: seq<K>, k: K, n: nat)
    requires NoDuplicates(r) && k in Take(r, n)
    ensures Take([k] + Without(r, k), n) == [k] + Without(Take(r, n), k)
  {
    if |r| > n {
      TakeThrough(r, k, n);
    } else {
      WithoutOnce(r, k);
    }
  }

  lemma MoveOther<K>(r: seq<K>, k: K, n: nat)
    requires n >= 1 && NoDuplicates(r) && k !in Take(r, n)
    ensures Take([k] + Without(r, k), n) == [k] + Without(Take(r, n - 1), k)
  {
    var few := Take(r, n - 1);
    if |r| >= n {
      assert few == r[..n - 1];
      assert k !in few by { assert forall x :: x in r[..n - 1] ==> x in r[..n]; }
      WithoutBeyond(r, k, n - 1);
      WithoutMembers(few, k);
    } else {
      assert few == r;
      WithoutMembers(r, k);
    }
  }

  lemma {:induction false} WithoutConcat<K>(a: seq<K>, b: seq<K>, k: K)
    ensures Without(a + b, k) == Without(a, k) + Without(b, k)
  {
    if a == [] {
      assert a + b == b;
    } else {
      WithoutConcat(a[1..], b, k);
      var head := if a[0] == k then [] else [a[0]];
      calc {
        Without(a + b, k);
        { assert (a + b)[0] == a[0] && (a + b)[1..] == a[1..] + b; }
        head + Without(a[1..] + b, k);
        head + (Without(a[1..], k) + Without(b, k));
        Without(a, k) + Without(b, k);
      }
    }
  }

  lemma TakeThrough<K>(r: seq<K>, k: K, n: nat)
    requires NoDuplicates(r) && n <= |r| && k in r[..n]
    ensures Take([k] + Without(r, k), n) == [k] + Without(r[..n], k)
  {
    assert r == r[..n] + r[n..];
    WithoutConcat(r[..n], r[n..], k);
    WithoutOnce(r[..n], k);
  }

  lemma WithoutBeyond<K>(r: seq<K>, k: K, m: nat)
    requires m <= |r| && k !in r[..m]
    ensures |Without(r, k)| >= m && Without(r, k)[..m] == r[..m]
  {
    assert r == r[..m] + r[m..];
    WithoutConcat(r[..m], r[m..], k);
    WithoutMembers(r[..m], k);
  }

  // ---- The cache as a value ----

  datatype Cache<K(==), V> = Cache(entries: map<K, V>, order: seq<K>, capacity: nat)

  function Emptied<K, V>(capacity: nat): Cache<K, V> {
    Cache(map[], [], capacity)
  }

  function AfterGet<K, V>(c: Cache<K, V>, key: K): Cache<K, V> {
    if key in c.entries then c.(order := [key] + Without(c.order, key)) else c
  }

  /** Room for one more: the least recently used entry goes when the cache is full. */
  function Evicted<K, V>(c: Cache<K, V>): Cache<K, V> {
    if |c.entries| >= c.capacity && c.order != [] then
      var last := |c.order| - 1;
      c.(entries := c.entries - {c.order[last]}, order := c.order[..last])
    else c
  }

  function AfterPut<K, V>(c: Cache<K, V>, key: K, value: V): Cache<K, V> {
    if key in c.entries then c.(entries := c.entries[key := value], order := [key] + Without(c.order, key))
    else
      var room := Evicted(c);
      room.(entries := room.entries[key := value], order := [key] + room.order)
  }

  datatype Event<K(==), V> = Got(key: K) | Stored(key: K, value: V)

  function Replay<K, V>(capacity: nat, events: seq<Event<K, V>>): Cache<K, V> {
    if events == [] then Emptied(capacity)
    else
      var before := Replay(capacity, events[..|events| - 1]);
      match events[|events| - 1]
      case Got(key) => AfterGet(before, key)
      case Stored(key, value) => AfterPut(before, key, value)
  }

  /** Capacity 0 holds one entry: the first `put` finds nothing to evict. */
  function Slots(capacity: nat): nat {
    if capacity == 0 then 1 else capacity
  }

  /** The touches of a history: every put, and every get of one of the most recently touched keys. */
  function Touches<K(==), V>(capacity: nat, events: seq<Event<K, V>>): seq<K> {
    if events == [] then []
    else
      var before := Touches(capacity, events[..|events| - 1]);
      match events[|events| - 1]
      case Got(key) => if key in Take(Recency(before), Slots(capacity)) then before + [key] else before
      case Stored(key, _) => before + [key]
  }

  /** The last value put under a key. */
  function LastStored<K(==), V>(events: seq<Event<K, V>>, key: K): Option<V> {
    if events == [] then None
    else
      var e := events[|events| - 1];
      if e.Stored? && e.key == key then Some(e.value) else LastStored(events[..|events| - 1], key)
  }

  /** The order lists every entry once. */
  ghost predicate Agree<K(!new), V>(c: Cache<K, V>) {
    && NoDuplicates(c.order)
    && (forall key :: key in c.order <==> key in c.entries)
    && |c.order| == |c.entries|
  }

  ghost predicate Exact<K(!new), V>(c: Cache<K, V>, events: seq<Event<K, V>>) {
    && Agree(c)
    && c.order == Take(Recency(Touches(c.capacity, events)), Slots(c.capacity))
    && (forall key :: key in c.entries ==> LastStored(events, key) == Some(c.entries[key]))
  }

  /** After any history the order is exactly the most recently touched keys, newest first, with the last values put. */
  lemma {:induction false} HistoryIsExact<K(!new), V>(capacity: nat, events: seq<Event<K, V>>)
    ensures Replay(capacity, events).capacity == capacity
    ensures Exact(Replay(capacity, events), events)
  {
    if events != [] {
      var init, e := events[..|events| - 1], events[|events| - 1];
      HistoryIsExact(capacity, init);
      var c := Replay(capacity, init);
      assert events == init + [e];
      if e.Got? {
        GetStaysExact(c, init, e.key);
        assert Replay(capacity, events) == AfterGet(c, e.key);
      } else {
        PutStaysExact(c, init, e.key, e.value);
        assert Replay(capacity, events) == AfterPut(c, e.key, e.value);
      }
    }
  }

  lemma TouchStaysExact<K>(order: seq<K>, recent: seq<K>, recentAfter: seq<K>, key: K, slots: nat)
    requires order == Take(recent, slots) && NoDuplicates(order) && key in order
    requires Take(recentAfter, slots) == [key] + Without(Take(recent, slots), key)
    ensures var moved := [key] + Without(order, key);
            && moved == Take(recentAfter, slots)
            && NoDuplicates(moved) && |moved| == |order|
            && (forall k :: k in moved <==> k in order)
  {
    WithoutMembers(order, key);
    WithoutOnce(order, key);
  }

  lemma GetStaysExact<K(!new), V>(c: Cache<K, V>, events: seq<Event<K, V>>, key: K)
    requires Exact(c, events)
    ensures Exact(AfterGet(c, key), events + [Got(key)])
  {
    var longer := events + [Got(key)];
    assert longer[..|events|] == events;
    if key in c.entries {
      var touches, slots := Touches(c.capacity, events), Slots(c.capacity);
      TouchMoves(touches, key, slots);
      TouchStaysExact(c.order, Recency(touches), Recency(touches + [key]), key, slots);
    }
  }

  lemma PutStaysExact<K(!new), V>(c: Cache<K, V>, events: seq<Event<K, V>>, key: K, value: V)
    requires Exact(c, events)
    ensures Exact(AfterPut(c, key, value), events + [Stored(key, value)])
  {
    var d, longer := AfterPut(c, key, value), events + [Stored(key, value)];
    var touches := Touches(c.capacity, events);
    TouchesAfterPut(c.capacity, events, key, value);
    PutOrder(c, touches, key, value);
    LastAfterPut(events, key, value, d.entries, c.entries);
    assert d.capacity == c.capacity;
  }

  lemma TouchesAfterPut<K, V>(capacity: nat, events: seq<Event<K, V>>, key: K, value: V)
    ensures Touches(capacity, events + [Stored(key, value)]) == Touches(capacity, events) + [key]
  {
    assert (events + [Stored(key, value)])[..|events|] == events;
  }

  lemma PutOrder<K(!new), V>(c: Cache<K, V>, touches: seq<K>, key: K, value: V)
    requires Agree(c) && c.order == Take(Recency(touches), Slots(c.capacity))
    ensures var d := AfterPut(c, key, value);
            && Agree(d) && d.order == Take(Recency(touches + [key]), Slots(c.capacity))
            && d.entries.Keys <= c.entries.Keys + {key}
            && (forall k :: k in d.entries ==> d.entries[k] == if k == key then value else c.entries[k])
  {
    var recent, recentAfter := Recency(touches), Recency(touches + [key]);
    TouchMoves(touches, key, Slots(c.capacity));
    if key in c.entries {
      PutKnownKey(c, recent, recentAfter, key, value);
    } else {
      PutNewKey(c, recent, recentAfter, key, value);
    }
  }

  lemma PutKnownKey<K(!new), V>(c: Cache<K, V>, recent: seq<K>, recentAfter: seq<K>, key: K, value: V)
    requires Agree(c) && c.order == Take(recent, Slots(c.capacity)) && key in c.entries
    requires Take(recentAfter, Slots(c.capacity)) == [key] + Without(c.order, key)
    ensures var d := AfterPut(c, key, value);
            && Agree(d) && d.order == Take(recentAfter, Slots(c.capacity))
            && d.entries.Keys <= c.entries.Keys + {key}
            && (forall k :: k in d.entries ==> d.entries[k] == if k == key then value else c.entries[k])
  {
    TouchStaysExact(c.order, recent, recentAfter, key, Slots(c.capacity));
    assert c.entries[key := value].Keys == c.entries.Keys;
    assert |c.entries[key := value]| == |c.entries[key := value].Keys| == |c.entries|;
  }

  lemma PutNewKey<K(!new), V>(c: Cache<K, V>, recent: seq<K>, recentAfter: seq<K>, key: K, value: V)
    requires Agree(c) && c.order == Take(recent, Slots(c.capacity)) && key !in c.entries
    requires Take(recentAfter, Slots(c.capacity)) == [key] + Without(Take(recent, Slots(c.capacity) - 1), key)
    ensures var d := AfterPut(c, key, value);
            && Agree(d) && d.order == Take(recentAfter, Slots(c.capacity))
            && d.entries.Keys <= c.entries.Keys + {key}
            && (forall k :: k in d.entries ==> d.entries[k] == if k == key then value else c.entries[k])
  {
    EvictedAgrees(c);
    RoomIsRecent(c, recent);
    var room := Evicted(c);
    assert key !in room.order;
    WithoutMembers(room.order, key);
    InsertedAgrees(room, key, value);
  }

  lemma RoomIsRecent<K(!new), V>(c: Cache<K, V>, recent: seq<K>)
    requires Agree(c) && c.order == Take(recent, Slots(c.capacity))
    ensures Evicted(c).order == Take(recent, Slots(c.capacity) - 1)
  {
  }

  lemma EvictedAgrees<K(!new), V>(c: Cache<K, V>)
    requires Agree(c)
    ensures Agree(Evicted(c)) && Evicted(c).entries.Keys <= c.entries.Keys
    ensures forall k :: k in Evicted(c).entries ==> Evicted(c).entries[k] == c.entries[k]
  {
    if |c.entries| >= c.capacity && c.order != [] {
      AllButLast(c.order);
      var last := c.order[|c.order| - 1];
      assert last in c.order;
      assert |c.entries.Keys - {last}| == |c.entries.Keys| - 1;
      assert Evicted(c).entries.Keys == c.entries.Keys - {last};
    }
  }

  lemma AllButLast<K(!new)>(order: seq<K>)
    requires NoDuplicates(order) && order != []
    ensures NoDuplicates(order[..|order| - 1])
    ensures forall k :: k in order[..|order| - 1] <==> k in order && k != order[|order| - 1]
  {
    var rest, last := order[..|order| - 1], order[|order| - 1];
    assert order == rest + [last];
  }

  lemma InsertedAgrees<K(!new), V>(room: Cache<K, V>, key: K, value: V)
    requires Agree(room) && key !in room.entries
    ensures Agree(room.(entries := room.entries[key := value], order := [key] + room.order))
  {
    assert room.entries[key := value].Keys == room.entries.Keys + {key};
  }

  lemma LastAfterPut<K(!new), V>(events: seq<Event<K, V>>, key: K, value: V, entries: map<K, V>, before: map<K, V>)
    requires forall k :: k in before ==> LastStored(events, k) == Some(before[k])
    requires entries.Keys <= before.Keys + {key}
    requires forall k :: k in entries ==> entries[k] == if k == key then value else before[k]
    ensures forall k :: k in entries ==> LastStored(events + [Stored(key, value)], k) == Some(entries[k])
  {
    assert (events + [Stored(key, value)])[..|events|] == events;
  }

  // ---- The cache ----

  class LruCache<V> {
    var entries: map<string, V>
    var order: seq<string>
    const capacity: nat
    ghost var events: seq<Event<string, V>>

    constructor (capacity: nat)
      ensures this.capacity == capacity && events == [] && Valid()
    {
      this.capacity := capacity;
      entries, order, events := map[], [], [];
    }

    ghost function Contents(): Cache<string, V>
      reads this
    {
      Cache(entries, order, capacity)
    }

    /** The fields are what the history of calls leaves. */
    ghost predicate Valid()
      reads this
      ensures Valid() ==> Exact(Contents(), events)
    {
      HistoryIsExact(capacity, events);
      Contents() == Replay(capacity, events)
    }

    method Get(key: string) returns (value: Option<V>)
      requires Valid()
      modifies this
      ensures Valid() && events == old(events) + [Got(key)]
      ensures value == if key in old(entries) then LastStored(old(events), key) else None
      ensures value.Some? <==> key in Take(Recency(Touches(capacity, old(events))), Slots(capacity))
    {
      ghost var before := Contents();
      value := None;
      if key in entries {
        MoveToFront(key);
        value := Some(entries[key]);
      }
      events := events + [Got(key)];
      assert events[..|events| - 1] == old(events);
    }

    method Put(key: string, value: V)
      requires Valid()
      modifies this
      ensures Valid() && events == old(events) + [Stored(key, value)]
    {
      ghost var before := Contents();
      if key in entries {
        entries := entries[key := value];
        MoveToFront(key);
      } else {
        if |entries| >= capacity && order != [] {
          var evicted := order[|order| - 1];
          order := order[..|order| - 1];
          entries := entries - {evicted};
        }
        assert Contents() == Evicted(before);
        entries := entries[key := value];
        order := [key] + order;
      }
      assert Contents() == AfterPut(before, key, value);
      events := events + [Stored(key, value)];
      assert events[..|events| - 1] == old(events);
    }

    method MoveToFront(key: string)
      requires NoDuplicates(order) && key in order
      modifies this`order
      ensures order == [key] + Without(old(order), key)
    {
      var pos := 0;
      while order[pos] != key
        invariant 0 <= pos < |order| && key in order[pos..]
        decreases |order| - pos
      {
        pos := pos + 1;
      }
      RemoveAt(order, key, pos);
      order := order[..pos] + order[pos + 1..];
      order := [key] + order;
    }
  }

  lemma {:induction false} RemoveAt<K>(keys: seq<K>, k: K, pos: nat)
    requires NoDuplicates(keys) && pos < |keys| && keys[pos] == k
    ensures Without(keys, k) == keys[..pos] + keys[pos + 1..]
  {
    var rest := keys[1..];
    if pos == 0 {
      assert k !in rest;
      WithoutMembers(rest, k);
    } else {
      RemoveAt(rest, k, pos - 1);
      assert keys[..pos] == [keys[0]] + rest[..pos - 1] && keys[pos + 1..] == rest[pos..];
    }
  }
}
