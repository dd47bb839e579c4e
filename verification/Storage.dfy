/** In-memory storage: an ordered cache over a pool of entries, with eviction. */
module Storage {
  import opened Bytes
  import opened NameComponents
  import opened Names
  import opened Packets
  import opened Eviction

  const INIT_CAPACITY: nat := 16

  /** A pool entry in use: which entry object it is, its packet, and its freshness timer. */
  datatype Entry = Entry(id: nat, data: Data, isFresh: bool, timer: bool)

  function Full(e: Entry): Name {
    FullName(e.data)
  }

  /** The ordered_unique index by full name. */
  predicate Sorted(cache: seq<Entry>) {
    forall i, j :: 0 <= i < j < |cache| ==> Before(Full(cache[i]), Full(cache[j]))
  }

  predicate Stored(cache: seq<Entry>, name: Name) {
    exists i :: 0 <= i < |cache| && Full(cache[i]) == name
  }

  // ---- searching ----

  ghost predicate IsLowerBound(cache: seq<Entry>, name: Name, p: nat) {
    && p <= |cache|
    && (forall i :: 0 <= i < p ==> Before(Full(cache[i]), name))
    && (forall i :: p <= i < |cache| ==> !Before(Full(cache[i]), name))
  }

  method LowerBound(cache: seq<Entry>, name: Name) returns (p: nat)
    requires Sorted(cache)
    ensures IsLowerBound(cache, name, p)
  {
    hide NameOrder;
    p := 0;
    while p < |cache| && Before(Full(cache[p]), name)
      invariant p <= |cache|
      invariant forall i :: 0 <= i < p ==> Before(Full(cache[i]), name)
    {
      p := p + 1;
    }
    forall i | p < i < |cache|
      ensures !Before(Full(cache[i]), name)
    {
      CanonicalOrderIsTotal(Full(cache[p]), Full(cache[i]), name);
    }
  }

  method Find(cache: seq<Entry>, name: Name) returns (p: Option<nat>)
    requires Sorted(cache)
    ensures p.Some? <==> Stored(cache, name)
    ensures p.Some? ==> p.value < |cache| && Full(cache[p.value]) == name
  {
    hide NameOrder;
    var q := LowerBound(cache, name);
    if q < |cache| && Full(cache[q]) == name {
      return Some(q);
    }
    forall i | 0 <= i < |cache|
      ensures Full(cache[i]) != name
    {
      CanonicalOrderIsTotal(name, name, name);
      if i > q {
        CanonicalOrderIsTotal(Full(cache[q]), Full(cache[i]), name);
      }
    }
    p := None;
  }

  /** What a search may return: matching, and fresh where the Interest asks for it. */
  predicate Eligible(e: Entry, interest: Interest) {
    MatchesData(interest, e.data) && (interest.mustBeFresh ==> e.isFresh)
  }

  /** A linear scan's answer: the least eligible entry, none exactly when there is none. */
  ghost predicate BestMatch(cache: seq<Entry>, interest: Interest, r: Option<nat>) {
    match r
    case None => forall i :: 0 <= i < |cache| ==> !Eligible(cache[i], interest)
    case Some(k) =>
      && k < |cache| && Eligible(cache[k], interest)
      && forall i :: 0 <= i < |cache| && i != k && Eligible(cache[i], interest) ==>
                       Before(Full(cache[k]), Full(cache[i]))
  }

  method FindNextFresh(cache: seq<Entry>, start: nat) returns (p: nat)
    requires start <= |cache|
    ensures start <= p <= |cache| && (p < |cache| ==> cache[p].isFresh)
    ensures forall i :: start <= i < p ==> !cache[i].isFresh
  {
    p := start;
    while p < |cache| && !cache[p].isFresh
      invariant start <= p <= |cache|
      invariant forall i :: start <= i < p ==> !cache[i].isFresh
    {
      p := p + 1;
    }
  }

  /** Beyond an entry that is at or after the name but not under it, nothing matches. */
  lemma NothingBeyond(cache: seq<Entry>, interest: Interest, c: nat, i: nat)
    requires Sorted(cache) && c <= i < |cache|
    requires !Before(Full(cache[c]), interest.name) && !(interest.name <= Full(cache[c]))
    ensures !MatchesData(interest, cache[i].data)
  {
    hide NameOrder, MatchesData;
    if MatchesData(interest, cache[i].data) {
      MatchIsUnderName(interest, cache[i].data);
      OrderIsAntisymmetric(Full(cache[c]), interest.name);
      OrderIsAntisymmetric(Full(cache[c]), Full(cache[c]));
      PrefixIsConvex(interest.name, Full(cache[c]), Full(cache[i]));
    }
  }

  /** selectChild: from the entry just before the name, step over stale entries where freshness is
      asked for, and go right while under the name. */
  method SelectChild(cache: seq<Entry>, interest: Interest, start: nat) returns (r: Option<nat>)
    requires Sorted(cache) && start < |cache|
    requires forall i :: 0 <= i < start ==> !Eligible(cache[i], interest)
    requires start != 0 ==> Before(Full(cache[start]), interest.name)
    requires forall i :: start < i < |cache| ==> !Before(Full(cache[i]), interest.name)
    ensures BestMatch(cache, interest, r)
  {
    hide NameOrder, MatchesData;
    var startingPoint := start;
    if interest.mustBeFresh {
      startingPoint := FindNextFresh(cache, startingPoint);
    }
    if startingPoint == |cache| {
      return None;
    }
    if MatchesData(interest, cache[startingPoint].data) {
      return Some(startingPoint);
    }
    var candidate := startingPoint;
    while true
      invariant start <= candidate < |cache|
      invariant forall i :: 0 <= i <= candidate ==> !Eligible(cache[i], interest)
      decreases |cache| - candidate
    {
      candidate := candidate + 1;
      if interest.mustBeFresh {
        candidate := FindNextFresh(cache, candidate);
      }
      if candidate < |cache| && interest.name <= Full(cache[candidate]) {
        if MatchesData(interest, cache[candidate].data) {
          return Some(candidate);
        }
      } else {
        forall i | candidate <= i < |cache|
          ensures !MatchesData(interest, cache[i].data)
        {
          NothingBeyond(cache, interest, candidate, i);
        }
        break;
      }
    }
    r := None;
  }

  /** The search of find(Interest) among entries none of which has the Interest's name as full name. */
  method Search(cache: seq<Entry>, interest: Interest) returns (r: Option<nat>)
    requires Sorted(cache) && !Stored(cache, interest.name)
    ensures BestMatch(cache, interest, r)
  {
    hide NameOrder, MatchesData;
    var p := LowerBound(cache, interest.name);
    forall i | 0 <= i < p
      ensures !MatchesData(interest, cache[i].data)
    {
      if MatchesData(interest, cache[i].data) {
        MatchIsUnderName(interest, cache[i].data);
        PrefixIsNotAfter(interest.name, Full(cache[i]));
        OrderIsAntisymmetric(interest.name, Full(cache[i]));
      }
    }
    if p == |cache| {
      return None;
    }
    r := SelectChild(cache, interest, if p != 0 then p - 1 else p);
  }

  // ---- the pool ----

  function Ids(cache: seq<Entry>): set<nat> {
    set e | e in cache :: e.id
  }

  /** Every entry object is in use once, or free once, or not allocated yet. */
  ghost predicate Pooled(cache: seq<Entry>, free: seq<nat>, nextId: nat) {
    && (forall i, j :: 0 <= i < j < |cache| ==> cache[i].id != cache[j].id)
    && (forall i, j :: 0 <= i < j < |free| ==> free[i] != free[j])
    && (forall i, j :: 0 <= i < |cache| && 0 <= j < |free| ==> cache[i].id != free[j])
    && (forall i :: 0 <= i < |cache| ==> cache[i].id < nextId)
    && (forall i :: 0 <= i < |free| ==> free[i] < nextId)
  }

  /** The log is a history whose residents are the entries in use. */
  ghost predicate Logged(cache: seq<Entry>, log: seq<Event>) {
    Eviction.WellFormed(log) && Residents(log) == Ids(cache)
  }

  function Without(cache: seq<Entry>, p: nat): seq<Entry>
    requires p < |cache|
  {
    cache[..p] + cache[p + 1..]
  }

  lemma IdsOfConcat(a: seq<Entry>, b: seq<Entry>)
    ensures Ids(a + b) == Ids(a) + Ids(b)
  {
    forall x | x in Ids(a) + Ids(b)
      ensures x in Ids(a + b)
    {
      var e :| (e in a || e in b) && e.id == x;
      assert e in a + b;
    }
  }

  lemma IdsAround(cache: seq<Entry>, p: nat, e: Entry)
    requires p <= |cache|
    ensures Ids(cache[..p] + [e] + cache[p..]) == Ids(cache) + {e.id}
  {
    assert cache == cache[..p] + cache[p..];
    IdsOfConcat(cache[..p], cache[p..]);
    IdsOfConcat(cache[..p] + [e], cache[p..]);
    IdsOfConcat(cache[..p], [e]);
    assert e in [e];
  }

  lemma DropKeepsOrder(cache: seq<Entry>, free: seq<nat>, nextId: nat, p: nat)
    requires Sorted(cache) && Pooled(cache, free, nextId) && p < |cache|
    ensures Sorted(Without(cache, p)) && Pooled(Without(cache, p), free + [cache[p].id], nextId)
  {
    hide Before, Full;
    var rest := Without(cache, p);
    assert forall i :: 0 <= i < |rest| ==> rest[i] == cache[if i < p then i else i + 1];
  }

  lemma DropKeeps(cache: seq<Entry>, free: seq<nat>, nextId: nat, log: seq<Event>, p: nat)
    requires Sorted(cache) && Pooled(cache, free, nextId) && Logged(cache, log) && p < |cache|
    ensures Sorted(Without(cache, p)) && Pooled(Without(cache, p), free + [cache[p].id], nextId)
    ensures Logged(Without(cache, p), log + [Dropped(cache[p].id)])
  {
    DropKeepsOrder(cache, free, nextId, p);
    var (rest, e) := (Without(cache, p), cache[p]);
    assert cache == rest[..p] + [e] + rest[p..];
    IdsAround(rest, p, e);
    assert e.id !in Ids(rest);
    assert (log + [Dropped(e.id)])[..|log|] == log;
  }

  lemma InsertKeepsOrder(cache: seq<Entry>, p: nat, e: Entry)
    requires Sorted(cache) && !Stored(cache, Full(e)) && IsLowerBound(cache, Full(e), p)
    ensures Sorted(cache[..p] + [e] + cache[p..])
  {
    hide NameOrder;
    var cache' := cache[..p] + [e] + cache[p..];
    assert forall i :: 0 <= i < |cache'| ==>
      cache'[i] == if i < p then cache[i] else if i == p then e else cache[i - 1];
    forall i | p <= i < |cache|
      ensures Before(Full(e), Full(cache[i]))
    {
      CanonicalOrderIsTotal(Full(e), Full(cache[i]), Full(e));
    }
  }

  lemma InsertKeepsPool(cache: seq<Entry>, free: seq<nat>, nextId: nat, p: nat, e: Entry)
    requires Pooled(cache, free, nextId) && p <= |cache| && free != [] && e.id == free[|free| - 1]
    ensures Pooled(cache[..p] + [e] + cache[p..], free[..|free| - 1], nextId)
  {
    var cache' := cache[..p] + [e] + cache[p..];
    assert forall i :: 0 <= i < |cache'| ==>
      cache'[i] == if i < p then cache[i] else if i == p then e else cache[i - 1];
  }

  lemma InsertKeeps(cache: seq<Entry>, free: seq<nat>, nextId: nat, log: seq<Event>, p: nat, e: Entry)
    requires Sorted(cache) && Pooled(cache, free, nextId) && Logged(cache, log)
    requires free != [] && e.id == free[|free| - 1] && !Stored(cache, Full(e)) && IsLowerBound(cache, Full(e), p)
    ensures var cache' := cache[..p] + [e] + cache[p..];
      && Sorted(cache') && Pooled(cache', free[..|free| - 1], nextId)
      && Logged(cache', log + [Inserted(e.id)])
  {
    hide Before, Full, Stored;
    InsertKeepsOrder(cache, p, e);
    InsertKeepsPool(cache, free, nextId, p, e);
    IdsAround(cache, p, e);
    assert e.id !in Ids(cache);
    assert (log + [Inserted(e.id)])[..|log|] == log;
  }

  /** `cache'` holds the entries of `cache`, without the evicted one, and `e`. */
  ghost predicate IsPlus(cache': seq<Entry>, cache: seq<Entry>, evicted: Option<nat>, e: Entry) {
    forall f :: f in cache' <==> f == e || (f in cache && evicted != Some(f.id))
  }

  lemma WithoutMembers(cache: seq<Entry>, p: nat)
    requires p < |cache| && forall i, j :: 0 <= i < j < |cache| ==> cache[i].id != cache[j].id
    ensures forall f :: f in Without(cache, p) <==> f in cache && f.id != cache[p].id
  {
    var rest := Without(cache, p);
    assert forall i :: 0 <= i < |rest| ==> rest[i] == cache[if i < p then i else i + 1];
    forall f | f in cache && f.id != cache[p].id
      ensures f in rest
    {
      var i :| 0 <= i < |cache| && cache[i] == f;
      assert rest[if i < p then i else i - 1] == f;
    }
  }

  /** The capacity when room is made: a full pool below the limit is doubled, up to the limit, and never below 16. */
  function PoolAfter(nPackets: nat, capacity: nat, limit: nat): nat {
    if nPackets < capacity || capacity == limit then capacity
    else
      var wanted := if limit < 2 * capacity then limit else 2 * capacity;
      if wanted < 16 then 16 else wanted
  }

  datatype Outcome = Added | Duplicate | NoFreeEntry

  class InMemoryStorage {
    const policy: Policy
    const limit: nat
    const hasScheduler: bool
    var cache: seq<Entry>
    var free: seq<nat>
    var nPackets: nat
    var capacity: nat
    var index: seq<Slot>
    var nextId: nat
    ghost var log: seq<Event>

    /** What holds even between two steps of one operation. */
    ghost predicate Consistent()
      reads this
    {
      && Sorted(cache) && nPackets == |cache|
      && Pooled(cache, free, nextId)
      && Logged(cache, log) && index == Replay(policy, log)
    }

    ghost predicate Valid()
      reads this
    {
      && Consistent() && nPackets + |free| == capacity
      && (if limit >= INIT_CAPACITY then INIT_CAPACITY <= capacity <= limit
          else capacity == limit || (capacity == INIT_CAPACITY && limit > 0))
    }

    constructor (policy: Policy, limit: nat, hasScheduler: bool)
      ensures Valid() && cache == [] && log == []
      ensures this.policy == policy && this.limit == limit && this.hasScheduler == hasScheduler
      ensures capacity == if limit < 16 then limit else 16
    {
      this.policy, this.limit, this.hasScheduler := policy, limit, hasScheduler;
      cache, free, nPackets, index, nextId, log := [], [], 0, [], 0, [];
      capacity := if INIT_CAPACITY > limit then limit else INIT_CAPACITY;
      new;
      for i := 0 to capacity
        invariant Pooled([], free, nextId) && |free| == i
        invariant cache == [] && log == [] && index == [] && nPackets == 0
        invariant capacity == if INIT_CAPACITY > limit then limit else INIT_CAPACITY
        modifies this`free, this`nextId
      {
        free, nextId := free + [nextId], nextId + 1;
      }
    }

    method FreeEntry(p: nat)
      requires p < |cache| == nPackets
      modifies this`cache, this`free, this`nPackets
      ensures cache == Without(old(cache), p) && free == old(free) + [old(cache[p].id)]
      ensures nPackets == old(nPackets) - 1
    {
      free := free + [cache[p].id];
      nPackets := nPackets - 1;
      cache := cache[..p] + cache[p + 1..];
    }

    method EraseImpl(name: Name)
      requires Sorted(cache) && |cache| == nPackets
      modifies this`cache, this`free, this`nPackets
      ensures Stored(old(cache), name) ==>
                exists p :: 0 <= p < |old(cache)| && Full(old(cache)[p]) == name &&
                            cache == Without(old(cache), p) && free == old(free) + [old(cache)[p].id] &&
                            nPackets == old(nPackets) - 1
      ensures !Stored(old(cache), name) ==> cache == old(cache) && free == old(free) && nPackets == old(nPackets)
    {
      var p := Find(cache, name);
      if p.Some? {
        FreeEntry(p.value);
      }
    }

    /** The entry object with identity `id`. */
    method Deref(id: nat) returns (p: nat)
      requires id in Ids(cache)
      ensures p < |cache| && cache[p].id == id
    {
      ghost var e :| e in cache && e.id == id;
      ghost var k :| 0 <= k < |cache| && cache[k] == e;
      p := 0;
      while cache[p].id != id
        invariant p <= k
        decreases k - p
      {
        p := p + 1;
      }
    }

    /** evictItem: drop the packet at the head of the cleanup index, if there is one. */
    method EvictItem() returns (ok: bool, ghost victim: nat)
      requires Consistent()
      modifies this`cache, this`free, this`nPackets, this`index, this`log
      ensures Consistent() && ok == (!policy.Persistent? && old(nPackets) > 0)
      ensures nPackets + |free| == old(nPackets + |free|)
      ensures !ok ==> cache == old(cache) && free == old(free) && log == old(log)
      ensures ok ==>
                && victim < |old(cache)| && IsVictim(policy, old(log), old(cache)[victim].id)
                && cache == Without(old(cache), victim) && log == old(log) + [Dropped(old(cache)[victim].id)]
    {
      hide IsVictim, Pooled, Logged, Replay, Sorted, Stored, Full, Remove;
      victim := 0;
      if policy.Persistent? {
        PersistentIndexIsEmpty(log);
        return false, 0;
      }
      ResidentsAreIds(cache, log);
      HeadIsVictim(policy, log);
      if index == [] {
        assert nPackets > 0 ==> cache[0].id in Ids(cache);
        return false, 0;
      }
      var q := Deref(index[0].entry);
      DropKeeps(cache, free, nextId, log, q);
      DistinctFullNames(cache, q);
      ReplaySnoc(policy, log, Dropped(index[0].entry));
      RemoveHead(index);
      log := log + [Dropped(index[0].entry)];
      EraseImpl(Full(cache[q]));
      index := index[1..];
      ok, victim := true, q;
    }

    /** setCapacity: never below the initial capacity; evict down to it, then grow or shrink the pool. */
    method SetCapacity(newCapacity: nat) returns (ok: bool)
      requires Consistent() && nPackets + |free| == capacity
      modifies this
      ensures Consistent() && capacity == if newCapacity < 16 then 16 else newCapacity
      ensures ok <==> !(policy.Persistent? && old(nPackets) > capacity)
      ensures ok ==> nPackets + |free| == capacity
      ensures ok && old(nPackets) > capacity ==> nPackets == capacity
      ensures old(nPackets) <= capacity ==> cache == old(cache) && log == old(log)
      ensures old(log) <= log && forall e :: e in cache ==> e in old(cache)
    {
      var oldCapacity := capacity;
      capacity := if newCapacity < INIT_CAPACITY then INIT_CAPACITY else newCapacity;
      if nPackets > capacity {
        var nAllowedFailures: int := (nPackets as int) - capacity;
        while nPackets > capacity
          invariant Consistent() && nPackets + |free| == oldCapacity && nPackets >= capacity
          invariant capacity == if newCapacity < INIT_CAPACITY then INIT_CAPACITY else newCapacity
          invariant policy.Persistent? ==> nPackets == old(nPackets)
          invariant old(log) <= log && forall e :: e in cache ==> e in old(cache)
          decreases nPackets, nAllowedFailures
        {
          var evicted, _ := EvictItem();
          if !evicted {
            nAllowedFailures := nAllowedFailures - 1;
            if nAllowedFailures < 0 {
              return false;
            }
          }
        }
      }
      ResizePool(oldCapacity);
      ok := true;
    }

    method ResizePool(oldCapacity: nat)
      requires Consistent() && nPackets + |free| == oldCapacity && nPackets <= capacity
      modifies this`free, this`nextId
      ensures Consistent() && nPackets + |free| == capacity
    {
      if capacity >= oldCapacity {
        for i := oldCapacity to capacity
          invariant Pooled(cache, free, nextId) && nPackets + |free| == i
        {
          free, nextId := free + [nextId], nextId + 1;
        }
      } else {
        for i := oldCapacity downto capacity
          invariant Pooled(cache, free, nextId) && nPackets + |free| == i
        {
          free := free[..|free| - 1];
        }
      }
    }

    /** Take a free entry for `data`. */
    method Store(data: Data, window: int) returns (ghost p: nat, ghost e: Entry)
      requires Consistent() && free != [] && !Stored(cache, FullName(data))
      modifies this`cache, this`free, this`nPackets, this`index, this`log
      ensures Consistent() && nPackets == old(nPackets) + 1 && |free| == |old(free)| - 1
      ensures p <= |old(cache)| && cache == old(cache)[..p] + [e] + old(cache)[p..]
      ensures e.id == old(free[|free| - 1]) && IsNew(e, data, window) && log == old(log) + [Inserted(e.id)]
    {
      hide NameOrder, Sorted, Pooled, Logged, Replay;
      var entry := Entry(free[|free| - 1], data, true, hasScheduler && window > 0);
      var q := LowerBound(cache, FullName(data));
      InsertKeeps(cache, free, nextId, log, q, entry);
      free := free[..|free| - 1];
      nPackets := nPackets + 1;
      cache := cache[..q] + [entry] + cache[q..];
      ReplaySnoc(policy, log, Inserted(entry.id));
      index := AfterInsert(policy, index, entry.id);
      log := log + [Inserted(entry.id)];
      p, e := q, entry;
    }

    method MakeRoom() returns (ghost evicted: Option<nat>)
      requires Valid()
      modifies this
      ensures Valid()
      ensures free == [] <==>
                && old(nPackets >= capacity)
                && (old(capacity) > limit || old(capacity) == 0 || (policy.Persistent? && old(capacity) == limit))
      ensures evicted.None? ==> cache == old(cache) && log == old(log)
      ensures evicted.Some? ==>
                && IsVictim(policy, old(log), evicted.value) && log == old(log) + [Dropped(evicted.value)]
                && forall f :: f in cache <==> f in old(cache) && f.id != evicted.value
      ensures free == [] ==> evicted.None?
      ensures free != [] ==> evicted.None? == old(nPackets < capacity || capacity < limit)
      ensures capacity == PoolAfter(old(nPackets), old(capacity), limit)
    {
      hide NameOrder, Sorted, Logged, IsVictim, Replay;
      evicted := None;
      var doesReachLimit := limit == capacity;
      if nPackets >= capacity && !doesReachLimit {
        var _ := SetCapacity(if 2 * capacity <= limit then 2 * capacity else limit);
      }
      if nPackets >= capacity && doesReachLimit {
        var ok, v := EvictItem();
        if ok {
          evicted := Some(old(cache)[v].id);
          WithoutMembers(old(cache), v);
        }
      }
    }

    /** insert. When the packet is new: double a full pool below the limit, evict from a full pool at
        the limit, take a free entry. There is none exactly when the pool is full and either above
        the limit, or at a limit of zero, or at the limit of a store that does not evict. */
    method Insert(data: Data, window: int) returns (outcome: Outcome, ghost evicted: Option<nat>)
      requires Valid()
      modifies this
      ensures Valid() && old(log) <= log
      ensures outcome.Duplicate? <==> Stored(old(cache), FullName(data))
      ensures outcome.NoFreeEntry? <==>
                && !Stored(old(cache), FullName(data)) && old(nPackets >= capacity)
                && (old(capacity) > limit || old(capacity) == 0 || (policy.Persistent? && old(capacity) == limit))
      ensures !outcome.Added? ==> cache == old(cache) && log == old(log)
      ensures outcome.Added? ==>
                exists e :: IsNew(e, data, window) && IsPlus(cache, old(cache), evicted, e)
      ensures outcome.Added? ==> evicted.None? == old(nPackets < capacity || capacity < limit)
      ensures outcome.Added? && evicted.None? ==> nPackets == old(nPackets) + 1
      ensures outcome.Added? && evicted.Some? ==>
                IsVictim(policy, old(log), evicted.value) && old(log) + [Dropped(evicted.value)] <= log
      ensures capacity == if outcome.Duplicate? then old(capacity) else PoolAfter(old(nPackets), old(capacity), limit)
      ensures limit >= 16 && !policy.Persistent? ==> !outcome.NoFreeEntry?
    {
      hide NameOrder, Sorted, Pooled, Logged, IsVictim, Replay;
      var found := Find(cache, FullName(data));
      if found.Some? {
        return Duplicate, None;
      }
      evicted := MakeRoom();
      if free == [] {
        return NoFreeEntry, None;
      }
      assert !Stored(cache, FullName(data));
      ghost var p, e := Store(data, window);
      assert IsPlus(cache, old(cache), evicted, e);
      outcome := Added;
    }

    ghost predicate IsNew(e: Entry, data: Data, window: int) {
      e.data == data && e.isFresh && e.timer == (hasScheduler && window > 0)
    }

    method AfterAccess(p: nat)
      requires Consistent() && p < |cache|
      modifies this`index, this`log
      ensures Consistent() && log == old(log) + [Accessed(cache[p].id)]
    {
      hide Sorted, Pooled, Replay;
      assert cache[p] in cache && cache[p].id in Ids(cache);
      ReplaySnoc(policy, log, Accessed(cache[p].id));
      index := Eviction.AfterAccess(policy, index, cache[p].id);
      assert (log + [Accessed(cache[p].id)])[..|log|] == log;
      log := log + [Accessed(cache[p].id)];
    }

    /** find(Name): the least entry whose full name starts with the name. */
    method FindByName(name: Name) returns (r: Option<Data>)
      requires Valid()
      modifies this`index, this`log
      ensures Valid()
      ensures r.None? ==> log == old(log) && forall i :: 0 <= i < |cache| ==> !(name <= Full(cache[i]))
      ensures r.Some? ==> exists p ::
                && 0 <= p < |cache| && r.value == cache[p].data && name <= Full(cache[p])
                && (forall i :: 0 <= i < |cache| && i != p && name <= Full(cache[i]) ==>
                                  Before(Full(cache[p]), Full(cache[i])))
                && log == old(log) + [Accessed(cache[p].id)]
    {
      hide NameOrder, Pooled, Logged, Replay;
      var p := LowerBound(cache, name);
      UnderNameFrom(cache, name, p);
      if p == |cache| || !(name <= Full(cache[p])) {
        return None;
      }
      AfterAccess(p);
      r := Some(cache[p].data);
    }

    /** find(Interest): the packet whose full name is the Interest's name, whatever its freshness and
        without recording the access; else the answer of a linear scan, recording the access. */
    method FindByInterest(interest: Interest) returns (r: Option<Data>)
      requires Valid()
      modifies this`index, this`log
      ensures Valid()
      ensures Stored(cache, interest.name) ==> r.Some? && FullName(r.value) == interest.name && log == old(log)
      ensures Stored(cache, interest.name) ==> exists i :: 0 <= i < |cache| && cache[i].data == r.value
      ensures !Stored(cache, interest.name) ==> exists k: Option<nat> ::
                && BestMatch(cache, interest, k)
                && r == (if k.Some? then Some(cache[k.value].data) else None)
                && log == old(log) + if k.Some? then [Accessed(cache[k.value].id)] else []
    {
      hide NameOrder, MatchesData, Pooled, Logged, Replay, Sorted;
      var p := Find(cache, interest.name);
      if p.Some? {
        return Some(cache[p.value].data);
      }
      var k := Search(cache, interest);
      if k.None? {
        assert log + [] == log;
        return None;
      }
      AfterAccess(k.value);
      r := Some(cache[k.value].data);
    }

    /** The entry's freshness timer fires; it can only while the entry holds a packet. */
    method MarkStale(p: nat)
      requires Valid() && p < |cache| && cache[p].timer
      modifies this`cache
      ensures Valid() && cache == old(cache)[p := old(cache[p]).(isFresh := false, timer := false)]
    {
      ghost var was := cache;
      cache := cache[p := cache[p].(isFresh := false, timer := false)];
      assert forall i :: 0 <= i < |cache| ==> Full(cache[i]) == Full(was[i]) && cache[i].id == was[i].id;
      SameIds(was, cache);
    }

    /** The loop of erase(prefix): from the lower bound, as long as the Data name is under the prefix. */
    method EraseRange(prefix: Name)
      requires Consistent()
      modifies this`cache, this`free, this`nPackets, this`index, this`log
      ensures Consistent() && nPackets + |free| == old(nPackets + |free|)
      ensures cache == if Stored(old(cache), prefix) then old(cache) else Keep(old(cache), prefix)
    {
      hide NameOrder, Pooled, Logged, Replay, Sorted;
      var p := LowerBound(cache, prefix);
      ghost var was := cache;
      ghost var n := 0;
      while p < |cache| && prefix <= cache[p].data.name
        invariant Consistent() && nPackets + |free| == old(nPackets + |free|)
        invariant 0 <= p <= p + n <= |was| && cache == was[..p] + was[p + n..]
        invariant forall i :: p <= i < p + n ==> prefix <= was[i].data.name
        decreases |cache|
      {
        DropKeeps(cache, free, nextId, log, p);
        ReplaySnoc(policy, log, Dropped(cache[p].id));
        index := BeforeErase(policy, index, cache[p].id);
        log := log + [Dropped(cache[p].id)];
        FreeEntry(p);
        n := n + 1;
        assert cache == was[..p] + was[p + n..];
      }
      ErasedRange(was, prefix, p, n);
    }

    /** erase. A pool more than two thirds free is halved, which evicts nothing. */
    method Erase(prefix: Name, isPrefix: bool)
      requires Valid()
      modifies this
      ensures Valid()
      ensures isPrefix ==> cache == if Stored(old(cache), prefix) then old(cache) else Keep(old(cache), prefix)
      ensures !isPrefix && !Stored(old(cache), prefix) ==> cache == old(cache) && capacity == old(capacity)
      ensures !isPrefix && Stored(old(cache), prefix) ==>
                exists p :: 0 <= p < |old(cache)| && Full(old(cache)[p]) == prefix && cache == Without(old(cache), p)
      ensures isPrefix || Stored(old(cache), prefix) ==>
                capacity == if old(capacity) - |cache| <= 2 * |cache| then old(capacity)
                            else if old(capacity) / 2 < 16 then 16 else old(capacity) / 2
    {
      hide NameOrder, Sorted, Pooled, Logged, Replay;
      if isPrefix {
        EraseRange(prefix);
      } else {
        var p := Find(cache, prefix);
        if p.None? {
          return;
        }
        DropKeeps(cache, free, nextId, log, p.value);
        ReplaySnoc(policy, log, Dropped(cache[p.value].id));
        index := BeforeErase(policy, index, cache[p.value].id);
        log := log + [Dropped(cache[p.value].id)];
        FreeEntry(p.value);
      }
      if |free| > 2 * nPackets {
        var ok := SetCapacity(capacity / 2);
      }
    }
  }

  // ---- runs ----

  datatype Request =
    | Put(data: Data, window: int)
    | GetByName(name: Name)
    | GetByInterest(interest: Interest)
    | Delete(prefix: Name, isPrefix: bool)
    | Expire(position: nat)

  /** Any run. The index of a policy that evicts holds exactly the stored entries. With room for the initial
      capacity and eviction, no insertion is left without an entry. */
  method Run(s: InMemoryStorage, requests: seq<Request>) returns (outcomes: seq<Outcome>)
    requires s.Valid()
    modifies s
    ensures s.Valid() && s.nPackets == |s.cache| && s.nPackets + |s.free| == s.capacity
    ensures !s.policy.Persistent? ==> Entries(s.index) == Ids(s.cache) && Distinct(s.index)
    ensures |outcomes| == Puts(requests)
    ensures s.limit >= 16 && !s.policy.Persistent? ==> NoFreeEntry !in outcomes && 16 <= s.capacity <= s.limit
  {
    outcomes := [];
    assert requests[..0] == [];
    for i := 0 to |requests|
      invariant s.Valid() && |outcomes| == Puts(requests[..i])
      invariant s.limit >= 16 && !s.policy.Persistent? ==> NoFreeEntry !in outcomes
    {
      assert requests[..i + 1][..i] == requests[..i];
      match requests[i] {
        case Put(data, window) =>
          var outcome, _ := s.Insert(data, window);
          outcomes := outcomes + [outcome];
        case GetByName(name) => var _ := s.FindByName(name);
        case GetByInterest(interest) => var _ := s.FindByInterest(interest);
        case Delete(prefix, isPrefix) => s.Erase(prefix, isPrefix);
        case Expire(p) =>
          if p < |s.cache| && s.cache[p].timer {
            s.MarkStale(p);
          }
      }
    }
    assert requests[..|requests|] == requests;
    if !s.policy.Persistent? {
      ReplayIsOrdered(s.policy, s.log);
    }
  }

  function Puts(requests: seq<Request>): nat {
    if requests == [] then 0
    else Puts(requests[..|requests| - 1]) + if requests[|requests| - 1].Put? then 1 else 0
  }

  function Sample(i: Byte): Data {
    Data([Component(GENERIC, [i])], Zeros(DIGEST_SIZE), 0)
  }

  ghost predicate IsSampleBelow(e: Entry, i: nat) {
    |e.data.name| == 1 && |e.data.name[0].value| == 1 && e.data.name[0].value[0] < i
  }

  lemma SampleNotStored(cache: seq<Entry>, i: Byte)
    requires forall e :: e in cache ==> IsSampleBelow(e, i)
    ensures !Stored(cache, FullName(Sample(i)))
  {
    forall j | 0 <= j < |cache|
      ensures Full(cache[j]) != FullName(Sample(i))
    {
      assert cache[j] in cache;
      assert Full(cache[j])[0] == cache[j].data.name[0] && FullName(Sample(i))[0] == Component(GENERIC, [i]);
    }
  }

  /** Below the initial capacity the guarantee fails for every limit: an erase lifts the capacity
      over the limit, and after that a full pool neither grows nor evicts. */
  method SmallLimitRunsDry(policy: Policy, limit: nat) returns (outcome: Outcome)
    requires limit < 16
    ensures outcome.NoFreeEntry?
  {
    var s := new InMemoryStorage(policy, limit, false);
    if limit > 0 {
      s.Erase([], true);
      for i := 0 to INIT_CAPACITY
        invariant s.Valid() && fresh(s) && s.limit == limit && s.capacity == INIT_CAPACITY && s.nPackets == i
        invariant forall e :: e in s.cache ==> IsSampleBelow(e, i)
      {
        SampleNotStored(s.cache, i);
        var added, _ := s.Insert(Sample(i), -1);
      }
    }
    SampleNotStored(s.cache, INIT_CAPACITY);
    var last, _ := s.Insert(Sample(INIT_CAPACITY), -1);
    outcome := last;
  }

  /** erase(prefix) removes exactly the entries under the prefix unless the prefix is itself the full
      name of a stored packet and there is something under it. */
  lemma EraseExact(cache: seq<Entry>, prefix: Name)
    ensures (if Stored(cache, prefix) then cache else Keep(cache, prefix)) == Keep(cache, prefix) <==>
            !Stored(cache, prefix) || forall i :: 0 <= i < |cache| ==> !(prefix <= cache[i].data.name)
  {
    KeepShorter(cache, prefix);
  }

  /** Such a store: a packet, and one whose name is the first one's full name. Erasing all under that name
      erases neither. */
  method ErasePrefixMissed(policy: Policy) returns (s: InMemoryStorage, prefix: Name)
    ensures fresh(s) && s.Valid() && Stored(s.cache, prefix)
    ensures exists e :: e in s.cache && prefix <= e.data.name
  {
    hide Sorted, Pooled, Logged, Replay, Keep, NameOrder;
    s := new InMemoryStorage(policy, INIT_CAPACITY, false);
    var d := Sample(0);
    prefix := FullName(d);
    var under := Data(prefix, Zeros(DIGEST_SIZE), 0);
    var _, _ := s.Insert(d, -1);
    ghost var first :| s.IsNew(first, d, -1) && first in s.cache;
    assert !Stored(s.cache, FullName(under)) by {
      assert forall e :: e in s.cache ==> e == first;
      assert |FullName(under)| == 3 && |Full(first)| == 2;
    }
    var _, _ := s.Insert(under, -1);
    ghost var second :| s.IsNew(second, under, -1) && second in s.cache;
    assert first in s.cache;
    ghost var p :| 0 <= p < |s.cache| && s.cache[p] == first;
    assert Full(s.cache[p]) == prefix;
    s.Erase(prefix, true);
    assert second in s.cache && prefix <= second.data.name;
  }

  lemma {:induction false} KeepShorter(cache: seq<Entry>, prefix: Name)
    ensures |Keep(cache, prefix)| <= |cache|
    ensures Keep(cache, prefix) == cache <==> forall i :: 0 <= i < |cache| ==> !(prefix <= cache[i].data.name)
    ensures |Keep(cache, prefix)| == |cache| <==> Keep(cache, prefix) == cache
  {
    if cache != [] {
      KeepShorter(cache[1..], prefix);
      assert cache == [cache[0]] + cache[1..];
    }
  }

  /** The entries whose Data name is not under `prefix`. */
  function Keep(cache: seq<Entry>, prefix: Name): seq<Entry> {
    if cache == [] then []
    else (if prefix <= cache[0].data.name then [] else [cache[0]]) + Keep(cache[1..], prefix)
  }

  lemma {:induction false} KeepOfConcat(a: seq<Entry>, b: seq<Entry>, prefix: Name)
    ensures Keep(a + b, prefix) == Keep(a, prefix) + Keep(b, prefix)
  {
    if a == [] {
      assert a + b == b && [] + Keep(b, prefix) == Keep(b, prefix);
    } else {
      KeepOfConcat(a[1..], b, prefix);
      assert (a + b)[1..] == a[1..] + b;
      var head := if prefix <= a[0].data.name then [] else [a[0]];
      Associative(head, Keep(a[1..], prefix), Keep(b, prefix));
    }
  }

  lemma {:induction false} KeepsAll(a: seq<Entry>, prefix: Name)
    requires forall i :: 0 <= i < |a| ==> !(prefix <= a[i].data.name)
    ensures Keep(a, prefix) == a
  {
    if a != [] {
      KeepsAll(a[1..], prefix);
    }
  }

  lemma {:induction false} KeepsNone(a: seq<Entry>, prefix: Name)
    requires forall i :: 0 <= i < |a| ==> prefix <= a[i].data.name
    ensures Keep(a, prefix) == []
  {
    if a != [] {
      KeepsNone(a[1..], prefix);
    }
  }

  /** Entries under a name lie from its lower bound on; the first of them is there if there is any. */
  lemma UnderNameFrom(cache: seq<Entry>, name: Name, p: nat)
    requires Sorted(cache) && IsLowerBound(cache, name, p)
    ensures forall i :: 0 <= i < |cache| && name <= Full(cache[i]) ==>
              p <= i && forall j :: p <= j <= i ==> name <= Full(cache[j])
  {
    hide NameOrder;
    forall i | 0 <= i < |cache| && name <= Full(cache[i])
      ensures p <= i && forall j :: p <= j <= i ==> name <= Full(cache[j])
    {
      PrefixIsNotAfter(name, Full(cache[i]));
      OrderIsAntisymmetric(name, Full(cache[i]));
      forall j | p <= j < i
        ensures name <= Full(cache[j])
      {
        OrderIsAntisymmetric(Full(cache[j]), name);
        PrefixIsConvex(name, Full(cache[j]), Full(cache[i]));
      }
    }
  }

  /** What the erase loop leaves, when it stops after `n` entries. */
  lemma ErasedRange(cache: seq<Entry>, prefix: Name, p: nat, n: nat)
    requires Sorted(cache) && IsLowerBound(cache, prefix, p) && p + n <= |cache|
    requires forall i :: p <= i < p + n ==> prefix <= cache[i].data.name
    requires p + n < |cache| ==> !(prefix <= cache[p + n].data.name)
    ensures cache[..p] + cache[p + n..]
         == if Stored(cache, prefix) then cache else Keep(cache, prefix)
  {
    hide NameOrder;
    if Stored(cache, prefix) {
      var i :| 0 <= i < |cache| && Full(cache[i]) == prefix;
      StoredIsLowerBound(cache, prefix, p, i);
      assert n == 0 && cache == cache[..p] + cache[p..];
    } else {
      OutsideRange(cache, prefix, p, n);
      KeepAround(cache, prefix, p, n);
    }
  }

  /** Outside the erased range no Data name is under the prefix. */
  lemma OutsideRange(cache: seq<Entry>, prefix: Name, p: nat, n: nat)
    requires Sorted(cache) && IsLowerBound(cache, prefix, p) && p + n <= |cache| && !Stored(cache, prefix)
    requires p + n < |cache| ==> !(prefix <= cache[p + n].data.name)
    ensures forall i :: 0 <= i < |cache| && !(p <= i < p + n) ==> !(prefix <= cache[i].data.name)
  {
    hide NameOrder, IsLowerBound, Sorted;
    UnderNameFrom(cache, prefix, p);
    forall i | 0 <= i < |cache| && !(p <= i < p + n)
      ensures !(prefix <= cache[i].data.name)
    {
      PrefixOfFullName(prefix, cache[i].data);
      if p + n < |cache| {
        PrefixOfFullName(prefix, cache[p + n].data);
      }
    }
  }

  lemma KeepAround(cache: seq<Entry>, prefix: Name, p: nat, n: nat)
    requires p + n <= |cache|
    requires forall i :: 0 <= i < |cache| ==> (p <= i < p + n <==> prefix <= cache[i].data.name)
    ensures Keep(cache, prefix) == cache[..p] + cache[p + n..]
  {
    hide Keep;
    var (a, b, c) := (cache[..p], cache[p..p + n], cache[p + n..]);
    assert cache == a + (b + c);
    KeepsAll(a, prefix);
    KeepsNone(b, prefix);
    KeepsAll(c, prefix);
    KeepOfConcat(a, b + c, prefix);
    KeepOfConcat(b, c, prefix);
    assert Keep(b, prefix) + c == c;
  }

  lemma StoredIsLowerBound(cache: seq<Entry>, name: Name, p: nat, i: nat)
    requires Sorted(cache) && IsLowerBound(cache, name, p) && i < |cache| && Full(cache[i]) == name
    ensures i == p
  {
    hide NameOrder;
    CanonicalOrderIsTotal(name, name, name);
    forall j | 0 <= j < |cache| && j != p
      ensures Full(cache[j]) != name
    {
      assert j < p ==> Before(Full(cache[j]), name);
      assert p < j ==> Before(Full(cache[p]), Full(cache[j])) && !Before(Full(cache[p]), name);
    }
  }

  lemma SameIds(a: seq<Entry>, b: seq<Entry>)
    requires |a| == |b| && forall i :: 0 <= i < |a| ==> a[i].id == b[i].id
    ensures Ids(a) == Ids(b)
  {
    forall x | x in Ids(a)
      ensures x in Ids(b)
    {
      var i :| 0 <= i < |a| && a[i].id == x;
      assert b[i] in b;
    }
    forall x | x in Ids(b)
      ensures x in Ids(a)
    {
      var i :| 0 <= i < |b| && b[i].id == x;
      assert a[i] in a;
    }
  }

  lemma ResidentsAreIds(cache: seq<Entry>, log: seq<Event>)
    requires Logged(cache, log)
    ensures Eviction.WellFormed(log) && Residents(log) == Ids(cache)
  {
  }

  lemma DistinctFullNames(cache: seq<Entry>, q: nat)
    requires Sorted(cache) && q < |cache|
    ensures Stored(cache, Full(cache[q]))
    ensures forall p :: 0 <= p < |cache| && Full(cache[p]) == Full(cache[q]) ==> p == q
  {
    hide NameOrder;
    CanonicalOrderIsTotal(Full(cache[q]), Full(cache[q]), Full(cache[q]));
  }
}
