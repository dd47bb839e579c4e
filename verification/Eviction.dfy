/** The cleanup indexes that choose which stored packet to evict. */
module Eviction {

  /** The persistent store has no cleanup index and never evicts. */
  datatype Policy = Fifo | Lru | Lfu | Persistent

  /** A cleanup-index element: the entry and, for LFU, its use count. */
  datatype Slot = Slot(entry: nat, uses: nat)

  // ---- the hooks, on the index in eviction order ----

  function Entries(index: seq<Slot>): set<nat> {
    set s | s in index :: s.entry
  }

  function Remove(index: seq<Slot>, entry: nat): seq<Slot> {
    if index == [] then []
    else if index[0].entry == entry then index[1..]
    else [index[0]] + Remove(index[1..], entry)
  }

  lemma RemoveHead(index: seq<Slot>)
    requires index != []
    ensures Remove(index, index[0].entry) == index[1..]
  {
  }

  /** Insertion into the use-count order, behind elements with the same count. */
  function InsertByUses(index: seq<Slot>, s: Slot): seq<Slot> {
    if index == [] || s.uses < index[0].uses then [s] + index
    else [index[0]] + InsertByUses(index[1..], s)
  }

  /** Increment a use count; the element moves only if its place no longer fits. */
  function Bump(index: seq<Slot>, entry: nat): seq<Slot> {
    if index == [] then []
    else if index[0].entry != entry then [index[0]] + Bump(index[1..], entry)
    else
      var s := Slot(entry, index[0].uses + 1);
      if |index| == 1 || s.uses <= index[1].uses then [s] + index[1..] else InsertByUses(index[1..], s)
  }

  function AfterInsert(policy: Policy, index: seq<Slot>, entry: nat): seq<Slot> {
    if policy.Persistent? || entry in Entries(index) then index
    else if policy.Lfu? then InsertByUses(index, Slot(entry, 0))
    else index + [Slot(entry, 0)]
  }

  function BeforeErase(policy: Policy, index: seq<Slot>, entry: nat): seq<Slot> {
    if policy.Persistent? then index else Remove(index, entry)
  }

  function AfterAccess(policy: Policy, index: seq<Slot>, entry: nat): seq<Slot> {
    match policy
    case Fifo | Persistent => index
    case Lru => AfterInsert(policy, BeforeErase(policy, index, entry), entry)
    case Lfu => Bump(index, entry)
  }

  // ---- the history, and what a policy promises about it ----

  datatype Event = Inserted(entry: nat) | Accessed(entry: nat) | Dropped(entry: nat)

  function Residents(log: seq<Event>): set<nat> {
    if log == [] then {}
    else
      var before := Residents(log[..|log| - 1]);
      match log[|log| - 1]
      case Inserted(e) => before + {e}
      case Accessed(_) => before
      case Dropped(e) => before - {e}
  }

  /** Entries are inserted when absent, and used and dropped when present. */
  predicate WellFormed(log: seq<Event>) {
    log == [] ||
    (var before := log[..|log| - 1];
     var last := log[|log| - 1];
     WellFormed(before) && (last.Inserted? <==> last.entry !in Residents(before)))
  }

  /** Position of the latest insertion of `entry`, -1 if there is none. */
  function LastInsertion(log: seq<Event>, entry: nat): int {
    if log == [] then -1
    else if log[|log| - 1] == Inserted(entry) then |log| - 1
    else LastInsertion(log[..|log| - 1], entry)
  }

  /** Position of the latest insertion or access of `entry`. */
  function LastUse(log: seq<Event>, entry: nat): int {
    if log == [] then -1
    else if log[|log| - 1] in {Inserted(entry), Accessed(entry)} then |log| - 1
    else LastUse(log[..|log| - 1], entry)
  }

  /** Accesses of `entry` since its latest insertion. */
  function Uses(log: seq<Event>, entry: nat): nat {
    if log == [] then 0
    else
      var before := Uses(log[..|log| - 1], entry);
      match log[|log| - 1]
      case Inserted(e) => if e == entry then 0 else before
      case Accessed(e) => if e == entry then before + 1 else before
      case Dropped(_) => before
  }

  function Key(policy: Policy, log: seq<Event>, entry: nat): int {
    match policy
    case Fifo => LastInsertion(log, entry)
    case Lru => LastUse(log, entry)
    case Lfu => Uses(log, entry)
    case Persistent => -1
  }

  /** `v` is a resident entry and no resident entry should go before it. */
  ghost predicate IsVictim(policy: Policy, log: seq<Event>, v: nat) {
    v in Residents(log) && forall r :: r in Residents(log) ==> Key(policy, log, v) <= Key(policy, log, r)
  }

  /** The hook that an event runs. */
  function Hook(policy: Policy, index: seq<Slot>, ev: Event): seq<Slot> {
    match ev
    case Inserted(e) => AfterInsert(policy, index, e)
    case Accessed(e) => AfterAccess(policy, index, e)
    case Dropped(e) => BeforeErase(policy, index, e)
  }

  /** The index that the hooks build along a history. */
  function Replay(policy: Policy, log: seq<Event>): seq<Slot> {
    if log == [] then [] else Hook(policy, Replay(policy, log[..|log| - 1]), log[|log| - 1])
  }

  lemma ReplaySnoc(policy: Policy, log: seq<Event>, ev: Event)
    ensures Replay(policy, log + [ev]) == Hook(policy, Replay(policy, log), ev)
  {
    assert (log + [ev])[..|log|] == log;
  }

  // ---- the index is in key order ----

  predicate Distinct(index: seq<Slot>) {
    index == [] || (index[0].entry !in Entries(index[1..]) && Distinct(index[1..]))
  }

  predicate Ordered(policy: Policy, log: seq<Event>, index: seq<Slot>) {
    index == [] ||
    ((forall s :: s in index[1..] ==> Key(policy, log, index[0].entry) <= Key(policy, log, s.entry)) &&
     Ordered(policy, log, index[1..]))
  }

  predicate CountsUses(log: seq<Event>, index: seq<Slot>) {
    forall s :: s in index ==> s.uses == Uses(log, s.entry)
  }

  lemma EntriesCons(s: Slot, index: seq<Slot>)
    ensures Entries([s] + index) == {s.entry} + Entries(index)
  {
    forall e | e in {s.entry} + Entries(index)
      ensures e in Entries([s] + index)
    {
      if e == s.entry {
        assert s in [s] + index;
      } else {
        var t :| t in index && t.entry == e;
        assert t in [s] + index;
      }
    }
  }

  lemma {:induction false} RemoveSpec(index: seq<Slot>, entry: nat)
    requires Distinct(index)
    ensures Entries(Remove(index, entry)) == Entries(index) - {entry} && Distinct(Remove(index, entry))
    ensures forall s :: s in Remove(index, entry) ==> s in index
  {
    if index != [] {
      assert index == [index[0]] + index[1..];
      EntriesCons(index[0], index[1..]);
      if index[0].entry != entry {
        RemoveSpec(index[1..], entry);
        EntriesCons(index[0], Remove(index[1..], entry));
        assert ([index[0]] + Remove(index[1..], entry))[1..] == Remove(index[1..], entry);
      }
    }
  }

  lemma {:induction false} InsertByUsesSpec(index: seq<Slot>, s: Slot)
    requires Distinct(index) && s.entry !in Entries(index)
    ensures Entries(InsertByUses(index, s)) == Entries(index) + {s.entry} && Distinct(InsertByUses(index, s))
    ensures forall t :: t in InsertByUses(index, s) <==> t in index || t == s
  {
    if index == [] || s.uses < index[0].uses {
      EntriesCons(s, index);
      assert ([s] + index)[1..] == index;
    } else {
      assert index == [index[0]] + index[1..];
      EntriesCons(index[0], index[1..]);
      InsertByUsesSpec(index[1..], s);
      var r := InsertByUses(index[1..], s);
      EntriesCons(index[0], r);
      assert ([index[0]] + r)[1..] == r;
    }
  }

  lemma {:induction false} AppendSpec(index: seq<Slot>, s: Slot)
    requires Distinct(index) && s.entry !in Entries(index)
    ensures Entries(index + [s]) == Entries(index) + {s.entry} && Distinct(index + [s])
  {
    if index != [] {
      assert index == [index[0]] + index[1..];
      EntriesCons(index[0], index[1..]);
      AppendSpec(index[1..], s);
      EntriesCons(index[0], index[1..] + [s]);
      assert index + [s] == [index[0]] + (index[1..] + [s]);
      assert (index + [s])[1..] == index[1..] + [s];
    } else {
      EntriesCons(s, []);
      assert [] + [s] == [s] && [s] + [] == [s];
    }
  }

  lemma {:induction false} BumpSpec(index: seq<Slot>, entry: nat)
    requires Distinct(index)
    ensures Entries(Bump(index, entry)) == Entries(index) && Distinct(Bump(index, entry))
    ensures forall t :: t in Bump(index, entry) ==>
              exists s :: s in index && s.entry == t.entry && t.uses == s.uses + if s.entry == entry then 1 else 0
  {
    if index != [] {
      assert index == [index[0]] + index[1..];
      EntriesCons(index[0], index[1..]);
      if index[0].entry != entry {
        BumpSpec(index[1..], entry);
        EntriesCons(index[0], Bump(index[1..], entry));
        assert ([index[0]] + Bump(index[1..], entry))[1..] == Bump(index[1..], entry);
      } else {
        var s := Slot(entry, index[0].uses + 1);
        EntriesCons(s, index[1..]);
        InsertByUsesSpec(index[1..], s);
        assert ([s] + index[1..])[1..] == index[1..];
        forall t | t in index[1..]
          ensures t.entry != entry
        {
        }
      }
    }
  }

  lemma {:induction false} OrderedTransfer(policy: Policy, log: seq<Event>, log': seq<Event>, index: seq<Slot>)
    requires Ordered(policy, log, index)
    requires forall s :: s in index ==> Key(policy, log', s.entry) == Key(policy, log, s.entry)
    ensures Ordered(policy, log', index)
  {
    if index != [] {
      assert index[0] in index;
      OrderedTransfer(policy, log, log', index[1..]);
    }
  }

  lemma {:induction false} OrderedRemove(policy: Policy, log: seq<Event>, index: seq<Slot>, entry: nat)
    requires Ordered(policy, log, index) && Distinct(index)
    ensures Ordered(policy, log, Remove(index, entry))
  {
    if index != [] && index[0].entry != entry {
      OrderedRemove(policy, log, index[1..], entry);
      RemoveSpec(index[1..], entry);
      assert Remove(index, entry)[1..] == Remove(index[1..], entry);
    }
  }

  lemma {:induction false} OrderedAppend(policy: Policy, log: seq<Event>, index: seq<Slot>, s: Slot)
    requires Ordered(policy, log, index)
    requires forall t :: t in index ==> Key(policy, log, t.entry) <= Key(policy, log, s.entry)
    ensures Ordered(policy, log, index + [s])
  {
    if index != [] {
      OrderedAppend(policy, log, index[1..], s);
      assert index[0] in index && (index + [s])[1..] == index[1..] + [s];
    }
  }

  lemma {:induction false} OrderedInsert(log: seq<Event>, index: seq<Slot>, s: Slot)
    requires Ordered(Lfu, log, index) && CountsUses(log, index) && s.uses == Uses(log, s.entry)
    requires Distinct(index) && s.entry !in Entries(index)
    ensures Ordered(Lfu, log, InsertByUses(index, s))
  {
    if index == [] {
    } else {
      assert index[0] in index;
      if s.uses < index[0].uses {
        assert ([s] + index)[1..] == index;
        assert forall t :: t in index ==> t == index[0] || t in index[1..];
      } else {
        assert index == [index[0]] + index[1..];
        EntriesCons(index[0], index[1..]);
        OrderedInsert(log, index[1..], s);
        InsertByUsesSpec(index[1..], s);
        assert InsertByUses(index, s)[1..] == InsertByUses(index[1..], s);
      }
    }
  }

  lemma KeyOfOther(policy: Policy, log: seq<Event>, ev: Event, entry: nat)
    ensures ev.entry != entry ==> Key(policy, log + [ev], entry) == Key(policy, log, entry)
    ensures Uses(log + [ev], entry) == if ev == Inserted(entry) then 0
                                       else if ev == Accessed(entry) then Uses(log, entry) + 1
                                       else Uses(log, entry)
  {
    assert (log + [ev])[..|log|] == log;
  }

  lemma UsesAfterAccess(log: seq<Event>, entry: nat)
    ensures forall e :: Uses(log + [Accessed(entry)], e) == Uses(log, e) + if e == entry then 1 else 0
  {
    forall e
      ensures Uses(log + [Accessed(entry)], e) == Uses(log, e) + if e == entry then 1 else 0
    {
      KeyOfOther(Lfu, log, Accessed(entry), e);
    }
  }

  lemma {:induction false} OrderedBump(log: seq<Event>, index: seq<Slot>, entry: nat)
    requires Ordered(Lfu, log, index) && CountsUses(log, index) && Distinct(index)
    ensures Ordered(Lfu, log + [Accessed(entry)], Bump(index, entry))
    ensures CountsUses(log + [Accessed(entry)], Bump(index, entry))
  {
    hide Uses;
    UsesAfterAccess(log, entry);
    BumpSpec(index, entry);
    if index != [] {
      assert index[0] in index;
      if index[0].entry != entry {
        OrderedBump(log, index[1..], entry);
        BumpSpec(index[1..], entry);
        assert Bump(index, entry)[1..] == Bump(index[1..], entry);
      } else {
        OrderedBumpHead(log, index);
      }
    }
  }

  lemma OrderedBumpHead(log: seq<Event>, index: seq<Slot>)
    requires index != [] && Ordered(Lfu, log, index) && CountsUses(log, index) && Distinct(index)
    ensures Ordered(Lfu, log + [Accessed(index[0].entry)], Bump(index, index[0].entry))
  {
    hide Uses;
    var (entry, rest) := (index[0].entry, index[1..]);
    var log' := log + [Accessed(entry)];
    var s := Slot(entry, index[0].uses + 1);
    UsesAfterAccess(log, entry);
    assert index[0] in index && forall t :: t in rest ==> t in index && t.entry != entry;
    OrderedTransfer(Lfu, log, log', rest);
    OrderedInsert(log', rest, s);
    assert ([s] + rest)[1..] == rest;
    assert rest != [] ==> forall t :: t in rest ==> t == rest[0] || t in rest[1..];
  }

  lemma {:induction false} KeysBelow(policy: Policy, log: seq<Event>, entry: nat)
    ensures !policy.Lfu? ==> Key(policy, log, entry) < |log|
  {
    if log != [] {
      KeysBelow(policy, log[..|log| - 1], entry);
    }
  }

  /** Along every history the index holds the resident entries, in the order the policy wants. */
  lemma {:induction false} ReplayIsOrdered(policy: Policy, log: seq<Event>)
    requires WellFormed(log) && !policy.Persistent?
    ensures Distinct(Replay(policy, log)) && Entries(Replay(policy, log)) == Residents(log)
    ensures Ordered(policy, log, Replay(policy, log))
    ensures policy.Lfu? ==> CountsUses(log, Replay(policy, log))
  {
    if log != [] {
      var (before, ev) := (log[..|log| - 1], log[|log| - 1]);
      assert log == before + [ev];
      ReplayIsOrdered(policy, before);
      ReplayStep(policy, before, ev);
    }
  }

  lemma {:induction false} PersistentIndexIsEmpty(log: seq<Event>)
    ensures Replay(Persistent, log) == []
  {
    if log != [] {
      PersistentIndexIsEmpty(log[..|log| - 1]);
    }
  }

  /** What ReplayIsOrdered keeps from one event to the next. */
  ghost predicate Good(policy: Policy, log: seq<Event>, index: seq<Slot>) {
    && !policy.Persistent? && Distinct(index) && Entries(index) == Residents(log) && Ordered(policy, log, index)
    && (policy.Lfu? ==> CountsUses(log, index))
  }

  lemma ReplayStep(policy: Policy, log: seq<Event>, ev: Event)
    requires WellFormed(log + [ev]) && Good(policy, log, Replay(policy, log))
    ensures Good(policy, log + [ev], Replay(policy, log + [ev]))
  {
    assert (log + [ev])[..|log|] == log;
    var index := Replay(policy, log);
    match ev
    case Dropped(e) => DropStep(policy, log, index, e);
    case Inserted(e) => InsertStep(policy, log, index, e);
    case Accessed(e) => AccessStep(policy, log, index, e);
  }

  lemma OthersKeep(policy: Policy, log: seq<Event>, ev: Event)
    ensures forall e :: ev.entry != e ==> Key(policy, log + [ev], e) == Key(policy, log, e)
    ensures forall e :: ev.entry != e ==> Uses(log + [ev], e) == Uses(log, e)
    ensures !policy.Lfu? ==> forall e :: Key(policy, log, e) < |log|
  {
    forall e
      ensures ev.entry != e ==> Key(policy, log + [ev], e) == Key(policy, log, e)
      ensures ev.entry != e ==> Uses(log + [ev], e) == Uses(log, e)
      ensures !policy.Lfu? ==> Key(policy, log, e) < |log|
    {
      KeyOfOther(policy, log, ev, e);
      KeysBelow(policy, log, e);
    }
  }

  lemma DropStep(policy: Policy, log: seq<Event>, index: seq<Slot>, e: nat)
    requires Good(policy, log, index)
    ensures Good(policy, log + [Dropped(e)], BeforeErase(policy, index, e))
  {
    var log' := log + [Dropped(e)];
    assert log'[..|log|] == log;
    OthersKeep(policy, log, Dropped(e));
    RemoveSpec(index, e);
    OrderedRemove(policy, log, index, e);
    assert forall s :: s in Remove(index, e) ==> s.entry in Entries(Remove(index, e));
    OrderedTransfer(policy, log, log', Remove(index, e));
  }

  lemma InsertStep(policy: Policy, log: seq<Event>, index: seq<Slot>, e: nat)
    requires Good(policy, log, index) && e !in Residents(log)
    ensures Good(policy, log + [Inserted(e)], AfterInsert(policy, index, e))
  {
    var log' := log + [Inserted(e)];
    assert log'[..|log|] == log;
    OthersKeep(policy, log, Inserted(e));
    assert forall s :: s in index ==> s.entry in Entries(index);
    OrderedTransfer(policy, log, log', index);
    if policy.Lfu? {
      InsertByUsesSpec(index, Slot(e, 0));
      OrderedInsert(log', index, Slot(e, 0));
    } else {
      AppendSpec(index, Slot(e, 0));
      OrderedAppend(policy, log', index, Slot(e, 0));
    }
  }

  lemma AccessStep(policy: Policy, log: seq<Event>, index: seq<Slot>, e: nat)
    requires Good(policy, log, index) && e in Residents(log)
    ensures Good(policy, log + [Accessed(e)], AfterAccess(policy, index, e))
  {
    var log' := log + [Accessed(e)];
    assert log'[..|log|] == log;
    match policy
    case Fifo =>
      forall s | s in index
        ensures Key(Fifo, log', s.entry) == Key(Fifo, log, s.entry)
      {
      }
      OrderedTransfer(Fifo, log, log', index);
    case Lru =>
      OthersKeep(Lru, log, Accessed(e));
      var rest := Remove(index, e);
      RemoveSpec(index, e);
      OrderedRemove(Lru, log, index, e);
      assert forall s :: s in rest ==> s.entry in Entries(rest);
      OrderedTransfer(Lru, log, log', rest);
      AppendSpec(rest, Slot(e, 0));
      OrderedAppend(Lru, log', rest, Slot(e, 0));
    case Lfu =>
      BumpSpec(index, e);
      OrderedBump(log, index, e);
  }

  /** The head of the index is the right victim, over every history. */
  lemma HeadIsVictim(policy: Policy, log: seq<Event>)
    requires WellFormed(log) && !policy.Persistent?
    ensures Replay(policy, log) == [] <==> Residents(log) == {}
    ensures Replay(policy, log) != [] ==> IsVictim(policy, log, Replay(policy, log)[0].entry)
  {
    var index := Replay(policy, log);
    ReplayIsOrdered(policy, log);
    if index != [] {
      assert index[0] in index;
      forall r | r in Residents(log)
        ensures Key(policy, log, index[0].entry) <= Key(policy, log, r)
      {
        var s :| s in index && s.entry == r;
        assert s == index[0] || s in index[1..];
      }
    }
  }
}
