/** Pending Interest records, Nack aggregation, and the life of a record as its events show it. */
module Pending {
  import opened Bytes
  import opened Packets

  // ---- Nack severity ----

  const NONE: nat := 0
  const CONGESTION: nat := 50
  const DUPLICATE: nat := 100
  const NO_ROUTE: nat := 150

  /** A Nack carries the code it was received with; codes that are not known count as NONE. */
  datatype Nack = Nack(interest: Interest, code: nat)

  function Reason(n: Nack): nat {
    if n.code in {CONGESTION, DUPLICATE, NO_ROUTE} then n.code else NONE
  }

  predicate IsLessSevere(x: nat, y: nat) {
    if x == NONE then false else if y == NONE then true else x < y
  }

  lemma SeverityIsStrictWeakOrder(x: nat, y: nat, z: nat)
    ensures !IsLessSevere(x, x) && !(IsLessSevere(x, y) && IsLessSevere(y, x))
    ensures IsLessSevere(x, y) && IsLessSevere(y, z) ==> IsLessSevere(x, z)
    ensures !IsLessSevere(x, y) && !IsLessSevere(y, x) ==> x == y
    ensures !IsLessSevere(NONE, x) && (x != NONE ==> IsLessSevere(x, NONE))
    ensures x != NONE && y != NONE ==> (IsLessSevere(x, y) <==> x < y)
    ensures IsLessSevere(CONGESTION, DUPLICATE) && IsLessSevere(DUPLICATE, NO_ROUTE) && IsLessSevere(NO_ROUTE, NONE)
  {
  }

  /** `n` is at `i`, nothing is less severe, and everything in front of it is more severe. */
  predicate EarliestLeastSevereAt(ns: seq<Nack>, n: Nack, i: nat) {
    && i < |ns| && ns[i] == n
    && (forall j :: 0 <= j < |ns| ==> !IsLessSevere(Reason(ns[j]), Reason(n)))
    && (forall j :: 0 <= j < i ==> IsLessSevere(Reason(n), Reason(ns[j])))
  }

  predicate IsEarliestLeastSevere(ns: seq<Nack>, n: Nack) {
    exists i: nat :: i < |ns| && EarliestLeastSevereAt(ns, n, i)
  }

  /** In codes: Congestion is 50, Duplicate 100 and NoRoute 150. `n` has the smallest of these among the Nacks, and
      is the first Nack with that code; where no Nack has one of them, it is the first Nack of all. */
  ghost predicate HasSmallestCode(ns: seq<Nack>, n: Nack) {
    exists i: nat :: i < |ns| && SmallestCodeAt(ns, n, i)
  }

  ghost predicate SmallestCodeAt(ns: seq<Nack>, n: Nack, i: nat) {
    && i < |ns| && ns[i] == n
    && (if n.code in {50, 100, 150} then
          && (forall j :: 0 <= j < |ns| && ns[j].code in {50, 100, 150} ==> n.code <= ns[j].code)
          && (forall j :: 0 <= j < i ==> ns[j].code != n.code)
        else i == 0 && forall j :: 0 <= j < |ns| ==> ns[j].code !in {50, 100, 150})
  }

  lemma EarliestInCodes(ns: seq<Nack>, n: Nack)
    requires IsEarliestLeastSevere(ns, n)
    ensures HasSmallestCode(ns, n)
  {
    var i: nat :| i < |ns| && EarliestLeastSevereAt(ns, n, i);
    forall j | 0 <= j < |ns|
      ensures n.code in {50, 100, 150} && ns[j].code in {50, 100, 150} ==> n.code <= ns[j].code
      ensures n.code !in {50, 100, 150} ==> ns[j].code !in {50, 100, 150}
      ensures j < i ==> ns[j].code != n.code && n.code in {50, 100, 150}
    {
      assert !IsLessSevere(Reason(ns[j]), Reason(n));
      assert j < i ==> IsLessSevere(Reason(n), Reason(ns[j]));
    }
    if i > 0 {
      assert ns[0].code != n.code;
    }
    assert SmallestCodeAt(ns, n, i);
  }

  /** What a record has remembered after these Nacks. */
  function Least(ns: seq<Nack>): (r: Option<Nack>)
    ensures r.None? <==> ns == []
  {
    if ns == [] then None
    else
      var (before, last) := (Least(ns[..|ns| - 1]), ns[|ns| - 1]);
      if before.None? || IsLessSevere(Reason(last), Reason(before.value)) then Some(last) else before
  }

  lemma {:induction false} LeastIsEarliest(ns: seq<Nack>)
    requires ns != []
    ensures IsEarliestLeastSevere(ns, Least(ns).value)
  {
    var n := |ns| - 1;
    if n == 0 {
      assert EarliestLeastSevereAt(ns, ns[0], 0);
    } else {
      var before := ns[..n];
      LeastIsEarliest(before);
      var b := Least(before).value;
      var i: nat :| i < |before| && EarliestLeastSevereAt(before, b, i);
      if IsLessSevere(Reason(ns[n]), Reason(b)) {
        assert forall j :: 0 <= j < n ==> ns[j] == before[j];
        assert EarliestLeastSevereAt(ns, ns[n], n);
      } else {
        assert forall j :: 0 <= j < n ==> ns[j] == before[j];
        assert EarliestLeastSevereAt(ns, b, i);
      }
    }
  }

  // ---- records ----

  datatype Origin = App | Forwarder

  datatype Record = Record(id: nat, interest: Interest, origin: Origin, nNotNacked: int, leastSevere: Option<Nack>)

  function RecordForwarding(r: Record): Record {
    r.(nNotNacked := r.nNotNacked + 1)
  }

  /** recordNack: the new record, and the Nack to deliver once every destination has answered. */
  function RecordNack(r: Record, nack: Nack): (Record, Option<Nack>) {
    var least :=
      if r.leastSevere.None? || IsLessSevere(Reason(nack), Reason(r.leastSevere.value)) then Some(nack)
      else r.leastSevere;
    var r' := r.(nNotNacked := r.nNotNacked - 1, leastSevere := least);
    (r', if r'.nNotNacked > 0 then None else least)
  }

  function RecordNacks(r: Record, ns: seq<Nack>): (Record, Option<Nack>) {
    if ns == [] then (r, None) else RecordNack(RecordNacks(r, ns[..|ns| - 1]).0, ns[|ns| - 1])
  }

  /** A record forwarded to k destinations lets k - 1 Nacks pass and delivers, at the k-th, the
      earliest of the least severe. */
  lemma {:induction false} LastNackResolves(r: Record, ns: seq<Nack>)
    requires r.leastSevere.None? && 1 <= |ns| <= r.nNotNacked
    ensures RecordNacks(r, ns).0 == r.(nNotNacked := r.nNotNacked - |ns|, leastSevere := Least(ns))
    ensures |ns| < r.nNotNacked ==> RecordNacks(r, ns).1.None?
    ensures |ns| == r.nNotNacked ==>
              && RecordNacks(r, ns).1.Some? && IsEarliestLeastSevere(ns, RecordNacks(r, ns).1.value)
              && HasSmallestCode(ns, RecordNacks(r, ns).1.value)
  {
    hide IsEarliestLeastSevere, HasSmallestCode;
    if |ns| > 1 {
      LastNackResolves(r, ns[..|ns| - 1]);
    }
    LeastIsEarliest(ns);
    EarliestInCodes(ns, Least(ns).value);
  }

  // ---- the life of a record ----

  datatype Event =
    | Put(id: nat, interest: Interest, origin: Origin)
    | Forwarded(id: nat)
    | NackRecorded(id: nat, nack: Nack)
    | DataCallback(id: nat, data: Data)
    | NackCallback(id: nat, nack: Nack)
    | TimeoutCallback(id: nat)
    | Cancelled(id: nat)
    | Removed(id: nat)
    | SentInterest(interest: Interest)
    | SentData(data: Data)
    | SentNack(nack: Nack)

  predicate Concerns(ev: Event, id: nat) {
    !ev.SentInterest? && !ev.SentData? && !ev.SentNack? && ev.id == id
  }

  predicate IsCallback(ev: Event, id: nat) {
    (ev.DataCallback? || ev.NackCallback? || ev.TimeoutCallback?) && ev.id == id
  }

  datatype Phase =
    | NotCreated
    | Waiting(interest: Interest, origin: Origin, forwarded: nat, nacks: seq<Nack>)
    | Fired
    | Withdrawn
    | Gone
    | Bad

  /** Nacks a record waits for: one per destination, and one where there is no destination. */
  function Needed(forwarded: nat): nat {
    if forwarded == 0 then 1 else forwarded
  }

  /** What may happen to a record. Anything else is Bad: an event before the record is put or after
      it is removed, a second callback, a callback for a forwarder's Interest, Data that does not
      match, a Nack delivered before the last one is in or other than the earliest least severe, and the
      removal of an application's record that was neither answered nor withdrawn. */
  function Next(p: Phase, ev: Event): Phase {
    match (p, ev)
    case (NotCreated, Put(_, interest, origin)) => Waiting(interest, origin, 0, [])
    case (Waiting(i, o, k, ns), Forwarded(_)) => if ns == [] then Waiting(i, o, k + 1, ns) else Bad
    case (Waiting(i, o, k, ns), NackRecorded(_, n)) =>
      if MatchesInterest(n.interest, i) && |ns| < Needed(k) then Waiting(i, o, k, ns + [n]) else Bad
    case (Waiting(i, App, k, ns), DataCallback(_, d)) => if MatchesData(i, d) then Fired else Bad
    case (Waiting(i, App, k, ns), NackCallback(_, n)) =>
      if |ns| == Needed(k) && IsEarliestLeastSevere(ns, n) then Fired else Bad
    case (Waiting(i, App, k, ns), TimeoutCallback(_)) => Fired
    case (Waiting(_, _, _, _), Cancelled(_)) => Withdrawn
    case (Waiting(_, Forwarder, _, _), Removed(_)) => Gone
    case (Fired, Removed(_)) => Gone
    case (Withdrawn, Removed(_)) => Gone
    case (_, _) => Bad
  }

  function RunPhase(p: Phase, id: nat, log: seq<Event>): Phase {
    if log == [] then p
    else
      var before := RunPhase(p, id, log[..|log| - 1]);
      if Concerns(log[|log| - 1], id) then Next(before, log[|log| - 1]) else before
  }

  function PhaseOf(log: seq<Event>, id: nat): Phase {
    RunPhase(NotCreated, id, log)
  }

  lemma {:induction false} RunPhaseConcat(p: Phase, id: nat, a: seq<Event>, b: seq<Event>)
    ensures RunPhase(p, id, a + b) == RunPhase(RunPhase(p, id, a), id, b)
  {
    if b == [] {
      assert a + b == a;
    } else {
      var (n, m) := (|b| - 1, |a + b| - 1);
      RunPhaseConcat(p, id, a, b[..n]);
      assert (a + b)[..m] == a + b[..n];
    }
  }

  lemma {:induction false} RunPhaseOfOthers(p: Phase, id: nat, log: seq<Event>)
    requires forall i :: 0 <= i < |log| ==> !Concerns(log[i], id)
    ensures RunPhase(p, id, log) == p
  {
    if log != [] {
      RunPhaseOfOthers(p, id, log[..|log| - 1]);
    }
  }

  lemma {:induction false} BadStays(id: nat, log: seq<Event>, p: Phase)
    requires p.Bad?
    ensures RunPhase(p, id, log).Bad?
  {
    if log != [] {
      BadStays(id, log[..|log| - 1], p);
    }
  }

  predicate IsEnding(p: Phase) {
    p.Fired? || p.Withdrawn?
  }

  /** A removed record takes no further event, and one that has fired or was withdrawn none but its removal. */
  lemma {:induction false} AfterTheEnd(p: Phase, id: nat, log: seq<Event>)
    requires p.Gone? || IsEnding(p)
    requires !RunPhase(p, id, log).Bad?
    ensures p.Gone? ==> RunPhase(p, id, log).Gone? && forall i :: 0 <= i < |log| ==> !Concerns(log[i], id)
    ensures IsEnding(p) ==> (RunPhase(p, id, log) == p || RunPhase(p, id, log).Gone?) &&
                            forall i :: 0 <= i < |log| ==> !IsCallback(log[i], id)
  {
    if log != [] {
      AfterTheEnd(p, id, log[..|log| - 1]);
    }
  }

  /** What a history without a Bad record says, in plain words: each record is put before anything
      else happens to it, has at most one callback, and nothing happens to it after its removal. */
  lemma LifeInPlainWords(log: seq<Event>, id: nat, i: nat, j: nat)
    requires !PhaseOf(log, id).Bad? && i < j < |log|
    ensures IsCallback(log[i], id) ==> !IsCallback(log[j], id)
    ensures log[i] == Cancelled(id) ==> !IsCallback(log[j], id)
    ensures log[i] == Removed(id) ==> !Concerns(log[j], id)
    ensures Concerns(log[j], id) && log[j].Put? ==> !Concerns(log[i], id)
  {
    var (a, b) := (log[..i], log[i + 1..]);
    var p := RunPhase(NotCreated, id, a);
    assert log == (a + [log[i]]) + b;
    RunPhaseConcat(NotCreated, id, a + [log[i]], b);
    RunPhaseConcat(NotCreated, id, a, [log[i]]);
    assert [log[i]][..0] == [];
    var q := RunPhase(p, id, [log[i]]);
    assert log[j] == b[j - i - 1];
    if Concerns(log[i], id) {
      assert q == Next(p, log[i]);
      if q.Bad? {
        BadStays(id, b, q);
      }
      NoSecondPut(q, id, b);
      if q.Gone? || IsEnding(q) {
        AfterTheEnd(q, id, b);
      }
    }
  }

  /** ... and everything else that happens to a record happens after it is put. */
  lemma PutComesFirst(log: seq<Event>, id: nat, j: nat)
    requires !PhaseOf(log, id).Bad? && j < |log| && Concerns(log[j], id) && !log[j].Put?
    ensures exists i :: 0 <= i < j && log[i].Put? && log[i].id == id
  {
    var (a, b) := (log[..j], log[j + 1..]);
    assert log == (a + [log[j]]) + b;
    RunPhaseConcat(NotCreated, id, a + [log[j]], b);
    RunPhaseConcat(NotCreated, id, a, [log[j]]);
    assert [log[j]][..0] == [];
    var p := PhaseOf(a, id);
    var q := RunPhase(p, id, [log[j]]);
    assert q == Next(p, log[j]);
    if q.Bad? {
      BadStays(id, b, q);
    }
    var i := FindPut(a, id);
    assert a[i] == log[i];
  }

  lemma {:induction false} FindPut(log: seq<Event>, id: nat) returns (i: nat)
    requires !PhaseOf(log, id).Bad? && !PhaseOf(log, id).NotCreated?
    ensures i < |log| && log[i].Put? && log[i].id == id
  {
    var n := |log| - 1;
    if PhaseOf(log[..n], id).NotCreated? {
      i := n;
    } else {
      i := FindPut(log[..n], id);
    }
  }

  /** An application's record does not leave silently: it was answered, or withdrawn. */
  lemma NeverSilent(log: seq<Event>, id: nat, interest: Interest, k: nat, j: nat)
    requires !PhaseOf(log, id).Bad? && k < j < |log| && log[k] == Put(id, interest, App) && log[j] == Removed(id)
    ensures exists i :: 0 <= i < j && (IsCallback(log[i], id) || log[i] == Cancelled(id))
  {
    var (a, b) := (log[..j], log[j + 1..]);
    assert log == (a + [log[j]]) + b;
    RunPhaseConcat(NotCreated, id, a + [log[j]], b);
    RunPhaseConcat(NotCreated, id, a, [log[j]]);
    assert [log[j]][..0] == [];
    var p := PhaseOf(a, id);
    var q := RunPhase(p, id, [log[j]]);
    assert q == Next(p, log[j]);
    if q.Bad? {
      BadStays(id, b, q);
    }
    var i := FindCause(a, id);
    assert a[i] == log[i] && a[k] == log[k];
    if p.Waiting? {
      TwoPuts(a, id, i, k);
    }
  }

  lemma TwoPuts(log: seq<Event>, id: nat, i: nat, k: nat)
    requires !PhaseOf(log, id).Bad? && i < |log| && k < |log|
    requires log[i].Put? && log[k].Put? && log[i].id == id == log[k].id
    ensures i == k
  {
    if i < k {
      LifeInPlainWords(log, id, i, k);
    } else if k < i {
      LifeInPlainWords(log, id, k, i);
    }
  }

  /** The event that put a record in its phase. */
  lemma {:induction false} FindCause(log: seq<Event>, id: nat) returns (i: nat)
    requires var p := PhaseOf(log, id); p.Waiting? || IsEnding(p)
    ensures i < |log|
    ensures var p := PhaseOf(log, id);
      if p.Waiting? then log[i] == Put(id, p.interest, p.origin)
      else if p.Fired? then IsCallback(log[i], id)
      else log[i] == Cancelled(id)
  {
    var n := |log| - 1;
    var before := PhaseOf(log[..n], id);
    if Concerns(log[n], id) && !(log[n].Forwarded? || log[n].NackRecorded?) {
      i := n;
    } else {
      i := FindCause(log[..n], id);
    }
  }

  // ---- the Nacks of a record ----

  /** The Nacks recorded for a record, in the order of their arrival. */
  function NacksOf(log: seq<Event>, id: nat): seq<Nack> {
    if log == [] then []
    else
      var (before, last) := (NacksOf(log[..|log| - 1], id), log[|log| - 1]);
      if last.NackRecorded? && last.id == id then before + [last.nack] else before
  }

  lemma {:induction false} NacksOfConcat(a: seq<Event>, b: seq<Event>, id: nat)
    ensures NacksOf(a + b, id) == NacksOf(a, id) + NacksOf(b, id)
  {
    if b == [] {
      assert a + b == a;
    } else {
      var (n, m) := (|b| - 1, |a + b| - 1);
      NacksOfConcat(a, b[..n], id);
      assert (a + b)[..m] == a + b[..n];
    }
  }

  /** While a record waits, its phase holds the Nacks recorded for it. */
  lemma {:induction false} PhaseHoldsNacks(log: seq<Event>, id: nat)
    ensures PhaseOf(log, id).NotCreated? ==> NacksOf(log, id) == []
    ensures PhaseOf(log, id).Waiting? ==> NacksOf(log, id) == PhaseOf(log, id).nacks
  {
    if log != [] {
      PhaseHoldsNacks(log[..|log| - 1], id);
    }
  }

  lemma {:induction false} NoSecondPut(p: Phase, id: nat, log: seq<Event>)
    requires !p.NotCreated? && !RunPhase(p, id, log).Bad?
    ensures forall i :: 0 <= i < |log| && log[i].Put? ==> log[i].id != id
    ensures !RunPhase(p, id, log).NotCreated?
  {
    if log != [] {
      NoSecondPut(p, id, log[..|log| - 1]);
    }
  }
}
