/** The face: its pending Interest table, its filters, and the tasks posted to its event loop. */
module Faces {
  import opened Bytes
  import opened Names
  import opened Packets
  import opened Pending

  /** An InterestFilter record; `matches` stands for the prefix and pattern test. */
  datatype Filter = Filter(id: nat, matches: Name -> bool, loopback: bool)

  predicate DoesMatch(f: Filter, r: Record) {
    (r.origin.Forwarder? || f.loopback) && f.matches(r.interest.name)
  }

  /** Work posted by the API calls and run later, first posted first. */
  datatype Task =
    | Express(id: nat, interest: Interest)
    | Cancel(id: nat)
    | RemoveAll
    | PutData(data: Data)
    | PutNack(nack: Nack)
    | SetFilter(filter: Filter)
    | UnsetFilter(id: nat)
    | Shutdown

  /** What a removeIf visitor does with one record: keep it (changed) or not, what it makes happen,
      and what it notes in the caller's variables. */
  datatype Visit = Visit(keep: Option<Record>, events: seq<Event>, appMatch: bool, forwarderMatch: bool,
                         nack: Option<Nack>)

  // ---- the table and the history agree ----

  ghost predicate Ascending(pit: seq<Record>) {
    forall i, j :: 0 <= i < j < |pit| ==> pit[i].id < pit[j].id
  }

  ghost predicate Agrees(r: Record, p: Phase) {
    && p.Waiting? && p.interest == r.interest && p.origin == r.origin
    && r.nNotNacked == p.forwarded - |p.nacks| && r.leastSevere == Least(p.nacks)
    && |p.nacks| < Needed(p.forwarded)
  }

  ghost predicate InTable(pit: seq<Record>, id: nat) {
    exists i :: 0 <= i < |pit| && pit[i].id == id
  }

  /** A record in the table is waiting; any other is not there yet or gone for good. */
  ghost predicate Tracks(pit: seq<Record>, log: seq<Event>) {
    && (forall i :: 0 <= i < |pit| ==> Agrees(pit[i], PhaseOf(log, pit[i].id)))
    && (forall id :: !InTable(pit, id) ==> PhaseOf(log, id).NotCreated? || PhaseOf(log, id).Gone?)
  }

  ghost predicate OnlyConcerns(events: seq<Event>, id: nat) {
    forall i :: 0 <= i < |events| ==> Concerns(events[i], id)
  }

  /** From any phase that agrees with the record, the visit leads to one that agrees with its result. */
  ghost predicate Lawful(r: Record, v: Visit) {
    && OnlyConcerns(v.events, r.id)
    && forall p: Phase :: Agrees(r, p) ==>
         var q := RunPhase(p, r.id, v.events);
         if v.keep.Some? then v.keep.value.id == r.id && Agrees(v.keep.value, q) else q.Gone?
  }

  function Rest(keep: Option<Record>): seq<Record> {
    if keep.Some? then [keep.value] else []
  }

  /** Which records exist at all is the same in both histories. */
  ghost predicate SameCreated(log: seq<Event>, log': seq<Event>) {
    forall id :: PhaseOf(log', id).NotCreated? <==> PhaseOf(log, id).NotCreated?
  }

  lemma SameCreatedChain(a: seq<Event>, b: seq<Event>, c: seq<Event>)
    ensures SameCreated(a, a)
    ensures SameCreated(a, b) && SameCreated(b, c) ==> SameCreated(a, c)
  {
    hide PhaseOf;
  }

  lemma OneVisit(a: seq<Record>, r: Record, b: seq<Record>, log: seq<Event>, v: Visit)
    requires Ascending(a + [r] + b) && Tracks(a + [r] + b, log) && Lawful(r, v)
    ensures var pit := a + Rest(v.keep) + b;
      Ascending(pit) && Tracks(pit, log + v.events) && SameCreated(log, log + v.events)
  {
    hide Next, Least;
    var (pit, pit', log') := (a + [r] + b, a + Rest(v.keep) + b, log + v.events);
    assert pit[|a|] == r;
    forall id
      ensures PhaseOf(log', id) == if id == r.id then RunPhase(PhaseOf(log, id), id, v.events) else PhaseOf(log, id)
    {
      RunPhaseConcat(NotCreated, id, log, v.events);
      if id != r.id {
        RunPhaseOfOthers(PhaseOf(log, id), id, v.events);
      }
    }
    Splice(a, r, b, v.keep);
    forall i | 0 <= i < |pit'|
      ensures Agrees(pit'[i], PhaseOf(log', pit'[i].id))
    {
      if pit'[i].id != r.id {
        var j :| 0 <= j < |pit| && pit[j] == pit'[i];
      }
    }
  }

  /** Replacing or dropping one record of a table touches no other. */
  lemma Splice(a: seq<Record>, r: Record, b: seq<Record>, keep: Option<Record>)
    requires Ascending(a + [r] + b) && (keep.Some? ==> keep.value.id == r.id)
    ensures var (pit, pit') := (a + [r] + b, a + Rest(keep) + b);
      && Ascending(pit')
      && (forall id :: id != r.id ==> (InTable(pit', id) <==> InTable(pit, id)))
      && (InTable(pit', r.id) <==> keep.Some?)
      && (forall i :: 0 <= i < |pit'| ==>
            if pit'[i].id == r.id then keep == Some(pit'[i]) else exists j :: 0 <= j < |pit| && pit[j] == pit'[i])
  {
    if keep.Some? {
      SpliceKeep(a, r, b, keep.value);
    } else {
      SpliceDrop(a, r, b);
      assert a + [] + b == a + b;
    }
  }

  lemma SpliceKeep(a: seq<Record>, r: Record, b: seq<Record>, r': Record)
    requires Ascending(a + [r] + b) && r'.id == r.id
    ensures var (pit, pit') := (a + [r] + b, a + [r'] + b);
      && Ascending(pit') && (forall id :: InTable(pit', id) <==> InTable(pit, id)) && InTable(pit', r.id)
      && (forall i :: 0 <= i < |pit'| ==>
            if pit'[i].id == r.id then pit'[i] == r' else exists j :: 0 <= j < |pit| && pit[j] == pit'[i])
  {
    var (pit, pit') := (a + [r] + b, a + [r'] + b);
    assert pit[|a|] == r && pit'[|a|] == r';
    assert forall i :: 0 <= i < |pit| ==> i == |a| || pit'[i] == pit[i];
    assert forall i :: 0 <= i < |pit| ==> pit'[i].id == pit[i].id;
    assert forall i :: 0 <= i < |pit| && i != |a| ==> pit[i].id != r.id;
  }

  lemma SpliceDrop(a: seq<Record>, r: Record, b: seq<Record>)
    requires Ascending(a + [r] + b)
    ensures var (pit, pit') := (a + [r] + b, a + b);
      && Ascending(pit') && !InTable(pit', r.id)
      && (forall id :: id != r.id ==> (InTable(pit', id) <==> InTable(pit, id)))
      && (forall i :: 0 <= i < |pit'| ==> exists j :: 0 <= j < |pit| && pit[j] == pit'[i])
  {
    var (pit, pit') := (a + [r] + b, a + b);
    assert pit[|a|] == r;
    assert forall i :: 0 <= i < |pit'| ==> pit'[i] == pit[if i < |a| then i else i + 1];
    forall id | id != r.id && InTable(pit, id)
      ensures InTable(pit', id)
    {
      var j :| 0 <= j < |pit| && pit[j].id == id;
      assert pit'[if j < |a| then j else j - 1].id == id;
    }
  }

  // ---- visitors ----

  lemma RunSnoc(p: Phase, id: nat, log: seq<Event>, ev: Event)
    requires Concerns(ev, id)
    ensures RunPhase(p, id, log + [ev]) == Next(RunPhase(p, id, log), ev)
  {
    assert (log + [ev])[..|log|] == log;
  }

  lemma RunOne(p: Phase, id: nat, ev: Event)
    requires Concerns(ev, id)
    ensures RunPhase(p, id, [ev]) == Next(p, ev)
  {
    assert [ev] == [] + [ev] && RunPhase(p, id, []) == p;
    RunSnoc(p, id, [], ev);
  }

  /** The visitor of satisfyPendingInterests. */
  function SatisfyOne(data: Data, r: Record): Visit {
    if !MatchesData(r.interest, data) then Visit(Some(r), [], false, false, None)
    else
      Visit(None, (if r.origin.App? then [DataCallback(r.id, data)] else []) + [Removed(r.id)],
            r.origin.App?, r.origin.Forwarder?, None)
  }

  lemma SatisfyLawful(data: Data, r: Record)
    ensures Lawful(r, SatisfyOne(data, r))
  {
    var v := SatisfyOne(data, r);
    forall p: Phase | Agrees(r, p)
      ensures var q := RunPhase(p, r.id, v.events);
        if v.keep.Some? then v.keep.value.id == r.id && Agrees(v.keep.value, q) else q.Gone?
    {
      if r.origin.App? {
        RunOne(p, r.id, DataCallback(r.id, data));
        RunSnoc(p, r.id, [DataCallback(r.id, data)], Removed(r.id));
      } else {
        RunOne(p, r.id, Removed(r.id));
        assert [] + [Removed(r.id)] == [Removed(r.id)];
      }
    }
  }

  /** The visitor of nackPendingInterests. */
  function NackOne(nack: Nack, r: Record): Visit {
    if !MatchesInterest(nack.interest, r.interest) then Visit(Some(r), [], false, false, None)
    else
      var (r', out) := RecordNack(r, nack);
      if out.None? then Visit(Some(r'), [NackRecorded(r.id, nack)], false, false, None)
      else
        Visit(None,
              [NackRecorded(r.id, nack)] + (if r.origin.App? then [NackCallback(r.id, out.value)] else [])
              + [Removed(r.id)],
              false, false, if r.origin.Forwarder? then out else None)
  }

  lemma NackLawful(nack: Nack, r: Record)
    ensures Lawful(r, NackOne(nack, r))
  {
    hide MatchesInterest;
    var v := NackOne(nack, r);
    forall p: Phase | Agrees(r, p)
      ensures var q := RunPhase(p, r.id, v.events);
        if v.keep.Some? then v.keep.value.id == r.id && Agrees(v.keep.value, q) else q.Gone?
    {
      if MatchesInterest(nack.interest, r.interest) {
        NackLeads(nack, r, p);
      }
    }
  }

  lemma NackLeads(nack: Nack, r: Record, p: Phase)
    requires Agrees(r, p) && MatchesInterest(nack.interest, r.interest)
    ensures var v := NackOne(nack, r);
      var q := RunPhase(p, r.id, v.events);
      if v.keep.Some? then Agrees(v.keep.value, q) else q.Gone?
  {
    hide MatchesInterest, RunPhase, IsEarliestLeastSevere;
    var (ns, first) := (p.nacks + [nack], NackRecorded(r.id, nack));
    assert ns[..|p.nacks|] == p.nacks;
    RunOne(p, r.id, first);
    var q := p.(nacks := ns);
    assert RunPhase(p, r.id, [first]) == q;
    var (r', out) := RecordNack(r, nack);
    if out.Some? {
      LeastIsEarliest(ns);
      if r.origin.App? {
        RunSnoc(p, r.id, [first], NackCallback(r.id, out.value));
        RunSnoc(p, r.id, [first] + [NackCallback(r.id, out.value)], Removed(r.id));
      } else {
        RunSnoc(p, r.id, [first] + [], Removed(r.id));
        assert [first] + [] == [first];
      }
    }
  }

  /** What erase() and clear() do with a record: it is withdrawn. */
  function DropOne(r: Record): Visit {
    Visit(None, [Cancelled(r.id), Removed(r.id)], false, false, None)
  }

  lemma DropLawful(r: Record)
    ensures Lawful(r, DropOne(r))
  {
    hide RunPhase;
    forall p: Phase | Agrees(r, p)
      ensures RunPhase(p, r.id, DropOne(r).events).Gone?
    {
      RunOne(p, r.id, Cancelled(r.id));
      RunSnoc(p, r.id, [Cancelled(r.id)], Removed(r.id));
      assert [Cancelled(r.id)] + [Removed(r.id)] == DropOne(r).events;
    }
  }

  /** What visiting records amounts to: those kept, the events, and what was noted. */
  datatype Total = Total(kept: seq<Record>, events: seq<Event>, appMatch: bool, forwarderMatch: bool,
                         nack: Option<Nack>)

  function Combine(t: Total, v: Visit): Total {
    Total(t.kept + Rest(v.keep), t.events + v.events, t.appMatch || v.appMatch, t.forwarderMatch || v.forwarderMatch,
          if v.nack.Some? then v.nack else t.nack)
  }

  /** Visiting all records of a table in id order. */
  function VisitAll(pit: seq<Record>, visit: Record -> Visit): Total {
    if pit == [] then Total([], [], false, false, None)
    else Combine(VisitAll(pit[..|pit| - 1], visit), visit(pit[|pit| - 1]))
  }

  function SatisfyAll(pit: seq<Record>, data: Data): Total {
    VisitAll(pit, r => SatisfyOne(data, r))
  }

  function NackAll(pit: seq<Record>, nack: Nack): Total {
    VisitAll(pit, r => NackOne(nack, r))
  }

  function DropAll(pit: seq<Record>): Total {
    VisitAll(pit, r => DropOne(r))
  }

  lemma VisitOneMore(pit: seq<Record>, n: nat, visit: Record -> Visit)
    requires n < |pit|
    ensures VisitAll(pit[..n + 1], visit) == Combine(VisitAll(pit[..n], visit), visit(pit[n]))
  {
    assert pit[..n + 1][..n] == pit[..n];
  }

  // ---- tasks ----

  ghost predicate Queued(tasks: seq<Task>, id: nat) {
    exists i :: 0 <= i < |tasks| && tasks[i].Express? && tasks[i].id == id
  }

  /** Ids are given out once: an id up to the last one is put, or its Express is queued, once, and
      behind no Cancel for it. */
  ghost predicate TasksOk(tasks: seq<Task>, lastId: nat, log: seq<Event>) {
    && (forall i :: 0 <= i < |tasks| && (tasks[i].Express? || tasks[i].Cancel?) ==> 1 <= tasks[i].id <= lastId)
    && (forall i :: 0 <= i < |tasks| && tasks[i].Express? ==> PhaseOf(log, tasks[i].id).NotCreated?)
    && (forall i, j :: 0 <= i < j < |tasks| && (tasks[i].Express? || tasks[i].Cancel?) && tasks[j].Express? ==>
                         tasks[i].id != tasks[j].id)
    && (forall id :: 1 <= id <= lastId && PhaseOf(log, id).NotCreated? ==> Queued(tasks, id))
    && (forall id :: id == 0 || id > lastId ==> PhaseOf(log, id).NotCreated?)
  }

  lemma TasksKeep(tasks: seq<Task>, lastId: nat, log: seq<Event>, log': seq<Event>)
    requires TasksOk(tasks, lastId, log) && SameCreated(log, log')
    ensures TasksOk(tasks, lastId, log')
  {
    hide PhaseOf, Queued;
  }

  lemma TasksPop(tasks: seq<Task>, lastId: nat, log: seq<Event>)
    requires TasksOk(tasks, lastId, log) && tasks != []
    ensures !tasks[0].Express? ==> TasksOk(tasks[1..], lastId, log)
    ensures forall id :: Queued(tasks, id) ==> Queued(tasks[1..], id) || (tasks[0].Express? && tasks[0].id == id)
    ensures tasks[0].Cancel? ==> !PhaseOf(log, tasks[0].id).NotCreated?
  {
    hide PhaseOf;
    var rest := tasks[1..];
    forall id | Queued(tasks, id)
      ensures Queued(rest, id) || (tasks[0].Express? && tasks[0].id == id)
    {
      var i :| 0 <= i < |tasks| && tasks[i].Express? && tasks[i].id == id;
      assert i > 0 ==> rest[i - 1] == tasks[i];
    }
    assert forall i :: 0 <= i < |rest| ==> rest[i] == tasks[i + 1];
  }

  lemma TasksPush(tasks: seq<Task>, lastId: nat, log: seq<Event>, t: Task)
    requires TasksOk(tasks, lastId, log) && !t.Express? && (t.Cancel? ==> 1 <= t.id <= lastId)
    ensures TasksOk(tasks + [t], lastId, log)
  {
    hide PhaseOf;
    QueuedStays(tasks, t);
  }

  lemma QueuedStays(tasks: seq<Task>, t: Task)
    ensures forall id :: Queued(tasks, id) ==> Queued(tasks + [t], id)
    ensures t.Express? ==> Queued(tasks + [t], t.id)
  {
    forall id | Queued(tasks, id)
      ensures Queued(tasks + [t], id)
    {
      var i :| 0 <= i < |tasks| && tasks[i].Express? && tasks[i].id == id;
      assert (tasks + [t])[i] == tasks[i];
    }
    assert (tasks + [t])[|tasks|] == t;
  }

  lemma TasksPushExpress(tasks: seq<Task>, lastId: nat, log: seq<Event>, interest: Interest)
    requires TasksOk(tasks, lastId, log)
    ensures TasksOk(tasks + [Express(lastId + 1, interest)], lastId + 1, log)
  {
    hide PhaseOf;
    QueuedStays(tasks, Express(lastId + 1, interest));
  }

  // ---- the face ----

  class Face {
    var pit: seq<Record>
    var filters: seq<Filter>
    var lastId: nat
    var tasks: seq<Task>
    var log: seq<Event>

    ghost predicate Core()
      reads this
    {
      Ascending(pit) && Tracks(pit, log)
    }

    ghost predicate Valid()
      reads this
    {
      Core() && TasksOk(tasks, lastId, log)
    }

    constructor ()
      ensures Valid() && pit == [] && filters == [] && tasks == [] && log == [] && lastId == 0
    {
      pit, filters, lastId, tasks, log := [], [], 0, [], [];
    }

    /** RecordContainer::removeIf: visit the records in id order, erasing while iterating. */
    method RemoveIf(visit: Record -> Visit) returns (hasAppMatch: bool, hasForwarderMatch: bool, out: Option<Nack>)
      requires Core() && forall r :: Lawful(r, visit(r))
      modifies this`pit, this`log
      ensures Core() && SameCreated(old(log), log)
      ensures var t := VisitAll(old(pit), visit);
        && pit == t.kept && log == old(log) + t.events
        && hasAppMatch == t.appMatch && hasForwarderMatch == t.forwarderMatch && out == t.nack
    {
      hide Lawful, Tracks, Ascending, PhaseOf, VisitAll, SameCreated, Combine, Rest;
      hasAppMatch, hasForwarderMatch, out := false, false, None;
      ghost var (was, n) := (pit, 0);
      ghost var t := VisitNone(was, log, visit);
      SameCreatedChain(log, log, log);
      var i := 0;
      while i < |pit|
        invariant 0 <= n <= |was| && t == VisitAll(was[..n], visit)
        invariant i == |t.kept| && pit == t.kept + was[n..] && log == old(log) + t.events
        invariant Core() && SameCreated(old(log), log)
        invariant hasAppMatch == t.appMatch && hasForwarderMatch == t.forwarderMatch && out == t.nack
        decreases |was| - n
      {
        var v := visit(pit[i]);
        NextRecord(pit, t, was, n, old(log), log, v);
        VisitOneMore(was, n, visit);
        OneVisit(t.kept, was[n], was[n + 1..], log, v);
        SameCreatedChain(old(log), log, log + v.events);
        hasAppMatch := hasAppMatch || v.appMatch;
        hasForwarderMatch := hasForwarderMatch || v.forwarderMatch;
        if v.nack.Some? {
          out := v.nack;
        }
        log := log + v.events;
        if v.keep.None? {
          pit := pit[..i] + pit[i + 1..];
        } else {
          pit := pit[i := v.keep.value];
          i := i + 1;
        }
        t, n := Combine(t, v), n + 1;
      }
      AllVisited(t, was, n);
    }

    /** satisfyPendingInterests: resolve exactly the matching records. The result says whether the
        Data goes to the forwarder: some forwarder's Interest matches, or no Interest at all does. */
    method SatisfyPendingInterests(data: Data) returns (send: bool)
      requires Valid()
      modifies this`pit, this`log
      ensures Valid() && pit == SatisfyAll(old(pit), data).kept && log == old(log) + SatisfyAll(old(pit), data).events
      ensures forall r :: r in pit <==> r in old(pit) && !MatchesData(r.interest, data)
      ensures forall r :: r in old(pit) && MatchesData(r.interest, data) ==>
                PhaseOf(log, r.id).Gone? && (r.origin.App? ==> DataCallback(r.id, data) in log[|old(log)|..])
      ensures send <==> (exists r :: r in old(pit) && MatchesData(r.interest, data) && r.origin.Forwarder?)
                        || !(exists r :: r in old(pit) && MatchesData(r.interest, data))
      ensures Uncancelled(old(log), log)
    {
      hide MatchesData, Tracks, Lawful, VisitAll, TasksOk, SameCreated;
      forall r: Record
        ensures Lawful(r, SatisfyOne(data, r))
      {
        SatisfyLawful(data, r);
      }
      var app, forwarder, _ := RemoveIf(r => SatisfyOne(data, r));
      SatisfyTotal(old(pit), data);
      SatisfyFlags(old(pit), data);
      SatisfyCancelsNone(old(pit), data);
      TasksKeep(tasks, lastId, old(log), log);
      send := forwarder || !app;
      forall r | r in old(pit) && MatchesData(r.interest, data)
        ensures PhaseOf(log, r.id).Gone?
      {
        RemovedIsGone(old(pit), old(log), pit, log, r);
      }
    }

    /** nackPendingInterests: record the Nack with every matching record; one that has heard from all
        its destinations is resolved. The result is the Nack to return to the forwarder. */
    method NackPendingInterests(nack: Nack) returns (out: Option<Nack>)
      requires Valid()
      modifies this`pit, this`log
      ensures Valid() && pit == NackAll(old(pit), nack).kept && log == old(log) + NackAll(old(pit), nack).events
      ensures out == NackAll(old(pit), nack).nack
      ensures NackDone(nack, old(pit), old(log), pit, log, out)
      ensures Uncancelled(old(log), log)
    {
      hide MatchesInterest, Tracks, Lawful, VisitAll, TasksOk, SameCreated, NackOne, NackDone, Ascending;
      forall r: Record
        ensures Lawful(r, NackOne(nack, r))
      {
        NackLawful(nack, r);
      }
      var _, _, n := RemoveIf(r => NackOne(nack, r));
      TasksKeep(tasks, lastId, old(log), log);
      out := n;
      NackAllDone(old(pit), old(log), nack);
      NackCancelsNone(old(pit), nack);
    }

    /** RecordContainer::clear: every record is withdrawn, and nothing else happens. */
    method Clear()
      requires Valid()
      modifies this`pit, this`log
      ensures Valid() && pit == [] && old(log) <= log
      ensures forall e :: e in log[|old(log)|..] <==>
                exists r :: r in old(pit) && (e == Cancelled(r.id) || e == Removed(r.id))
    {
      hide Tracks, Lawful, TasksOk, SameCreated;
      forall r: Record
        ensures Lawful(r, DropOne(r))
      {
        DropLawful(r);
      }
      var _, _, _ := RemoveIf(r => DropOne(r));
      TasksKeep(tasks, lastId, old(log), log);
      ClearedTotal(old(pit));
    }

    method PositionOf(id: nat) returns (p: nat)
      ensures p <= |pit| && (p < |pit| ==> pit[p].id == id)
      ensures p == |pit| <==> !InTable(pit, id)
    {
      p := 0;
      while p < |pit| && pit[p].id != id
        invariant p <= |pit| && forall i :: 0 <= i < p ==> pit[i].id != id
      {
        p := p + 1;
      }
    }

    /** Replace or drop the record at `p`, with the events of `v`. */
    method VisitAt(p: nat, v: Visit)
      requires Valid() && p < |pit| && Lawful(pit[p], v)
      modifies this`pit, this`log
      ensures Valid() && SameCreated(old(log), log)
      ensures pit == old(pit)[..p] + Rest(v.keep) + old(pit)[p + 1..] && log == old(log) + v.events
    {
      hide Lawful, Tracks, Ascending, TasksOk, SameCreated;
      ghost var (a, b) := (pit[..p], pit[p + 1..]);
      assert pit == a + [pit[p]] + b;
      OneVisit(a, pit[p], b, log, v);
      TasksKeep(tasks, lastId, log, log + v.events);
      pit := pit[..p] + Rest(v.keep) + pit[p + 1..];
      log := log + v.events;
    }

    /** RecordContainer::erase. */
    method Erase(id: nat)
      requires Valid()
      modifies this`pit, this`log
      ensures Valid() && !InTable(pit, id)
      ensures !InTable(old(pit), id) ==> pit == old(pit) && log == old(log)
      ensures InTable(old(pit), id) ==> log == old(log) + [Cancelled(id), Removed(id)] && exists p ::
                0 <= p < |old(pit)| && old(pit)[p].id == id && pit == old(pit)[..p] + old(pit)[p + 1..]
      ensures !PhaseOf(old(log), id).NotCreated? ==> PhaseOf(log, id).Gone?
    {
      hide Ascending, TasksOk, PhaseOf, Lawful;
      var p := PositionOf(id);
      if p < |pit| {
        DropLawful(pit[p]);
        DroppedNotInTable(pit, p);
        VisitAt(p, DropOne(pit[p]));
        assert old(pit)[..p] + [] + old(pit)[p + 1..] == old(pit)[..p] + old(pit)[p + 1..];
      }
    }

    /** The record's timer fires: call the application back, if the Interest is its own, and delete
        the record. */
    method Timeout(id: nat)
      requires Valid() && InTable(pit, id)
      modifies this`pit, this`log
      ensures Valid() && PhaseOf(log, id).Gone?
      ensures exists p ::
                && 0 <= p < |old(pit)| && old(pit)[p].id == id
                && pit == old(pit)[..p] + old(pit)[p + 1..]
                && log == old(log) + (if old(pit)[p].origin.App? then [TimeoutCallback(id)] else []) + [Removed(id)]
    {
      hide Ascending, TasksOk, PhaseOf, Lawful;
      var p := PositionOf(id);
      TimeoutLawful(pit[p]);
      DroppedNotInTable(pit, p);
      VisitAt(p, TimeoutOne(pit[p]));
      assert log == old(log) + (if old(pit)[p].origin.App? then [TimeoutCallback(id)] else []) + [Removed(id)];
      assert old(pit)[..p] + [] + old(pit)[p + 1..] == old(pit)[..p] + old(pit)[p + 1..];
    }

    /** RecordContainer::put, in id order. */
    method Put(id: nat, interest: Interest, origin: Origin) returns (p: nat)
      requires Core() && PhaseOf(log, id).NotCreated?
      modifies this`pit, this`log
      ensures Core() && p < |pit| && pit[p] == Record(id, interest, origin, 0, None)
      ensures p <= |old(pit)| && pit == old(pit)[..p] + [pit[p]] + old(pit)[p..]
      ensures log == old(log) + [Pending.Put(id, interest, origin)]
      ensures forall i :: PhaseOf(log, i).NotCreated? <==> PhaseOf(old(log), i).NotCreated? && i != id
    {
      hide PhaseOf;
      p := 0;
      while p < |pit| && pit[p].id < id
        invariant p <= |pit| && forall i :: 0 <= i < p ==> pit[i].id < id
      {
        p := p + 1;
      }
      PutTracks(pit, log, p, id, interest, origin);
      pit := pit[..p] + [Record(id, interest, origin, 0, None)] + pit[p..];
      log := log + [Pending.Put(id, interest, origin)];
    }

    /** recordForwarding on the record at `p`, which has not been Nacked yet. */
    method RecordForwardingAt(p: nat)
      requires Valid() && p < |pit| && pit[p].leastSevere.None?
      modifies this`pit, this`log
      ensures Valid() && SameCreated(old(log), log)
      ensures pit == old(pit)[p := RecordForwarding(old(pit)[p])] && log == old(log) + [Forwarded(old(pit)[p].id)]
    {
      hide Lawful, Tracks, Ascending, TasksOk, SameCreated;
      ForwardLawful(pit[p]);
      VisitAt(p, ForwardOne(pit[p]));
      assert old(pit)[p := RecordForwarding(old(pit)[p])]
          == old(pit)[..p] + [RecordForwarding(old(pit)[p])] + old(pit)[p + 1..];
    }

    /** dispatchInterest: one forwarding for each filter that takes the Interest. */
    method DispatchInterest(p: nat)
      requires Valid() && p < |pit| && pit[p].leastSevere.None?
      modifies this`pit, this`log
      ensures Valid() && Uncancelled(old(log), log) && SameCreated(old(log), log)
      ensures var r := old(pit)[p];
        pit == old(pit)[p := r.(nNotNacked := r.nNotNacked + MatchCount(filters, r))]
    {
      hide Tracks, Ascending, TasksOk, SameCreated, DoesMatch;
      ghost var r := pit[p];
      SameCreatedChain(log, log, log);
      assert filters[..0] == [];
      for i := 0 to |filters|
        invariant Valid() && Uncancelled(old(log), log) && SameCreated(old(log), log)
        invariant pit == old(pit)[p := r.(nNotNacked := r.nNotNacked + MatchCount(filters[..i], r))]
      {
        assert filters[..i + 1][..i] == filters[..i];
        SameMatch(filters[i], r, pit[p]);
        if DoesMatch(filters[i], pit[p]) {
          ghost var before := log;
          RecordForwardingAt(p);
          SameCreatedChain(old(log), before, log);
        }
      }
      assert filters[..|filters|] == filters;
    }

    /** A packet goes out; no record is concerned. */
    method Send(ev: Event)
      requires Valid() && (ev.SentInterest? || ev.SentData? || ev.SentNack?)
      modifies this`log
      ensures Valid() && log == old(log) + [ev] && SameCreated(old(log), log)
    {
      hide TasksOk;
      forall id
        ensures PhaseOf(log + [ev], id) == PhaseOf(log, id)
      {
        assert (log + [ev])[..|log|] == log;
      }
      TasksKeep(tasks, lastId, log, log + [ev]);
      log := log + [ev];
    }

    /** The work of expressInterest: one destination is the forwarder, the others are the filters that
        take the application's own Interests. */
    method ExpressInterest(id: nat, interest: Interest) returns (ghost p: nat, ghost r: Record)
      requires tasks != [] && tasks[0] == Express(id, interest)
      requires Valid()
      modifies this`pit, this`log, this`tasks
      ensures Valid() && Uncancelled(old(log), log) && tasks == old(tasks)[1..]
      ensures SentInterest(interest) in log[|old(log)|..]
      ensures p <= |old(pit)| && pit == old(pit)[..p] + [r] + old(pit)[p..]
      ensures r == Record(id, interest, App, 1 + Takers(Loopback(filters), interest.name), None)
    {
      hide Tracks, Ascending, SameCreated;
      TasksPop(tasks, lastId, log);
      var at := Put(id, interest, App);
      ghost var put := pit[at];
      TasksTake(old(tasks), lastId, old(log), log);
      tasks := tasks[1..];
      hide TasksOk;
      RecordForwardingAt(at);
      ghost var before := log;
      Send(SentInterest(interest));
      CountsTakers(filters, pit[at]);
      DispatchInterest(at);
      p, r := at, pit[at];
      UpdateInserted(old(pit), at, put, r);
      assert log[|before|] == log[|old(log)|..][|before| - |old(log)|];
    }

    /** processIncomingInterest. */
    method ReceiveInterest(interest: Interest) returns (ghost p: nat, ghost r: Record)
      requires Valid()
      modifies this`pit, this`log, this`lastId
      ensures Valid() && Uncancelled(old(log), log) && lastId == old(lastId) + 1
      ensures p <= |old(pit)| && pit == old(pit)[..p] + [r] + old(pit)[p..]
      ensures r == Record(lastId, interest, Forwarder, Takers(filters, interest.name), None)
    {
      hide Tracks, Ascending, SameCreated;
      var at := Put(lastId + 1, interest, Forwarder);
      ghost var put := pit[at];
      TasksAllocate(tasks, lastId, old(log), log);
      lastId := lastId + 1;
      hide TasksOk;
      CountsTakers(filters, pit[at]);
      DispatchInterest(at);
      p, r := at, pit[at];
      UpdateInserted(old(pit), at, put, r);
    }

    /** Data from the forwarder resolves records and is not sent back. */
    method ReceiveData(data: Data)
      requires Valid()
      modifies this`pit, this`log
      ensures Valid() && pit == SatisfyAll(old(pit), data).kept && log == old(log) + SatisfyAll(old(pit), data).events
      ensures forall r :: r in pit <==> r in old(pit) && !MatchesData(r.interest, data)
      ensures forall r :: r in old(pit) && MatchesData(r.interest, data) ==>
                PhaseOf(log, r.id).Gone? && (r.origin.App? ==> DataCallback(r.id, data) in log[|old(log)|..])
      ensures Uncancelled(old(log), log)
    {
      hide MatchesData, SatisfyAll, PhaseOf, Tracks, Ascending, TasksOk;
      var _ := SatisfyPendingInterests(data);
    }

    method ReceiveNack(nack: Nack)
      requires Valid()
      modifies this`pit, this`log
      ensures Valid() && pit == NackAll(old(pit), nack).kept && log == old(log) + NackAll(old(pit), nack).events
      ensures NackDone(nack, old(pit), old(log), pit, log, NackAll(old(pit), nack).nack) && Uncancelled(old(log), log)
    {
      hide NackDone, NackAll, Tracks, Ascending, TasksOk;
      var _ := NackPendingInterests(nack);
    }

    /** putData: Data goes to the forwarder when one of its Interests, or none at all, waits for it. */
    method PutDataNow(data: Data)
      requires Valid()
      modifies this`pit, this`log
      ensures Valid() && pit == SatisfyAll(old(pit), data).kept && Uncancelled(old(log), log)
      ensures log == old(log) + SatisfyAll(old(pit), data).events
                     + if (exists r :: r in old(pit) && MatchesData(r.interest, data) && r.origin.Forwarder?)
                          || !(exists r :: r in old(pit) && MatchesData(r.interest, data))
                       then [SentData(data)] else []
    {
      hide Tracks, Ascending, TasksOk, SatisfyAll, MatchesData;
      var send := SatisfyPendingInterests(data);
      if send {
        Send(SentData(data));
      }
    }

    /** putNack: the Nack of a forwarder's Interest that is resolved goes to the forwarder. */
    method PutNackNow(nack: Nack)
      requires Valid()
      modifies this`pit, this`log
      ensures Valid() && pit == NackAll(old(pit), nack).kept && Uncancelled(old(log), log)
      ensures var t := NackAll(old(pit), nack);
        && log == old(log) + t.events + (if t.nack.Some? then [SentNack(t.nack.value)] else [])
        && NackDone(nack, old(pit), old(log), pit, old(log) + t.events, t.nack)
    {
      hide Tracks, Ascending, TasksOk, NackAll, NackDone;
      var out := NackPendingInterests(nack);
      if out.Some? {
        Send(SentNack(out.value));
      }
    }

    // ---- API calls: each posts a task ----

    /** Face::expressInterest: the id is taken at once, the record is put when the posted work is done. */
    method CallExpress(interest: Interest) returns (id: nat)
      requires Valid()
      modifies this`lastId, this`tasks
      ensures Valid() && id == lastId == old(lastId) + 1 && tasks == old(tasks) + [Express(id, interest)]
    {
      hide Tracks, Ascending, TasksOk;
      TasksPushExpress(tasks, lastId, log, interest);
      lastId := lastId + 1;
      id := lastId;
      tasks := tasks + [Express(id, interest)];
    }

    /** Any other call. A Cancel comes from a handle, so its id has been given out. */
    method Call(task: Task)
      requires Valid() && !task.Express? && (task.Cancel? ==> 1 <= task.id <= lastId)
      modifies this`tasks
      ensures Valid() && tasks == old(tasks) + [task]
    {
      hide Tracks, Ascending, TasksOk;
      TasksPush(tasks, lastId, log, task);
      tasks := tasks + [task];
    }

    /** Do the work at the head of the queue. Once a Cancel is done, its record is gone. */
    method RunTask()
      requires Valid() && tasks != []
      modifies this
      ensures Valid() && old(log) <= log && tasks == old(tasks)[1..]
      ensures old(tasks[0]).Cancel? ==> PhaseOf(log, old(tasks[0]).id).Gone?
      ensures old(tasks[0]).RemoveAll? || old(tasks[0]).Shutdown? ==> pit == []
      ensures forall i :: |old(log)| <= i < |log| && log[i].Cancelled? ==> Withdraws(old(tasks[0]), log[i].id)
      ensures old(tasks[0]).PutData? ==> pit == old(SatisfyAll(pit, tasks[0].data).kept)
      ensures old(tasks[0]).PutNack? ==> pit == old(NackAll(pit, tasks[0].nack).kept)
      ensures old(tasks[0]).SetFilter? ==> filters == old(filters + [tasks[0].filter]) && pit == old(pit)
      ensures old(tasks[0]).UnsetFilter? ==> filters == old(Unset(filters, tasks[0].id)) && pit == old(pit)
    {
      hide Tracks, Ascending, TasksOk, PhaseOf, NackDone, NackAll, SatisfyAll, DropAll, MatchesData;
      var task := tasks[0];
      if task.Express? {
        var _, _ := ExpressInterest(task.id, task.interest);
        return;
      }
      TasksPop(tasks, lastId, log);
      tasks := tasks[1..];
      match task {
        case Cancel(id) => Erase(id);
        case RemoveAll => Clear();
        case PutData(data) => PutDataNow(data);
        case PutNack(nack) => PutNackNow(nack);
        case SetFilter(filter) => filters := filters + [filter];
        case UnsetFilter(id) => filters := Unset(filters, id);
        case Shutdown => Clear();
      }
    }
  }

  /** Work that withdraws the record: its cancellation, or the removal of all. */
  predicate Withdraws(task: Task, id: nat) {
    task == Cancel(id) || task.RemoveAll? || task.Shutdown?
  }

  /** Nothing was withdrawn between the two histories. */
  ghost predicate Uncancelled(log: seq<Event>, log': seq<Event>) {
    log <= log' && forall i :: |log| <= i < |log'| ==> !log'[i].Cancelled?
  }

  /** What becomes of a record, said without its visitor. One that the Nack does not match stays as it is. One that
      waits for more than this Nack stays, with one destination less and the Nack with the smallest code so far.
      Any other leaves for good, and the Nack with the smallest code of all is handed to the application, or there
      is one to return to the forwarder. */
  ghost predicate NackHandled(nack: Nack, r: Record, log: seq<Event>, pit': seq<Record>, log': seq<Event>,
                              out: Option<Nack>) {
    if nack.interest != r.interest then r in pit' && NacksOf(log', r.id) == NacksOf(log, r.id)
    else
      && NacksOf(log', r.id) == NacksOf(log, r.id) + [nack]
      && if r.nNotNacked > 1 then exists s :: s in pit' && Reduced(s, r, NacksOf(log', r.id))
         else
           && !InTable(pit', r.id) && PhaseOf(log', r.id).Gone?
           && (r.origin.App? ==> exists n :: Delivered(n, r.id, log, log'))
           && (r.origin.Forwarder? ==> out.Some?)
  }

  ghost predicate Reduced(s: Record, r: Record, ns: seq<Nack>) {
    && s == r.(nNotNacked := r.nNotNacked - 1, leastSevere := s.leastSevere)
    && s.leastSevere.Some? && HasSmallestCode(ns, s.leastSevere.value)
  }

  ghost predicate Delivered(n: Nack, id: nat, log: seq<Event>, log': seq<Event>) {
    log <= log' && NackCallback(id, n) in log'[|log|..] && HasSmallestCode(NacksOf(log', id), n)
  }

  /** The Nack returned is that of a forwarder's Interest that was resolved. */
  ghost predicate Returned(n: Nack, nack: Nack, r: Record, log': seq<Event>) {
    && r.interest == nack.interest && r.origin.Forwarder? && r.nNotNacked <= 1
    && HasSmallestCode(NacksOf(log', r.id), n)
  }

  ghost predicate NackDone(nack: Nack, pit: seq<Record>, log: seq<Event>, pit': seq<Record>, log': seq<Event>,
                           out: Option<Nack>) {
    && (forall r :: r in pit ==> NackHandled(nack, r, log, pit', log', out))
    && (forall s :: s in pit' ==> exists r :: r in pit && r.id == s.id)
    && (out.Some? ==> exists r :: r in pit && Returned(out.value, nack, r, log'))
  }

  /** The visitor, in plain words. */
  lemma NackEffect(nack: Nack, r: Record, p: Phase)
    requires Agrees(r, p)
    ensures var (v, ns) := (NackOne(nack, r), p.nacks + [nack]);
      if nack.interest != r.interest then v.keep == Some(r) && v.events == [] && v.nack.None?
      else
        && NackRecorded(r.id, nack) in v.events && NacksOf(v.events, r.id) == [nack]
        && if r.nNotNacked > 1 then v.keep.Some? && Reduced(v.keep.value, r, ns) && v.nack.None?
           else
             && v.keep.None?
             && (r.origin.App? ==>
                   v.nack.None? && exists n :: NackCallback(r.id, n) in v.events && HasSmallestCode(ns, n))
             && (r.origin.Forwarder? ==> v.nack.Some? && HasSmallestCode(ns, v.nack.value))
  {
    hide HasSmallestCode, IsEarliestLeastSevere;
    InterestsMatchExactly(nack.interest, r.interest);
    var ns := p.nacks + [nack];
    assert ns[..|p.nacks|] == p.nacks;
    LeastIsEarliest(ns);
    EarliestInCodes(ns, Least(ns).value);
    NackEvents(nack, r);
    if nack.interest == r.interest && r.nNotNacked <= 1 && r.origin.App? {
      assert NackCallback(r.id, Least(ns).value) in NackOne(nack, r).events;
    }
  }

  /** Only the Nack itself is recorded, and only for the record visited. */
  lemma NackEvents(nack: Nack, r: Record)
    ensures var es := NackOne(nack, r).events;
      && (forall i :: 0 <= i < |es| ==> Concerns(es[i], r.id) && !es[i].Cancelled?)
      && NacksOf(es, r.id) == if MatchesInterest(nack.interest, r.interest) then [nack] else []
  {
    hide MatchesInterest, RecordNack;
    var (first, es) := (NackRecorded(r.id, nack), NackOne(nack, r).events);
    if es != [] {
      assert [first][..0] == [] && NacksOf([first], r.id) == [nack];
      var rest := es[1..];
      assert es == [first] + rest && forall i :: 0 <= i < |rest| ==> !rest[i].NackRecorded?;
      NacksOfConcat([first], rest, r.id);
      NacksOfNone(rest, r.id);
    }
  }

  lemma {:induction false} NacksOfNone(es: seq<Event>, id: nat)
    requires forall i :: 0 <= i < |es| ==> !(es[i].NackRecorded? && es[i].id == id)
    ensures NacksOf(es, id) == []
  {
    if es != [] {
      NacksOfNone(es[..|es| - 1], id);
    }
  }

  /** The Nacks that a visit to all records adds for one of them. */
  lemma {:induction false} NacksOfAll(pit: seq<Record>, nack: Nack, id: nat)
    requires Ascending(pit)
    ensures !InTable(pit, id) ==> NacksOf(NackAll(pit, nack).events, id) == []
    ensures forall r :: r in pit && r.id == id ==>
              && NacksOf(NackAll(pit, nack).events, id) == NacksOf(NackOne(nack, r).events, id)
              && forall e :: e in NackOne(nack, r).events ==> e in NackAll(pit, nack).events
  {
    hide NackOne;
    if pit != [] {
      var (before, last) := (pit[..|pit| - 1], pit[|pit| - 1]);
      var (t, v) := (NackAll(before, nack), NackOne(nack, last));
      NacksOfAll(before, nack, id);
      assert NackAll(pit, nack) == Combine(t, v);
      NacksOfConcat(t.events, v.events, id);
      NackEvents(nack, last);
      assert last.id == id ==> !InTable(before, id);
      if last.id != id {
        NacksOfNone(v.events, id);
        assert InTable(before, id) ==> InTable(pit, id) by {
          if InTable(before, id) {
            var i :| 0 <= i < |before| && before[i].id == id;
            assert pit[i].id == id;
          }
        }
      } else {
        assert pit[|pit| - 1].id == id;
      }
      assert forall r :: r in pit <==> r in before || r == last;
      assert forall r :: r in before && r.id == id ==> InTable(before, id);
    }
  }

  lemma NackAllDone(pit: seq<Record>, log: seq<Event>, nack: Nack)
    requires var t := NackAll(pit, nack);
      && Ascending(pit) && Tracks(pit, log) && Tracks(t.kept, log + t.events) && SameCreated(log, log + t.events)
    ensures var t := NackAll(pit, nack); NackDone(nack, pit, log, t.kept, log + t.events, t.nack)
  {
    hide NackAll, NackOne, PhaseOf, NackHandled, Returned, SameCreated, Ascending, Tracks;
    var t := NackAll(pit, nack);
    NackTotal(pit, nack);
    forall r | r in pit
      ensures NackHandled(nack, r, log, t.kept, log + t.events, t.nack)
    {
      OneNackHandled(pit, log, nack, r);
    }
    forall s | s in t.kept
      ensures exists r :: r in pit && r.id == s.id
    {
      var r :| r in pit && NackOne(nack, r).keep == Some(s);
      NackKeepsId(nack, r);
    }
    if t.nack.Some? {
      var r :| r in pit && NackOne(nack, r).nack == t.nack;
      OneNackReturned(pit, log, nack, r);
    }
  }

  lemma OneNackReturned(pit: seq<Record>, log: seq<Event>, nack: Nack, r: Record)
    requires Ascending(pit) && Tracks(pit, log) && r in pit && NackOne(nack, r).nack.Some?
    ensures Returned(NackOne(nack, r).nack.value, nack, r, log + NackAll(pit, nack).events)
  {
    hide NackAll, NackOne, HasSmallestCode, Ascending;
    var p := RecordPhase(pit, log, r);
    NackEffect(nack, r, p);
    NacksOfAll(pit, nack, r.id);
    NacksOfConcat(log, NackAll(pit, nack).events, r.id);
  }

  /** The phase of a record in the table holds its Nacks. */
  lemma RecordPhase(pit: seq<Record>, log: seq<Event>, r: Record) returns (p: Phase)
    requires Tracks(pit, log) && r in pit
    ensures Agrees(r, p) && p.nacks == NacksOf(log, r.id)
  {
    hide PhaseOf, NacksOf;
    p := PhaseOf(log, r.id);
    var i :| 0 <= i < |pit| && pit[i] == r;
    PhaseHoldsNacks(log, r.id);
  }

  lemma OneNackHandled(pit: seq<Record>, log: seq<Event>, nack: Nack, r: Record)
    requires var t := NackAll(pit, nack);
      && Ascending(pit) && Tracks(pit, log) && Tracks(t.kept, log + t.events) && SameCreated(log, log + t.events)
    requires r in pit
    ensures var t := NackAll(pit, nack); NackHandled(nack, r, log, t.kept, log + t.events, t.nack)
  {
    hide NackAll, NackOne, HasSmallestCode, Ascending, SameCreated, PhaseOf, Agrees;
    var (t, v) := (NackAll(pit, nack), NackOne(nack, r));
    var (log', ns) := (log + t.events, NacksOf(log, r.id));
    var p := RecordPhase(pit, log, r);
    NackEffect(nack, r, p);
    NackTotal(pit, nack);
    NacksOfAll(pit, nack, r.id);
    NacksOfConcat(log, t.events, r.id);
    assert log'[|log|..] == t.events;
    if nack.interest != r.interest {
      assert NacksOf([], r.id) == [] && ns + [] == ns;
    } else if r.nNotNacked > 1 {
      assert Reduced(v.keep.value, r, NacksOf(log', r.id));
    } else {
      ResolvedIsGone(pit, log, log', nack, r);
      if r.origin.App? {
        var n :| NackCallback(r.id, n) in v.events && HasSmallestCode(ns + [nack], n);
        assert Delivered(n, r.id, log, log');
      }
    }
  }

  lemma {:induction false} NackCancelsNone(pit: seq<Record>, nack: Nack)
    ensures forall i :: 0 <= i < |NackAll(pit, nack).events| ==> !NackAll(pit, nack).events[i].Cancelled?
  {
    hide NackOne;
    if pit != [] {
      var (before, last) := (pit[..|pit| - 1], pit[|pit| - 1]);
      NackCancelsNone(before, nack);
      NackEvents(nack, last);
      assert NackAll(pit, nack) == Combine(NackAll(before, nack), NackOne(nack, last));
    }
  }

  lemma {:induction false} SatisfyCancelsNone(pit: seq<Record>, data: Data)
    ensures forall i :: 0 <= i < |SatisfyAll(pit, data).events| ==> !SatisfyAll(pit, data).events[i].Cancelled?
  {
    hide MatchesData;
    if pit != [] {
      var (before, last) := (pit[..|pit| - 1], pit[|pit| - 1]);
      SatisfyCancelsNone(before, data);
      assert SatisfyAll(pit, data) == Combine(SatisfyAll(before, data), SatisfyOne(data, last));
    }
  }

  function Unset(filters: seq<Filter>, id: nat): seq<Filter> {
    if filters == [] then []
    else if filters[0].id == id then filters[1..]
    else [filters[0]] + Unset(filters[1..], id)
  }

  /** With one filter to an id, exactly that one is taken away. */
  lemma {:induction false} UnsetMeans(filters: seq<Filter>, id: nat)
    requires forall i, j :: 0 <= i < j < |filters| ==> filters[i].id != filters[j].id
    ensures forall f :: f in Unset(filters, id) <==> f in filters && f.id != id
  {
    if filters != [] {
      assert forall f :: f in filters <==> f == filters[0] || f in filters[1..];
      assert forall i :: 0 <= i < |filters[1..]| ==> filters[1..][i] == filters[i + 1];
      UnsetMeans(filters[1..], id);
    }
  }

  function MatchCount(filters: seq<Filter>, r: Record): nat {
    if filters == [] then 0
    else MatchCount(filters[..|filters| - 1], r) + if DoesMatch(filters[|filters| - 1], r) then 1 else 0
  }

  /** How many filters have a pattern for the name. */
  function Takers(filters: seq<Filter>, name: Name): nat {
    if filters == [] then 0
    else Takers(filters[..|filters| - 1], name) + if filters[|filters| - 1].matches(name) then 1 else 0
  }

  /** The filters that take the application's own Interests. */
  function Loopback(filters: seq<Filter>): seq<Filter> {
    if filters == [] then []
    else Loopback(filters[..|filters| - 1]) + if filters[|filters| - 1].loopback then [filters[|filters| - 1]] else []
  }

  /** A forwarder's Interest goes to every filter with a pattern for it, an application's to those with loopback. */
  lemma {:induction false} CountsTakers(filters: seq<Filter>, r: Record)
    ensures MatchCount(filters, r) == Takers(if r.origin.App? then Loopback(filters) else filters, r.interest.name)
  {
    if filters != [] {
      var (init, f) := (filters[..|filters| - 1], filters[|filters| - 1]);
      CountsTakers(init, r);
      if f.loopback {
        assert (Loopback(init) + [f])[..|Loopback(init)|] == Loopback(init);
      } else {
        assert Loopback(init) + [] == Loopback(init);
      }
    }
  }

  lemma SameMatch(f: Filter, r: Record, s: Record)
    requires r.interest == s.interest && r.origin == s.origin
    ensures DoesMatch(f, r) == DoesMatch(f, s)
  {
  }

  function ForwardOne(r: Record): Visit {
    Visit(Some(RecordForwarding(r)), [Forwarded(r.id)], false, false, None)
  }

  lemma ForwardLawful(r: Record)
    requires r.leastSevere.None?
    ensures Lawful(r, ForwardOne(r))
  {
    hide RunPhase;
    forall p: Phase | Agrees(r, p)
      ensures Agrees(RecordForwarding(r), RunPhase(p, r.id, [Forwarded(r.id)]))
    {
      RunOne(p, r.id, Forwarded(r.id));
    }
  }

  lemma TasksTake(tasks: seq<Task>, lastId: nat, log: seq<Event>, log': seq<Event>)
    requires TasksOk(tasks, lastId, log) && tasks != [] && tasks[0].Express?
    requires forall i :: PhaseOf(log', i).NotCreated? <==> PhaseOf(log, i).NotCreated? && i != tasks[0].id
    ensures TasksOk(tasks[1..], lastId, log')
  {
    hide PhaseOf, Queued;
    TasksPop(tasks, lastId, log);
    assert forall i :: 0 <= i < |tasks[1..]| ==> tasks[1..][i] == tasks[i + 1];
  }

  lemma TasksAllocate(tasks: seq<Task>, lastId: nat, log: seq<Event>, log': seq<Event>)
    requires TasksOk(tasks, lastId, log)
    requires forall i :: PhaseOf(log', i).NotCreated? <==> PhaseOf(log, i).NotCreated? && i != lastId + 1
    ensures TasksOk(tasks, lastId + 1, log')
  {
    hide PhaseOf, Queued;
  }

  lemma DroppedNotInTable(pit: seq<Record>, p: nat)
    requires Ascending(pit) && p < |pit|
    ensures !InTable(pit[..p] + pit[p + 1..], pit[p].id)
  {
    assert pit == pit[..p] + [pit[p]] + pit[p + 1..];
    SpliceDrop(pit[..p], pit[p], pit[p + 1..]);
  }

  function TimeoutOne(r: Record): Visit {
    Visit(None, (if r.origin.App? then [TimeoutCallback(r.id)] else []) + [Removed(r.id)], false, false, None)
  }

  lemma TimeoutLawful(r: Record)
    ensures Lawful(r, TimeoutOne(r))
  {
    hide RunPhase;
    forall p: Phase | Agrees(r, p)
      ensures RunPhase(p, r.id, TimeoutOne(r).events).Gone?
    {
      if r.origin.App? {
        RunOne(p, r.id, TimeoutCallback(r.id));
        RunSnoc(p, r.id, [TimeoutCallback(r.id)], Removed(r.id));
      } else {
        RunOne(p, r.id, Removed(r.id));
        assert [] + [Removed(r.id)] == [Removed(r.id)];
      }
    }
  }

  lemma PutTracks(pit: seq<Record>, log: seq<Event>, p: nat, id: nat, interest: Interest, origin: Origin)
    requires Ascending(pit) && Tracks(pit, log) && PhaseOf(log, id).NotCreated? && p <= |pit|
    requires (forall i :: 0 <= i < p ==> pit[i].id < id) && (p < |pit| ==> id <= pit[p].id)
    ensures var (r, ev) := (Record(id, interest, origin, 0, None), Pending.Put(id, interest, origin));
      && Ascending(pit[..p] + [r] + pit[p..]) && Tracks(pit[..p] + [r] + pit[p..], log + [ev])
      && (forall i :: PhaseOf(log + [ev], i).NotCreated? <==> PhaseOf(log, i).NotCreated? && i != id)
  {
    var (r, ev) := (Record(id, interest, origin, 0, None), Pending.Put(id, interest, origin));
    var (pit', log') := (pit[..p] + [r] + pit[p..], log + [ev]);
    hide PhaseOf;
    forall i
      ensures PhaseOf(log', i) == if i == id then Waiting(interest, origin, 0, []) else PhaseOf(log, i)
    {
      PutPhase(log, id, interest, origin, i);
    }
    assert p < |pit| ==> pit[p].id != id;
    hide Agrees;
    InsertedInOrder(pit, p, r);
    assert Agrees(r, PhaseOf(log', id)) by {
      NewAgrees(r, PhaseOf(log', id));
    }
  }

  lemma UpdateInserted(pit: seq<Record>, p: nat, r: Record, r': Record)
    requires p <= |pit|
    ensures (pit[..p] + [r] + pit[p..])[p := r'] == pit[..p] + [r'] + pit[p..]
  {
  }

  lemma NewAgrees(r: Record, p: Phase)
    requires p == Waiting(r.interest, r.origin, 0, []) && r.nNotNacked == 0 && r.leastSevere.None?
    ensures Agrees(r, p)
  {
  }

  ghost predicate Inserted(pit': seq<Record>, pit: seq<Record>, p: nat, r: Record) {
    && p <= |pit| && |pit'| == |pit| + 1 && pit'[p] == r
    && (forall i :: 0 <= i < p ==> pit'[i] == pit[i])
    && (forall i :: p < i < |pit'| ==> pit'[i] == pit[i - 1])
  }

  lemma InsertedInOrder(pit: seq<Record>, p: nat, r: Record)
    requires Ascending(pit) && p <= |pit|
    requires (forall i :: 0 <= i < p ==> pit[i].id < r.id) && (p < |pit| ==> r.id < pit[p].id)
    ensures var pit' := pit[..p] + [r] + pit[p..];
      && Inserted(pit', pit, p, r) && Ascending(pit') && InTable(pit', r.id)
      && forall id :: InTable(pit, id) ==> InTable(pit', id)
  {
    var pit' := pit[..p] + [r] + pit[p..];
    assert Inserted(pit', pit, p, r);
    hide *;
    InsertedAscends(pit', pit, p, r);
    InsertedHolds(pit', pit, p, r);
  }

  lemma InsertedAscends(pit': seq<Record>, pit: seq<Record>, p: nat, r: Record)
    requires Inserted(pit', pit, p, r) && Ascending(pit)
    requires (forall i :: 0 <= i < p ==> pit[i].id < r.id) && (p < |pit| ==> r.id < pit[p].id)
    ensures Ascending(pit')
  {
  }

  lemma InsertedHolds(pit': seq<Record>, pit: seq<Record>, p: nat, r: Record)
    requires Inserted(pit', pit, p, r)
    ensures InTable(pit', r.id) && forall id :: InTable(pit, id) ==> InTable(pit', id)
  {
    forall id | InTable(pit, id)
      ensures InTable(pit', id)
    {
      var j :| 0 <= j < |pit| && pit[j].id == id;
      assert pit'[if j < p then j else j + 1] == pit[j];
    }
  }

  lemma PutPhase(log: seq<Event>, id: nat, interest: Interest, origin: Origin, i: nat)
    requires PhaseOf(log, id).NotCreated?
    ensures PhaseOf(log + [Pending.Put(id, interest, origin)], i)
         == if i == id then Waiting(interest, origin, 0, []) else PhaseOf(log, i)
  {
    var log' := log + [Pending.Put(id, interest, origin)];
    assert log'[..|log|] == log;
  }

  lemma {:induction false} ClearedTotal(pit: seq<Record>)
    ensures DropAll(pit).kept == []
    ensures forall e :: e in DropAll(pit).events <==>
              exists r :: r in pit && (e == Cancelled(r.id) || e == Removed(r.id))
  {
    if pit != [] {
      var (before, last) := (pit[..|pit| - 1], pit[|pit| - 1]);
      ClearedTotal(before);
      var (t, v) := (DropAll(before), DropOne(last));
      assert DropAll(pit) == Combine(t, v);
      assert forall e :: e in t.events + v.events <==> e in t.events || e in v.events;
      assert forall r :: r in pit <==> r in before || r == last;
    }
  }

  lemma {:induction false} SatisfyTotal(pit: seq<Record>, data: Data)
    ensures var t := SatisfyAll(pit, data);
      && (forall r :: r in t.kept <==> r in pit && !MatchesData(r.interest, data))
      && (forall r :: r in pit && MatchesData(r.interest, data) && r.origin.App? ==>
                        DataCallback(r.id, data) in t.events)
  {
    hide MatchesData;
    if pit != [] {
      var (before, last) := (pit[..|pit| - 1], pit[|pit| - 1]);
      SatisfyTotal(before, data);
      assert forall r :: r in pit <==> r in before || r == last;
      var (t, v) := (VisitAll(before, r => SatisfyOne(data, r)), SatisfyOne(data, last));
      assert SatisfyAll(pit, data) == Combine(t, v);
      assert forall e :: e in t.events + v.events <==> e in t.events || e in v.events;
    }
  }

  lemma {:induction false} SatisfyFlags(pit: seq<Record>, data: Data)
    ensures var t := SatisfyAll(pit, data);
      && (t.appMatch <==> exists r :: r in pit && MatchesData(r.interest, data) && r.origin.App?)
      && (t.forwarderMatch <==> exists r :: r in pit && MatchesData(r.interest, data) && r.origin.Forwarder?)
  {
    hide MatchesData;
    if pit != [] {
      var (before, last) := (pit[..|pit| - 1], pit[|pit| - 1]);
      SatisfyFlags(before, data);
      assert forall r :: r in pit <==> r in before || r == last;
      var (t, v) := (VisitAll(before, r => SatisfyOne(data, r)), SatisfyOne(data, last));
      assert SatisfyAll(pit, data) == Combine(t, v);
    }
  }

  /** Each record stays as its visit leaves it, and the Nack to return is that of the last
      forwarder's Interest that was resolved. */
  lemma {:induction false} NackTotal(pit: seq<Record>, nack: Nack)
    ensures var t := NackAll(pit, nack);
      && (forall r :: r in pit && NackOne(nack, r).keep.Some? ==> NackOne(nack, r).keep.value in t.kept)
      && (forall s :: s in t.kept ==> exists r :: r in pit && NackOne(nack, r).keep == Some(s))
      && (forall r :: r in pit && NackOne(nack, r).nack.Some? ==> t.nack.Some?)
      && (t.nack.Some? ==> exists r :: r in pit && NackOne(nack, r).nack == t.nack)
  {
    hide NackOne;
    if pit != [] {
      var (before, last) := (pit[..|pit| - 1], pit[|pit| - 1]);
      NackTotal(before, nack);
      assert forall r :: r in pit <==> r in before || r == last;
      var (t, v) := (VisitAll(before, r => NackOne(nack, r)), NackOne(nack, last));
      assert NackAll(pit, nack) == Combine(t, v);
    }
  }

  /** A record that was in the table and is not any more is gone. */
  lemma RemovedIsGone(pit: seq<Record>, log: seq<Event>, pit': seq<Record>, log': seq<Event>, r: Record)
    requires Ascending(pit) && Tracks(pit, log) && Tracks(pit', log') && SameCreated(log, log')
    requires r in pit && forall s :: s in pit' ==> s in pit && s != r
    ensures PhaseOf(log', r.id).Gone?
  {
    hide PhaseOf;
    var i :| 0 <= i < |pit| && pit[i] == r;
    assert forall j :: 0 <= j < |pit'| ==> pit'[j] in pit;
    assert !InTable(pit', r.id);
  }

  lemma NackKeepsId(nack: Nack, r: Record)
    ensures NackOne(nack, r).keep.Some? ==> NackOne(nack, r).keep.value.id == r.id
  {
  }

  /** A record that a Nack resolves is gone. */
  lemma ResolvedIsGone(pit: seq<Record>, log: seq<Event>, log': seq<Event>, nack: Nack, r: Record)
    requires var t := NackAll(pit, nack);
      Ascending(pit) && Tracks(pit, log) && Tracks(t.kept, log') && SameCreated(log, log')
    requires r in pit && NackOne(nack, r).keep.None?
    ensures PhaseOf(log', r.id).Gone? && !InTable(NackAll(pit, nack).kept, r.id)
  {
    hide PhaseOf, NackAll, NackOne;
    var kept := NackAll(pit, nack).kept;
    var i :| 0 <= i < |pit| && pit[i] == r;
    NackTotal(pit, nack);
    forall j | 0 <= j < |kept|
      ensures kept[j].id != r.id
    {
      assert kept[j] in kept;
      var s :| s in pit && NackOne(nack, s).keep == Some(kept[j]);
      NackKeepsId(nack, s);
      assert s != r;
    }
    assert !InTable(kept, r.id);
  }

  lemma VisitNone(pit: seq<Record>, log: seq<Event>, visit: Record -> Visit) returns (t: Total)
    ensures t == VisitAll(pit[..0], visit) == Total([], [], false, false, None)
    ensures t.kept + pit[0..] == pit && log + t.events == log
  {
    t := Total([], [], false, false, None);
    assert pit[..0] == [] && [] + pit[0..] == pit && log + [] == log;
  }

  lemma AllVisited(t: Total, was: seq<Record>, n: nat)
    requires n <= |was| && |t.kept| == |t.kept + was[n..]|
    ensures was[..n] == was && t.kept + was[n..] == t.kept
  {
    assert was[n..] == [];
  }

  lemma NextRecord(pit: seq<Record>, t: Total, was: seq<Record>, n: nat, old': seq<Event>, log: seq<Event>, v: Visit)
    requires n <= |was| && pit == t.kept + was[n..] && |t.kept| < |pit| && log == old' + t.events
    ensures var (i, t') := (|t.kept|, Combine(t, v));
      && n < |was| && pit[i] == was[n] && pit == t.kept + [was[n]] + was[n + 1..]
      && log + v.events == old' + t'.events
      && t'.kept + was[n + 1..] == t.kept + Rest(v.keep) + was[n + 1..]
      && (v.keep.None? ==> pit[..i] + pit[i + 1..] == t'.kept + was[n + 1..] && |t'.kept| == i)
      && (v.keep.Some? ==> pit[i := v.keep.value] == t'.kept + was[n + 1..] && |t'.kept| == i + 1)
      && t'.appMatch == (t.appMatch || v.appMatch) && t'.forwarderMatch == (t.forwarderMatch || v.forwarderMatch)
      && t'.nack == (if v.nack.Some? then v.nack else t.nack)
  {
    assert was[n..] == [was[n]] + was[n + 1..];
    assert (old' + t.events) + v.events == old' + (t.events + v.events);
  }

  // ---- runs ----

  datatype Action =
    | DoExpress(interest: Interest)
    | DoCall(task: Task)
    | DoRunTask
    | OnInterest(interest: Interest)
    | OnData(data: Data)
    | OnNack(nack: Nack)
    | OnTimeout(id: nat)

  /** Any interleaving of API calls, queued tasks, arrivals and timers. At the end, as at every point
      before, each record is in the table and waiting, or was never put, or left it for good, and
      its history is one of those `Next` allows. An application's record leaves only after a callback,
      or withdrawn by one of the pieces of work `done` that withdraw it. */
  method Run(face: Face, actions: seq<Action>) returns (ghost done: seq<Task>)
    requires face.Valid()
    modifies face
    ensures face.Valid() && old(face.log) <= face.log
    ensures forall t :: t in done ==> t in old(face.tasks) || DoCall(t) in actions || t.Express?
    ensures forall i :: |old(face.log)| <= i < |face.log| && face.log[i].Cancelled? ==>
              exists t :: t in done && Withdraws(t, face.log[i].id)
    ensures forall j :: 0 <= j < |face.log| && LeavesApp(face.log, j) ==> NotSilent(face.log, j)
    ensures forall id :: !PhaseOf(face.log, id).Bad? && (InTable(face.pit, id) <==> PhaseOf(face.log, id).Waiting?)
    ensures forall id :: PhaseOf(old(face.log), id).Gone? ==> PhaseOf(face.log, id).Gone?
  {
    hide Tracks, Ascending, TasksOk, PhaseOf, NackDone, NackAll, SatisfyAll, DropAll, MatchesData, Withdraws, LeavesApp,
      NotSilent;
    done := [];
    for i := 0 to |actions|
      invariant face.Valid() && old(face.log) <= face.log
      invariant forall t :: t in done || t in face.tasks ==> t in old(face.tasks) || DoCall(t) in actions || t.Express?
      invariant forall k :: |old(face.log)| <= k < |face.log| && face.log[k].Cancelled? ==>
                  exists t :: t in done && Withdraws(t, face.log[k].id)
    {
      match actions[i] {
        case DoExpress(interest) => var _ := face.CallExpress(interest);
        case DoCall(task) =>
          if !task.Express? && (task.Cancel? ==> 1 <= task.id <= face.lastId) {
            face.Call(task);
          }
        case DoRunTask =>
          if face.tasks != [] {
            done := done + [face.tasks[0]];
            face.RunTask();
          }
        case OnInterest(interest) => var _, _ := face.ReceiveInterest(interest);
        case OnData(data) => face.ReceiveData(data);
        case OnNack(nack) => face.ReceiveNack(nack);
        case OnTimeout(id) =>
          var p := face.PositionOf(id);
          if p < |face.pit| {
            face.Timeout(id);
          }
      }
    }
    TracksMeaning(face.pit, face.log);
    forall j | 0 <= j < |face.log| && LeavesApp(face.log, j)
      ensures NotSilent(face.log, j)
    {
      LeftNotSilent(face.log, j);
    }
    forall id | PhaseOf(old(face.log), id).Gone?
      ensures PhaseOf(face.log, id).Gone?
    {
      GoneStays(old(face.log), face.log, id);
    }
  }

  /** At `j` a record is removed that the application had expressed. */
  ghost predicate LeavesApp(log: seq<Event>, j: nat) {
    j < |log| && log[j].Removed? && exists k, interest :: 0 <= k < j && log[k] == Pending.Put(log[j].id, interest, App)
  }

  ghost predicate NotSilent(log: seq<Event>, j: nat) {
    j < |log| && log[j].Removed? &&
    exists i :: 0 <= i < j && (IsCallback(log[i], log[j].id) || log[i] == Cancelled(log[j].id))
  }

  lemma LeftNotSilent(log: seq<Event>, j: nat)
    requires LeavesApp(log, j) && forall id :: !PhaseOf(log, id).Bad?
    ensures NotSilent(log, j)
  {
    hide PhaseOf;
    var k, interest :| 0 <= k < j && log[k] == Pending.Put(log[j].id, interest, App);
    NeverSilent(log, log[j].id, interest, k, j);
  }

  lemma TracksMeaning(pit: seq<Record>, log: seq<Event>)
    requires Tracks(pit, log)
    ensures forall id :: !PhaseOf(log, id).Bad? && (InTable(pit, id) <==> PhaseOf(log, id).Waiting?)
  {
    hide PhaseOf;
  }

  lemma GoneStays(log: seq<Event>, log': seq<Event>, id: nat)
    requires log <= log' && PhaseOf(log, id).Gone? && !PhaseOf(log', id).Bad?
    ensures PhaseOf(log', id).Gone?
  {
    var rest := log'[|log|..];
    assert log' == log + rest;
    RunPhaseConcat(NotCreated, id, log, rest);
    AfterTheEnd(Gone, id, rest);
  }

  /** The assertion in recordNack: for records as they occur, it holds exactly when the Interest has
      gone to some destination. A forwarder's Interest that no filter takes has none. */
  lemma NackAssertionExact(r: Record, p: Phase, nack: Nack)
    requires Agrees(r, p)
    ensures RecordNack(r, nack).0.nNotNacked >= 0 <==> p.forwarded >= 1
  {
  }

  /** Such a record: a forwarder's Interest that comes to a face without filters. The assertion fails at
      the first Nack for it. */
  method UnforwardedNack(interest: Interest, code: nat) returns (face: Face, r: Record)
    ensures fresh(face) && face.Valid() && face.pit == [r] && MatchesInterest(interest, r.interest)
    ensures RecordNack(r, Nack(interest, code)).0.nNotNacked == -1
  {
    hide Tracks, Ascending, TasksOk;
    face := new Face();
    var _, _ := face.ReceiveInterest(interest);
    r := face.pit[0];
  }
}
