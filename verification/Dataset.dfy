/** StatusDatasetContext: a dataset published as a sequence of segments. */
module Datasets {
  import opened Bytes
  import opened Tlv
  import opened NameComponents
  import opened Names

  const MAX_NDN_PACKET_SIZE: nat := 8800
  const MAX_PAYLOAD_LENGTH: nat := MAX_NDN_PACKET_SIZE - 800
  const SEGMENT: nat := 50
  const VERSION: nat := 54
  const SEGMENT_MARKER: Byte := 0x00
  const VERSION_MARKER: Byte := 0xFD

  // ---- naming conventions ----

  predicate IsNumber(c: Component) {
    |c.value| in {1, 2, 4, 8}
  }

  predicate IsNumberWithMarker(c: Component, marker: Byte) {
    |c.value| in {2, 3, 5, 9} && c.value[0] == marker
  }

  predicate IsSegment(c: Component) {
    (c.typ == GENERIC && IsNumberWithMarker(c, SEGMENT_MARKER)) || (c.typ == SEGMENT && IsNumber(c))
  }

  predicate IsVersion(c: Component) {
    (c.typ == GENERIC && IsNumberWithMarker(c, VERSION_MARKER)) || (c.typ == VERSION && IsNumber(c))
  }

  /** A number as a name component; numbers are 64 bits wide. */
  function NumberComponent(typ: nat, n: nat): Component {
    Component(typ, EncodeNonNegativeInteger(n % TWO_64))
  }

  function SegmentName(prefix: Name, n: nat): Name {
    prefix + [NumberComponent(SEGMENT, n)]
  }

  /** The component made for a number is of the type asked for and reads back as the number. */
  lemma NumberReadsBack(typ: nat, n: nat)
    ensures var c := NumberComponent(typ, n);
      c.typ == typ && |c.value| in {1, 2, 4, 8} && ReadNonNegativeInteger(c.value) == Ok(n % TWO_64)
  {
    hide EncodeNonNegativeInteger, ReadNonNegativeInteger;
    NonNegativeIntegerRoundTrip(n % TWO_64);
    NonNegativeIntegerIsShortest(n % TWO_64);
  }

  /** The name of segment n is the prefix and one component, of type 50, that reads back as n. */
  lemma SegmentNameMeans(prefix: Name, n: nat)
    ensures var name := SegmentName(prefix, n);
      && |name| == |prefix| + 1 && prefix <= name && name[|prefix|].typ == 50 && IsSegment(name[|prefix|])
      && ReadNonNegativeInteger(name[|prefix|].value) == Ok(n % TWO_64)
  {
    hide ReadNonNegativeInteger, EncodeNonNegativeInteger;
    NumberReadsBack(SEGMENT, n);
  }

  /** Components that count as segment numbers (type 50, or marker 0) and as versions (type 54, or marker 0xFD). */
  lemma ConventionsMean(c: Component)
    ensures IsSegment(c) <==>
      (c.typ == 50 && |c.value| in {1, 2, 4, 8}) || (c.typ == 8 && |c.value| in {2, 3, 5, 9} && c.value[0] == 0)
    ensures IsVersion(c) <==>
      (c.typ == 54 && |c.value| in {1, 2, 4, 8}) || (c.typ == 8 && |c.value| in {2, 3, 5, 9} && c.value[0] == 253)
    ensures !(IsSegment(c) && IsVersion(c))
  {
  }

  /** Different segment numbers make different names. */
  lemma SegmentNamesDiffer(prefix: Name, m: nat, n: nat)
    requires m < TWO_64 && n < TWO_64
    ensures SegmentName(prefix, m) == SegmentName(prefix, n) ==> m == n
  {
    hide EncodeNonNegativeInteger, ReadNonNegativeInteger;
    NonNegativeIntegerRoundTrip(m);
    NonNegativeIntegerRoundTrip(n);
    assert SegmentName(prefix, m)[|prefix|] == NumberComponent(SEGMENT, m);
    assert SegmentName(prefix, n)[|prefix|] == NumberComponent(SEGMENT, n);
  }

  // ---- segments ----

  datatype Segment = Segment(name: Name, payload: seq<Byte>, isFinal: bool)

  function Payloads(segments: seq<Segment>): seq<Byte> {
    if segments == [] then [] else segments[0].payload + Payloads(segments[1..])
  }

  lemma {:induction false} PayloadsSnoc(segments: seq<Segment>, s: Segment)
    ensures Payloads(segments + [s]) == Payloads(segments) + s.payload
  {
    if segments == [] {
      assert [s][1..] == [] && [] + [s] == [s];
    } else {
      assert (segments + [s])[1..] == segments[1..] + [s];
      PayloadsSnoc(segments[1..], s);
      Associative(segments[0].payload, Payloads(segments[1..]), s.payload);
    }
  }

  predicate IsFull(prefix: Name, k: nat, s: Segment) {
    s.name == SegmentName(prefix, k) && |s.payload| == 8000 && !s.isFinal
  }

  /** Full segments numbered from 0, none of them final. */
  predicate Running(prefix: Name, segments: seq<Segment>) {
    forall k :: 0 <= k < |segments| ==> IsFull(prefix, k, segments[k])
  }

  /** The whole dataset: full segments, then the final one, which is empty only in an empty dataset. */
  predicate Complete(prefix: Name, segments: seq<Segment>, dataset: seq<Byte>) {
    && segments != []
    && var (front, last) := (segments[..|segments| - 1], segments[|segments| - 1]);
    && Running(prefix, front)
    && last.name == SegmentName(prefix, |front|) && last.isFinal
    && |last.payload| <= 8000 && (last.payload == [] ==> dataset == [])
    && Payloads(segments) == dataset
  }

  // ---- fetching what was published ----

  /** A consumer's view: retrieve segments by name from number `k` on until one says it is the last. */
  function Fetch(store: map<Name, Segment>, prefix: Name, k: nat): Option<seq<Byte>>
    decreases |store|
  {
    var name := SegmentName(prefix, k);
    if name !in store then None
    else if store[name].isFinal then Some(store[name].payload)
    else
      RemovalShrinks(store, name);
      match Fetch(store - {name}, prefix, k + 1)
      case None => None
      case Some(rest) => Some(store[name].payload + rest)
  }

  lemma RemovalShrinks(store: map<Name, Segment>, name: Name)
    requires name in store
    ensures |store - {name}| < |store|
  {
    assert (store - {name}).Keys == store.Keys - {name};
  }

  /** Segments as they are put, by name, in a store. */
  function Published(segments: seq<Segment>): map<Name, Segment> {
    if segments == [] then map[]
    else
      var last := segments[|segments| - 1];
      Published(segments[..|segments| - 1])[last.name := last]
  }

  /** `store` has the segments from number `k` on. */
  predicate HoldsFrom(store: map<Name, Segment>, prefix: Name, segments: seq<Segment>, k: nat) {
    forall j :: k <= j < |segments| ==> SegmentName(prefix, j) in store && store[SegmentName(prefix, j)] == segments[j]
  }

  lemma {:induction false} PublishedHolds(prefix: Name, segments: seq<Segment>)
    requires |segments| <= TWO_64
    requires forall k :: 0 <= k < |segments| ==> segments[k].name == SegmentName(prefix, k)
    ensures HoldsFrom(Published(segments), prefix, segments, 0)
  {
    hide SegmentName;
    if segments != [] {
      var (n, front) := (|segments| - 1, segments[..|segments| - 1]);
      PublishedHolds(prefix, front);
      forall j | 0 <= j < n
        ensures SegmentName(prefix, j) != SegmentName(prefix, n)
      {
        SegmentNamesDiffer(prefix, j, n);
      }
      assert forall j :: 0 <= j < n ==> front[j] == segments[j];
    }
  }

  lemma {:induction false} FetchFrom(store: map<Name, Segment>, prefix: Name, segments: seq<Segment>, k: nat)
    requires k < |segments| <= TWO_64 && HoldsFrom(store, prefix, segments, k)
    requires forall j :: 0 <= j < |segments| ==> (segments[j].isFinal <==> j == |segments| - 1)
    ensures Fetch(store, prefix, k) == Some(Payloads(segments[k..]))
    decreases |segments| - k
  {
    hide SegmentName;
    var name := SegmentName(prefix, k);
    assert name in store && store[name] == segments[k];
    assert segments[k..][0] == segments[k] && segments[k..][1..] == segments[k + 1..];
    if k < |segments| - 1 {
      forall j | k < j < |segments|
        ensures SegmentName(prefix, j) != name && SegmentName(prefix, j) in store
      {
        SegmentNamesDiffer(prefix, j, k);
      }
      FetchFrom(store - {name}, prefix, segments, k + 1);
    } else {
      assert Payloads(segments[k + 1..]) == [] && segments[k].payload + [] == segments[k].payload;
    }
  }

  /** Whoever fetches a complete dataset by name gets exactly the octets that were appended. */
  lemma FetchedIsAppended(prefix: Name, segments: seq<Segment>, dataset: seq<Byte>)
    requires Complete(prefix, segments, dataset) && |segments| <= TWO_64
    ensures Fetch(Published(segments), prefix, 0) == Some(dataset)
  {
    hide SegmentName, Fetch, Payloads, Published;
    var front := segments[..|segments| - 1];
    assert forall j :: 0 <= j < |front| ==> front[j] == segments[j] && IsFull(prefix, j, front[j]);
    PublishedHolds(prefix, segments);
    FetchFrom(Published(segments), prefix, segments, 0);
    assert segments[0..] == segments;
  }

  // ---- the context ----

  datatype State = INITIAL | RESPONDED | FINALIZED

  datatype ContextError = LogicError | InvalidArgument | OutOfBounds

  /** setPrefix's demands on a prefix. */
  function PrefixError(interest: Name, prefix: Name): Option<ContextError> {
    if !(interest <= prefix) then Some(InvalidArgument)
    else if prefix == [] then Some(OutOfBounds)
    else if IsSegment(prefix[|prefix| - 1]) then Some(InvalidArgument)
    else None
  }

  function WithVersion(prefix: Name, now: nat): Name
    requires prefix != []
  {
    if IsVersion(prefix[|prefix| - 1]) then prefix else prefix + [NumberComponent(VERSION, now)]
  }

  class StatusDatasetContext {
    const interest: Name
    var prefix: Name
    var buffer: seq<Byte>
    var segmentNo: nat
    var state: State
    var sent: seq<Segment>
    var nacks: nat
    ghost var appended: seq<Byte>

    ghost predicate Valid()
      reads this
    {
      && |buffer| <= MAX_PAYLOAD_LENGTH && (buffer == [] ==> appended == [])
      && (state == INITIAL ==> appended == [])
      && segmentNo <= |sent|
      && Running(prefix, sent[..segmentNo]) && Payloads(sent[..segmentNo]) + buffer == appended
      && (state != FINALIZED ==> segmentNo == |sent| && nacks == 0)
      && (state == FINALIZED && nacks != 0 ==> nacks == 1 && sent == [] && appended == [])
      && (state == FINALIZED && nacks == 0 ==>
            sent[segmentNo..] == [Segment(SegmentName(prefix, segmentNo), buffer, true)])
    }

    /** The members before the prefix is set, as the constructor starts. */
    constructor (interest: Name)
      ensures Valid() && this.interest == interest && state == INITIAL && prefix == []
      ensures sent == [] && nacks == 0 && appended == []
    {
      this.interest := interest;
      prefix, buffer, segmentNo, state, sent, nacks, appended := [], [], 0, INITIAL, [], 0, [];
    }

    method SetPrefix(value: Name, now: nat) returns (error: Option<ContextError>)
      requires Valid()
      modifies this
      ensures Valid()
      ensures error == if old(state) != INITIAL then Some(LogicError) else PrefixError(interest, value)
      ensures error.Some? ==> unchanged(this)
      ensures error.None? ==> prefix == WithVersion(value, now) && interest <= prefix
      ensures error.None? ==> interest <= value && value != [] && !IsSegment(value[|value| - 1])
      ensures error.None? && IsVersion(value[|value| - 1]) ==> prefix == value
      ensures error.None? && !IsVersion(value[|value| - 1]) ==>
        && |prefix| == |value| + 1 && value <= prefix && prefix[|value|].typ == 54 && IsVersion(prefix[|value|])
        && ReadNonNegativeInteger(prefix[|value|].value) == Ok(now % TWO_64)
      ensures old(state) == INITIAL && error.Some? ==>
        !(interest <= value) || value == [] || IsSegment(value[|value| - 1])
      ensures state == old(state) && sent == old(sent) && nacks == old(nacks) && appended == old(appended)
    {
      if state != INITIAL {
        return Some(LogicError);
      }
      error := PrefixError(interest, value);
      if error.Some? {
        return;
      }
      EmptyRun(this);
      NumberReadsBack(VERSION, now);
      prefix := value;
      if !IsVersion(value[|value| - 1]) {
        prefix := prefix + [NumberComponent(VERSION, now)];
      }
    }

    /** append: fill the buffer, and send it as a segment only when it is full and more is to come.
        The loop ends although it may start with a full buffer and take nothing. */
    method Append(block: seq<Byte>) returns (error: Option<ContextError>)
      requires Valid()
      modifies this
      ensures Valid() && prefix == old(prefix) && nacks == old(nacks)
      ensures error == if old(state) == FINALIZED then Some(LogicError) else None
      ensures error.Some? ==> unchanged(this)
      ensures error.None? ==> state == RESPONDED && appended == old(appended) + block && old(sent) <= sent
    {
      hide SegmentName, Payloads, Running;
      if state == FINALIZED {
        return Some(LogicError);
      }
      assert sent[..segmentNo] == sent;
      state := RESPONDED;
      var cur := 0;
      assert block[..0] == [] && appended + [] == appended;
      while cur < |block|
        invariant state == RESPONDED && prefix == old(prefix) && nacks == 0 && appended == old(appended)
        invariant cur <= |block| && |buffer| <= MAX_PAYLOAD_LENGTH && segmentNo == |sent| && old(sent) <= sent
        invariant Running(prefix, sent) && Payloads(sent) + buffer == appended + block[..cur]
        invariant cur == |block| && buffer == [] ==> appended + block == []
        decreases |block| - cur, |buffer|
      {
        var room := MAX_PAYLOAD_LENGTH - |buffer|;
        var n := if |block| - cur < room then |block| - cur else room;
        ghost var before := buffer;
        buffer := buffer + block[cur..cur + n];
        Extend(Payloads(sent), before, appended, block, cur, n);
        cur := cur + n;
        if cur != |block| {
          var segment := Segment(SegmentName(prefix, segmentNo), buffer, false);
          FullSegment(prefix, sent, segment);
          sent := sent + [segment];
          segmentNo := segmentNo + 1;
          buffer := [];
          assert Payloads(sent) + [] == Payloads(sent);
        }
      }
      assert block[..cur] == block && sent[..segmentNo] == sent;
      appended := appended + block;
      error := None;
    }

    /** end: what is left is the final segment, and the dataset is complete. */
    method End() returns (error: Option<ContextError>)
      requires Valid()
      modifies this
      ensures Valid() && prefix == old(prefix) && nacks == old(nacks) && appended == old(appended)
      ensures error == if old(state) == FINALIZED then Some(LogicError) else None
      ensures error.Some? ==> unchanged(this)
      ensures error.None? ==> state == FINALIZED && old(sent) <= sent && Complete(prefix, sent, appended)
    {
      hide SegmentName, Payloads, Running;
      if state == FINALIZED {
        return Some(LogicError);
      }
      assert sent[..segmentNo] == sent;
      state := FINALIZED;
      var segment := Segment(SegmentName(prefix, segmentNo), buffer, true);
      PayloadsSnoc(sent, segment);
      sent := sent + [segment];
      assert sent[..segmentNo] == old(sent) && sent[segmentNo..] == [segment];
      error := None;
    }

    /** reject: one negative response, and only where nothing was appended. */
    method Reject() returns (error: Option<ContextError>)
      requires Valid()
      modifies this
      ensures Valid() && prefix == old(prefix) && sent == old(sent) && appended == old(appended)
      ensures error == if old(state) != INITIAL then Some(LogicError) else None
      ensures error.Some? ==> unchanged(this)
      ensures error.None? ==> state == FINALIZED && nacks == 1 && sent == []
    {
      if state != INITIAL {
        return Some(LogicError);
      }
      EmptyRun(this);
      state := FINALIZED;
      nacks := nacks + 1;
      error := None;
    }
  }

  /** Nothing is sent before the first append. */
  lemma EmptyRun(c: StatusDatasetContext)
    requires c.Valid() && c.state == INITIAL
    ensures c.sent == [] && c.buffer == []
  {
    hide SegmentName, Payloads;
    assert c.sent[..c.segmentNo] == c.sent;
    if c.sent != [] {
      assert IsFull(c.prefix, 0, c.sent[0]);
      FirstFills(c.sent);
    }
  }

  lemma FirstFills(segments: seq<Segment>)
    requires segments != []
    ensures |Payloads(segments)| >= |segments[0].payload|
  {
  }

  lemma Extend(done: seq<Byte>, buffer: seq<Byte>, start: seq<Byte>, block: seq<Byte>, cur: nat, n: nat)
    requires cur + n <= |block| && done + buffer == start + block[..cur]
    ensures done + (buffer + block[cur..cur + n]) == start + block[..cur + n]
  {
    assert block[..cur + n] == block[..cur] + block[cur..cur + n];
    Associative(done, buffer, block[cur..cur + n]);
    Associative(start, block[..cur], block[cur..cur + n]);
  }

  lemma FullSegment(prefix: Name, segments: seq<Segment>, s: Segment)
    requires Running(prefix, segments)
    requires IsFull(prefix, |segments|, s)
    ensures Running(prefix, segments + [s]) && Payloads(segments + [s]) == Payloads(segments) + s.payload
  {
    hide SegmentName, Payloads, IsFull;
    PayloadsSnoc(segments, s);
    var qs := segments + [s];
    assert forall k :: 0 <= k < |qs| ==> qs[k] == if k < |segments| then segments[k] else s;
  }

  // ---- runs ----

  /** StatusDatasetContext's constructor, which throws what setPrefix throws. */
  method Open(interest: Name, now: nat) returns (c: StatusDatasetContext, error: Option<ContextError>)
    ensures fresh(c) && c.Valid() && c.interest == interest && c.state == INITIAL && c.sent == [] && c.appended == []
    ensures error == PrefixError(interest, interest)
    ensures error.None? ==> c.prefix == WithVersion(interest, now)
  {
    c := new StatusDatasetContext(interest);
    error := c.SetPrefix(interest, now);
  }

  function Concatenation(blocks: seq<seq<Byte>>): seq<Byte> {
    if blocks == [] then [] else Concatenation(blocks[..|blocks| - 1]) + blocks[|blocks| - 1]
  }

  /** Any number of appends and an end publish a complete dataset: whoever fetches it gets the blocks. */
  method Publish(interest: Name, now: nat, blocks: seq<seq<Byte>>) returns (c: StatusDatasetContext)
    requires PrefixError(interest, interest).None?
    ensures fresh(c) && c.Valid() && c.state == FINALIZED && c.nacks == 0
    ensures Complete(WithVersion(interest, now), c.sent, Concatenation(blocks))
    ensures |c.sent| <= TWO_64 ==>
      Fetch(Published(c.sent), WithVersion(interest, now), 0) == Some(Concatenation(blocks))
  {
    hide Complete, Fetch, Published, WithVersion, IsSegment;
    var error;
    c, error := Open(interest, now);
    assert blocks[..0] == [];
    for i := 0 to |blocks|
      invariant fresh(c) && c.Valid() && c.state != FINALIZED && c.prefix == WithVersion(interest, now)
      invariant c.appended == Concatenation(blocks[..i])
    {
      assert blocks[..i + 1][..i] == blocks[..i];
      error := c.Append(blocks[i]);
    }
    assert blocks[..|blocks|] == blocks;
    error := c.End();
    if |c.sent| <= TWO_64 {
      FetchedIsAppended(c.prefix, c.sent, c.appended);
    }
  }

  datatype Operation = OpSetPrefix(prefix: Name, now: nat) | OpAppend(block: seq<Byte>) | OpEnd | OpReject

  /** Any run of calls, whatever they throw: once finalized, the response is either one rejection with
      nothing sent or one complete dataset, and it never changes again. */
  method Run(interest: Name, now: nat, ops: seq<Operation>) returns (c: StatusDatasetContext, finalizedAt: nat)
    ensures fresh(c) && c.Valid() && finalizedAt <= |ops|
    ensures c.state == FINALIZED <==> finalizedAt < |ops|
    ensures c.state == FINALIZED ==>
      (c.nacks == 1 && c.sent == []) || (c.nacks == 0 && Complete(c.prefix, c.sent, c.appended))
    ensures c.state != FINALIZED ==> c.nacks == 0 && Running(c.prefix, c.sent)
    ensures c.state == FINALIZED ==> ops[finalizedAt] in {OpEnd, OpReject}
    ensures c.state == FINALIZED ==> (c.nacks == 1 <==> ops[finalizedAt] == OpReject)
  {
    hide Complete, Running, PrefixError, WithVersion, SegmentName, Payloads;
    var error;
    c, error := Open(interest, now);
    finalizedAt := |ops|;
    for i := 0 to |ops|
      invariant fresh(c) && c.Valid()
      invariant c.state == FINALIZED <==> finalizedAt < |ops|
      invariant finalizedAt < i || finalizedAt == |ops|
      invariant c.state == FINALIZED ==>
        (c.nacks == 1 && c.sent == []) || (c.nacks == 0 && Complete(c.prefix, c.sent, c.appended))
      invariant c.state == FINALIZED ==> ops[finalizedAt] in {OpEnd, OpReject}
      invariant c.state == FINALIZED ==> (c.nacks == 1 <==> ops[finalizedAt] == OpReject)
    {
      var was := c.state;
      match ops[i] {
        case OpSetPrefix(p, t) => error := c.SetPrefix(p, t);
        case OpAppend(b) => error := c.Append(b);
        case OpEnd => error := c.End();
        case OpReject => error := c.Reject();
      }
      if c.state == FINALIZED && was != FINALIZED {
        finalizedAt := i;
      }
    }
    assert c.state != FINALIZED ==> c.sent[..c.segmentNo] == c.sent;
  }
}
