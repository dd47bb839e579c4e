/** NDNLPv2 packets: a list of fields kept in a fixed order. */
module LpPackets {
  import opened Bytes
  import opened Tlv
  import Blocks

  const LP_PACKET: nat := 100
  const FRAGMENT: nat := 80
  const ACK: nat := 836
  const INTEREST: nat := 5
  const DATA: nat := 6

  // ---- field types ----

  predicate IsRecognized(typ: nat) {
    typ in {FRAGMENT, 81, 82, 83, 98, 800, 812, 816, 820, 832, ACK, 840, 844, 848}
  }

  predicate CanIgnore(typ: nat) {
    !IsRecognized(typ) && 800 <= typ <= 959 && typ % 4 == 0
  }

  predicate IsRepeatable(typ: nat) {
    typ == ACK
  }

  /** Header fields are at location 1, the Fragment at location 2. */
  function Location(typ: nat): nat {
    if typ == FRAGMENT then 2 else 1
  }

  /** compareFieldSortOrder. */
  predicate Precedes(a: nat, b: nat) {
    Location(a) < Location(b) || (Location(a) == Location(b) && a < b)
  }

  predicate MayFollow(a: nat, b: nat) {
    Precedes(a, b) || (a == b && IsRepeatable(a))
  }

  /** Fields in order, and only a repeatable one repeated. */
  ghost predicate Ordered(es: seq<Element>) {
    forall i, j :: 0 <= i < j < |es| ==> MayFollow(es[i].typ, es[j].typ)
  }

  predicate Known(es: seq<Element>) {
    forall i :: 0 <= i < |es| ==> IsRecognized(es[i].typ) || CanIgnore(es[i].typ)
  }

  /** The order, in plain words: the Fragment is the last field, and two fields of one type are Acks. */
  lemma OrderMeans(es: seq<Element>, i: nat, j: nat)
    requires Ordered(es) && i < j < |es|
    ensures es[i].typ != FRAGMENT
    ensures es[i].typ == es[j].typ ==> es[i].typ == ACK
    ensures es[j].typ != FRAGMENT ==> es[i].typ <= es[j].typ
  {
    assert MayFollow(es[i].typ, es[j].typ);
  }

  // ---- decoding ----

  datatype LpError =
    | NotLpPacket
    | Malformed(error: TlvError)
    | Unrecognized(typ: nat)
    | Repeated(typ: nat)
    | Disorder(typ: nat)
    | EmptyFragment

  /** What is wrong with a field after the previous one, if there is one. */
  function CheckField(prev: Option<nat>, typ: nat): Option<LpError> {
    if !IsRecognized(typ) && !CanIgnore(typ) then Some(Unrecognized(typ))
    else if prev.Some? && typ == prev.value && !IsRepeatable(typ) then Some(Repeated(typ))
    else if prev.Some? && typ != prev.value && !Precedes(prev.value, typ) then Some(Disorder(typ))
    else None
  }

  function CheckFields(prev: Option<nat>, es: seq<Element>): Option<LpError>
    decreases es
  {
    if es == [] then None
    else if CheckField(prev, es[0].typ).Some? then CheckField(prev, es[0].typ)
    else CheckFields(Some(es[0].typ), es[1..])
  }

  /** Comparing neighbours is enough: the check passes exactly the known fields in order. */
  lemma {:induction false} CheckMeans(prev: Option<nat>, es: seq<Element>)
    ensures CheckFields(prev, es).None? <==>
      Known(es) && Ordered(es) && (prev.Some? ==> forall i :: 0 <= i < |es| ==> MayFollow(prev.value, es[i].typ))
    decreases es
  {
    hide IsRecognized, CanIgnore, Precedes, IsRepeatable;
    if es != [] {
      var (t, rest) := (es[0].typ, es[1..]);
      CheckMeans(Some(t), rest);
      assert forall i :: 0 < i < |es| ==> es[i] == rest[i - 1];
      assert forall i :: 0 <= i < |rest| ==> rest[i] == es[i + 1];
      assert CheckField(prev, t).None? <==>
             (IsRecognized(t) || CanIgnore(t)) && (prev.Some? ==> MayFollow(prev.value, t)) by {
        if prev.Some? {
          OrderLaws(prev.value, t, t);
        }
      }
      hide CheckField;
      assert Known(es) <==> (IsRecognized(t) || CanIgnore(t)) && Known(rest);
      assert Ordered(es) <==> Ordered(rest) && forall i :: 0 <= i < |rest| ==> MayFollow(t, rest[i].typ);
      if prev.Some? && MayFollow(prev.value, t) {
        forall i | 0 <= i < |rest| && MayFollow(t, rest[i].typ)
          ensures MayFollow(prev.value, rest[i].typ)
        {
          OrderLaws(prev.value, t, rest[i].typ);
        }
      }
    }
  }

  lemma OrderLaws(a: nat, b: nat, c: nat)
    ensures MayFollow(a, b) && MayFollow(b, c) ==> MayFollow(a, c)
    ensures Precedes(a, b) ==> a != b && !Precedes(b, a)
    ensures Precedes(a, b) || Precedes(b, a) || a == b
  {
  }

  /** Fragment (80), Sequence, FragIndex, FragCount (81 to 83), PitToken (98), Nack (800), IncomingFaceId,
      NextHopFaceId, CachePolicy, CongestionMark (812, 816, 820, 832), Ack (836), TxSequence, NonDiscovery,
      PrefixAnnouncement (840, 844, 848), and what may be ignored: multiples of 4 from 800 to 959. */
  predicate FieldAllowed(typ: nat) {
    typ in {80, 81, 82, 83, 98} || (800 <= typ <= 959 && typ % 4 == 0)
  }

  predicate MayComeBefore(a: nat, b: nat) {
    a != 80 && (b == 80 || a < b || a == b == 836)
  }

  lemma AllowedMeans(t: nat)
    ensures FieldAllowed(t) <==> IsRecognized(t) || CanIgnore(t)
  {
  }

  lemma FollowsMeans(a: nat, b: nat)
    ensures MayComeBefore(a, b) <==> MayFollow(a, b)
  {
  }

  /** The fields of a packet are accepted exactly when each is allowed, header types ascend, with Acks alone repeated,
      and a Fragment is the last. */
  lemma AcceptedExactly(es: seq<Element>)
    ensures CheckFields(None, es).None? <==>
      && (forall i :: 0 <= i < |es| ==> FieldAllowed(es[i].typ))
      && (forall i, j :: 0 <= i < j < |es| ==> MayComeBefore(es[i].typ, es[j].typ))
  {
    hide CheckFields, IsRecognized, CanIgnore, FieldAllowed, MayFollow, MayComeBefore;
    CheckMeans(None, es);
    forall t: nat
      ensures FieldAllowed(t) <==> IsRecognized(t) || CanIgnore(t)
    {
      AllowedMeans(t);
    }
    forall a: nat, b: nat
      ensures MayComeBefore(a, b) <==> MayFollow(a, b)
    {
      FollowsMeans(a, b);
    }
    assert Known(es) <==> forall i :: 0 <= i < |es| ==> FieldAllowed(es[i].typ);
    assert Ordered(es) <==> forall i, j :: 0 <= i < j < |es| ==> MayComeBefore(es[i].typ, es[j].typ);
  }

  /** Which packets are accepted, and what they hold: Interest (5) and Data (6) as a Fragment of their octets, and
      LpPacket (100) with its fields. */
  lemma DecodeMeans(e: Element)
    ensures e.typ in {5, 6} ==>
      && DecodeFields(e).Ok? && |DecodeFields(e).value| == 1
      && DecodeFields(e).value[0].typ == 80 && DecodeFields(e).value[0].value == e.wire
    ensures e.typ !in {5, 6} ==>
      (DecodeFields(e).Ok? <==>
         e.typ == 100 && ParseElements(e.value).error.None? && CheckFields(None, ParseElements(e.value).elements).None?)
    ensures e.typ == 100 && DecodeFields(e).Ok? ==> DecodeFields(e).value == ParseElements(e.value).elements
  {
    hide ParseElements, CheckFields;
  }

  /** wireDecode: the fields of an LpPacket, or a bare Interest or Data as the only Fragment. */
  function DecodeFields(e: Element): Result<seq<Element>, LpError> {
    if e.typ == INTEREST || e.typ == DATA then Ok([MakeElement(FRAGMENT, e.wire)])
    else if e.typ != LP_PACKET then Err(NotLpPacket)
    else
      var p := ParseElements(e.value);
      if p.error.Some? then Err(Malformed(p.error.value))
      else
        var error := CheckFields(None, p.elements);
        if error.Some? then Err(error.value) else Ok(p.elements)
  }

  /** wireEncode without a cached wire: a lone Fragment gives the first element in it, anything else the
      packet, in which Block::encode writes every field anew, in its shortest form. */
  function EncodeFields(es: seq<Element>): Result<Element, LpError> {
    if |es| == 1 && es[0].typ == FRAGMENT then
      var p := ParseElements(es[0].value);
      if p.error.Some? then Err(Malformed(p.error.value))
      else if p.elements == [] then Err(EmptyFragment)
      else Ok(p.elements[0])
    else Ok(MakeElement(LP_PACKET, Wires(Shorten(es))))
  }

  predicate IsLone(es: seq<Element>) {
    |es| == 1 && es[0].typ == FRAGMENT
  }

  ghost predicate AllWellFormed(es: seq<Element>) {
    forall i :: 0 <= i < |es| ==> WellFormed(es[i])
  }

  /** Fields equal as blocks are: type and value. */
  predicate SameFields(a: seq<Element>, b: seq<Element>) {
    |a| == |b| && forall i :: 0 <= i < |a| ==> a[i].typ == b[i].typ && a[i].value == b[i].value
  }

  predicate RoundTrips(es: seq<Element>) {
    && EncodeFields(es).Ok?
    && DecodeFields(EncodeFields(es).value).Ok?
    && SameFields(DecodeFields(EncodeFields(es).value).value, es)
  }

  /** The Fragment is exactly one network-layer packet. */
  predicate HoldsOnePacket(f: Element) {
    var p := ParseElements(f.value);
    p.error.None? && |p.elements| == 1 && p.elements[0].typ in {INTEREST, DATA}
  }

  /** Every packet that is not a lone Fragment decodes to the same types and values; its fields keep their
      octets exactly when all of them were in shortest form. */
  lemma PacketRoundTrip(es: seq<Element>)
    requires AllWellFormed(es) && Known(es) && Ordered(es) && |Wires(es)| < TWO_64 && !IsLone(es)
    ensures EncodeFields(es).Ok? && WellFormed(EncodeFields(es).value)
    ensures DecodeFields(EncodeFields(es).value) == Ok(Shorten(es))
    ensures RoundTrips(es)
    ensures DecodeFields(EncodeFields(es).value) == Ok(es) <==> forall i :: 0 <= i < |es| ==> IsShortest(es[i])
  {
    hide Wires, ParseElements, WellFormed, Known, Ordered, CheckFields, WireOf;
    ShortenKeeps(es);
    ShortenKeepsOrder(es);
    ParseInvertsConcatenation(Shorten(es));
    MakeElementWellFormed(LP_PACKET, Wires(Shorten(es)));
    CheckMeans(None, Shorten(es));
  }

  lemma ShortenKeepsOrder(es: seq<Element>)
    requires Known(es) && Ordered(es)
    ensures Known(Shorten(es)) && Ordered(Shorten(es))
  {
    hide IsRecognized, CanIgnore, MayFollow, WireOf;
  }

  /** The fields as the leaves of a block tree. */
  function Leaves(es: seq<Element>): seq<Blocks.Tree> {
    if es == [] then [] else [Blocks.Leaf(es[0].typ, es[0].value)] + Leaves(es[1..])
  }

  /** The packet's octets are those Block::encode writes for a block with these sub-elements. */
  lemma EncodesAsBlock(es: seq<Element>)
    requires !IsLone(es)
    ensures EncodeFields(es).value.wire == Blocks.TreeWire(Blocks.Node(LP_PACKET, Leaves(es)))
  {
    LeavesWire(es);
  }

  lemma {:induction false} LeavesWire(es: seq<Element>)
    ensures Blocks.TreesWire(Leaves(es)) == Wires(Shorten(es))
  {
    if es != [] {
      LeavesWire(es[1..]);
      assert Leaves(es)[1..] == Leaves(es[1..]) && Shorten(es)[1..] == Shorten(es[1..]);
      assert Blocks.TreeWire(Leaves(es)[0]) == WireOf(es[0].typ, es[0].value) == Shorten(es)[0].wire;
    }
  }

  /** A lone Fragment survives encoding and decoding exactly when it holds one Interest or Data: anything
      after the first element is lost, and a packet cannot be the Fragment inside itself. */
  lemma LoneFragmentExact(f: Element)
    requires WellFormed(f) && f.typ == FRAGMENT
    ensures RoundTrips([f]) <==> HoldsOnePacket(f)
  {
    hide ParseElements, WellFormed, Wires, WireOf, CheckFields;
    var p := ParseElements(f.value);
    ParsePartitions(f.value);
    if p.error.None? && p.elements != [] {
      var e := p.elements[0];
      WiresFirst(p.elements);
      if e.typ == LP_PACKET {
        Nested(e, f);
      } else if e.typ in {INTEREST, DATA} && |p.elements| > 1 {
        SecondIsLost(p.elements);
      }
    }
  }

  lemma WiresFirst(es: seq<Element>)
    requires es != []
    ensures Wires(es) == es[0].wire + Wires(es[1..])
    ensures |es| == 1 ==> Wires(es) == es[0].wire
  {
  }

  lemma SecondIsLost(es: seq<Element>)
    requires |es| > 1 && WellFormed(es[1])
    ensures |Wires(es)| > |es[0].wire|
  {
    hide WellFormed;
    WellFormedBounds(es[1]);
    WiresFirst(es);
    WiresFirst(es[1..]);
    assert es[1..][0] == es[1];
  }

  /** An LpPacket inside the Fragment is too short to hold that Fragment. */
  lemma Nested(e: Element, f: Element)
    requires WellFormed(e) && |e.wire| <= |f.value| && e.typ == LP_PACKET
    ensures DecodeFields(e).Ok? ==> !SameFields(DecodeFields(e).value, [f])
  {
    hide ParseElements, WellFormed, Wires, WireOf, CheckFields;
    WellFormedBounds(e);
    var es := ParseElements(e.value).elements;
    ParsePartitions(e.value);
    if DecodeFields(e).Ok? && |es| == 1 {
      WellFormedBounds(es[0]);
      WiresFirst(es);
    }
  }

  // ---- a packet as a list of values for each field type ----

  function Occurrences(es: seq<Element>, typ: nat): seq<Element> {
    if es == [] then []
    else (if es[0].typ == typ then [es[0]] else []) + Occurrences(es[1..], typ)
  }

  lemma {:induction false} OccurrencesConcat(a: seq<Element>, b: seq<Element>, typ: nat)
    ensures Occurrences(a + b, typ) == Occurrences(a, typ) + Occurrences(b, typ)
  {
    if a == [] {
      assert a + b == b;
    } else {
      assert (a + b)[1..] == a[1..] + b;
      OccurrencesConcat(a[1..], b, typ);
      Associative(if a[0].typ == typ then [a[0]] else [], Occurrences(a[1..], typ), Occurrences(b, typ));
    }
  }

  lemma {:induction false} OccursExactly(es: seq<Element>, typ: nat)
    ensures Occurrences(es, typ) == [] <==> forall i :: 0 <= i < |es| ==> es[i].typ != typ
  {
    if es != [] {
      OccursExactly(es[1..], typ);
      assert forall i :: 0 < i < |es| ==> es[i] == es[1..][i - 1];
      assert forall i :: 0 <= i < |es[1..]| ==> es[1..][i] == es[i + 1];
    }
  }

  lemma OccurrenceOf(e: Element, typ: nat)
    ensures Occurrences([e], typ) == if e.typ == typ then [e] else []
  {
    assert [e][1..] == [];
  }

  /** The occurrences around position `i`. */
  lemma OccurrencesAround(es: seq<Element>, i: nat, typ: nat)
    requires i < |es|
    ensures Occurrences(es, typ)
         == Occurrences(es[..i], typ) + Occurrences([es[i]], typ) + Occurrences(es[i + 1..], typ)
    ensures Occurrences(es[..i + 1], typ) == Occurrences(es[..i], typ) + Occurrences([es[i]], typ)
    ensures Occurrences(es[..i] + es[i + 1..], typ) == Occurrences(es[..i], typ) + Occurrences(es[i + 1..], typ)
  {
    hide Occurrences;
    assert es[..i + 1] == es[..i] + [es[i]] && es == es[..i + 1] + es[i + 1..];
    OccurrencesConcat(es[..i], [es[i]], typ);
    OccurrencesConcat(es[..i + 1], es[i + 1..], typ);
    OccurrencesConcat(es[..i], es[i + 1..], typ);
  }

  /** Ordered fields are determined by the values of each field: it does not matter in which order fields
      of different types were added. */
  lemma {:induction false} OrderIsCanonical(a: seq<Element>, b: seq<Element>)
    requires Ordered(a) && Ordered(b)
    requires forall typ :: Occurrences(a, typ) == Occurrences(b, typ)
    ensures a == b
  {
    if a == [] || b == [] {
      var t := if a != [] then a[0].typ else if b != [] then b[0].typ else 0;
      assert Occurrences(a, t) == Occurrences(b, t);
      OccursExactly(a, t);
      OccursExactly(b, t);
    } else {
      FirstFieldAgrees(a, b);
      var (a', b', t) := (a[1..], b[1..], a[0].typ);
      assert a[0] == b[0] by {
        assert Occurrences(a, t) == Occurrences(b, t) && Occurrences(a, t)[0] == a[0] && Occurrences(b, t)[0] == b[0];
      }
      forall typ
        ensures Occurrences(a', typ) == Occurrences(b', typ)
      {
        assert Occurrences(a, typ) == Occurrences(b, typ);
        SameTail(if a[0].typ == typ then [a[0]] else [], Occurrences(a', typ), Occurrences(b', typ));
      }
      OrderIsCanonical(a', b');
      assert a == [a[0]] + a' && b == [b[0]] + b';
    }
  }

  lemma SameTail<T>(x: seq<T>, y: seq<T>, z: seq<T>)
    requires x + y == x + z
    ensures y == z
  {
    assert y == (x + y)[|x|..] && z == (x + z)[|x|..];
  }

  lemma FirstFieldAgrees(a: seq<Element>, b: seq<Element>)
    requires Ordered(a) && Ordered(b) && a != [] && b != []
    requires forall typ :: Occurrences(a, typ) == Occurrences(b, typ)
    ensures a[0].typ == b[0].typ
  {
    hide Occurrences, Precedes, IsRepeatable;
    var (s, t) := (a[0].typ, b[0].typ);
    OccursExactly(a, s);
    OccursExactly(b, s);
    OccursExactly(a, t);
    OccursExactly(b, t);
    assert Occurrences(a, s) == Occurrences(b, s) && Occurrences(a, t) == Occurrences(b, t);
    var i :| 0 <= i < |a| && a[i].typ == t;
    var j :| 0 <= j < |b| && b[j].typ == s;
    assert i == 0 || MayFollow(s, t);
    assert j == 0 || MayFollow(t, s);
    OrderLaws(s, t, s);
  }

  lemma InsertKeepsOrder(es: seq<Element>, e: Element, pos: nat)
    requires Ordered(es) && pos <= |es|
    requires IsRepeatable(e.typ) || forall i :: 0 <= i < |es| ==> es[i].typ != e.typ
    requires forall i :: 0 <= i < pos ==> !Precedes(e.typ, es[i].typ)
    requires forall i :: pos <= i < |es| ==> Precedes(e.typ, es[i].typ)
    ensures Ordered(es[..pos] + [e] + es[pos..])
  {
    hide Precedes, IsRepeatable;
    var qs := es[..pos] + [e] + es[pos..];
    assert forall j :: 0 <= j < |qs| ==> qs[j] == if j < pos then es[j] else if j == pos then e else es[j - 1];
    forall i | 0 <= i < pos
      ensures MayFollow(es[i].typ, e.typ)
    {
      OrderLaws(es[i].typ, e.typ, e.typ);
    }
  }

  /** What adding a field does to the values of each type. */
  lemma InsertOccurs(es: seq<Element>, e: Element, pos: nat, typ: nat)
    requires pos <= |es| && forall i :: pos <= i < |es| ==> es[i].typ != e.typ
    ensures Occurrences(es[..pos] + [e] + es[pos..], typ)
         == Occurrences(es, typ) + if typ == e.typ then [e] else []
  {
    hide Occurrences;
    assert es == es[..pos] + es[pos..];
    OccurrencesConcat(es[..pos], es[pos..], typ);
    OccurrencesConcat(es[..pos] + [e], es[pos..], typ);
    OccurrencesConcat(es[..pos], [e], typ);
    OccurrenceOf(e, typ);
    if typ == e.typ {
      OccursExactly(es[pos..], typ);
    }
  }

  lemma RemoveKeeps(es: seq<Element>, i: nat)
    requires i < |es| && Ordered(es) && Known(es) && AllWellFormed(es)
    ensures Ordered(es[..i] + es[i + 1..]) && Known(es[..i] + es[i + 1..]) && AllWellFormed(es[..i] + es[i + 1..])
  {
    hide WellFormed, MayFollow, IsRecognized, CanIgnore;
    var qs := es[..i] + es[i + 1..];
    assert forall j :: 0 <= j < |qs| ==> qs[j] == es[if j < i then j else j + 1];
  }

  function Without(es: seq<Element>, typ: nat): seq<Element> {
    if es == [] then [] else (if es[0].typ == typ then [] else [es[0]]) + Without(es[1..], typ)
  }

  lemma {:induction false} WithoutConcat(a: seq<Element>, b: seq<Element>, typ: nat)
    ensures Without(a + b, typ) == Without(a, typ) + Without(b, typ)
  {
    if a == [] {
      assert a + b == b;
    } else {
      assert (a + b)[1..] == a[1..] + b;
      WithoutConcat(a[1..], b, typ);
      Associative(if a[0].typ == typ then [] else [a[0]], Without(a[1..], typ), Without(b, typ));
    }
  }

  lemma {:induction false} WithoutMembers(es: seq<Element>, typ: nat)
    ensures forall e :: e in Without(es, typ) <==> e in es && e.typ != typ
  {
    if es != [] {
      WithoutMembers(es[1..], typ);
      assert es == [es[0]] + es[1..];
    }
  }

  lemma {:induction false} WithoutKeeps(es: seq<Element>, typ: nat)
    requires Ordered(es) && Known(es) && AllWellFormed(es)
    ensures Ordered(Without(es, typ)) && Known(Without(es, typ)) && AllWellFormed(Without(es, typ))
  {
    hide WellFormed, MayFollow, IsRecognized, CanIgnore, Ordered, Known, AllWellFormed;
    if es != [] {
      var (rest, kept) := (es[1..], Without(es[1..], typ));
      TailKeeps(es);
      WithoutKeeps(rest, typ);
      WithoutMembers(rest, typ);
      forall i | 0 <= i < |kept|
        ensures MayFollow(es[0].typ, kept[i].typ)
      {
        assert kept[i] in rest;
      }
      ConsKeeps(es[0], kept);
      assert [] + kept == kept;
    }
  }

  lemma ConsKeeps(e: Element, es: seq<Element>)
    requires Ordered(es) && forall i :: 0 <= i < |es| ==> MayFollow(e.typ, es[i].typ)
    requires Known(es) && AllWellFormed(es) && WellFormed(e) && (IsRecognized(e.typ) || CanIgnore(e.typ))
    ensures Ordered([e] + es) && Known([e] + es) && AllWellFormed([e] + es)
  {
    hide WellFormed, MayFollow, IsRecognized, CanIgnore;
    var qs := [e] + es;
    assert forall j :: 0 <= j < |qs| ==> qs[j] == if j == 0 then e else es[j - 1];
  }

  lemma TailKeeps(es: seq<Element>)
    requires es != [] && Ordered(es) && Known(es) && AllWellFormed(es)
    ensures Ordered(es[1..]) && Known(es[1..]) && AllWellFormed(es[1..])
    ensures forall i :: 0 <= i < |es[1..]| ==> MayFollow(es[0].typ, es[1..][i].typ)
    ensures WellFormed(es[0]) && (IsRecognized(es[0].typ) || CanIgnore(es[0].typ))
  {
    hide WellFormed, MayFollow, IsRecognized, CanIgnore;
    assert forall j :: 0 <= j < |es[1..]| ==> es[1..][j] == es[j + 1];
  }

  lemma {:induction false} WithoutOccurs(es: seq<Element>, typ: nat, other: nat)
    ensures Occurrences(Without(es, typ), other) == if other == typ then [] else Occurrences(es, other)
  {
    if es != [] {
      WithoutOccurs(es[1..], typ, other);
      if es[0].typ == typ {
        assert [] + Without(es[1..], typ) == Without(es[1..], typ);
      } else {
        assert ([es[0]] + Without(es[1..], typ))[1..] == Without(es[1..], typ);
      }
    }
  }

  // ---- the packet object ----

  /** std::upper_bound over fields in order. */
  method UpperBound(es: seq<Element>, typ: nat) returns (pos: nat)
    requires Ordered(es)
    ensures pos <= |es|
    ensures forall i :: 0 <= i < pos ==> !Precedes(typ, es[i].typ)
    ensures forall i :: pos <= i < |es| ==> Precedes(typ, es[i].typ)
  {
    hide Precedes, IsRepeatable;
    pos := 0;
    var count: nat := |es|;
    while count > 0
      invariant pos + count <= |es|
      invariant forall i :: 0 <= i < pos ==> !Precedes(typ, es[i].typ)
      invariant forall i :: pos + count <= i < |es| ==> Precedes(typ, es[i].typ)
    {
      var step := count / 2;
      SplitByOrder(es, typ, pos + step);
      if !Precedes(typ, es[pos + step].typ) {
        pos, count := pos + step + 1, count - step - 1;
      } else {
        count := step;
      }
    }
  }

  lemma SplitByOrder(es: seq<Element>, typ: nat, mid: nat)
    requires Ordered(es) && mid < |es|
    ensures !Precedes(typ, es[mid].typ) ==> forall i :: 0 <= i <= mid ==> !Precedes(typ, es[i].typ)
    ensures Precedes(typ, es[mid].typ) ==> forall i :: mid <= i < |es| ==> Precedes(typ, es[i].typ)
  {
    forall i | 0 <= i < mid
      ensures Precedes(typ, es[i].typ) ==> Precedes(typ, es[mid].typ)
    {
      assert MayFollow(es[i].typ, es[mid].typ);
    }
    forall i | mid < i < |es|
      ensures Precedes(typ, es[mid].typ) ==> Precedes(typ, es[i].typ)
    {
      assert MayFollow(es[mid].typ, es[i].typ);
    }
  }

  class Packet {
    var fields: seq<Element>
    var wire: Option<Element>

    ghost predicate Valid()
      reads this
    {
      && AllWellFormed(fields) && Known(fields) && Ordered(fields)
      && (wire.Some? ==>
            WellFormed(wire.value) && wire.value.typ == LP_PACKET && DecodeFields(wire.value) == Ok(fields))
    }

    constructor ()
      ensures Valid() && fields == [] && wire == None
    {
      fields, wire := [], None;
    }

    method Count(typ: nat) returns (n: nat)
      ensures n == |Occurrences(fields, typ)|
    {
      hide Occurrences;
      n := 0;
      assert |Occurrences(fields[..0], typ)| == 0 by {
        OccursExactly(fields[..0], typ);
      }
      for i := 0 to |fields|
        invariant n == |Occurrences(fields[..i], typ)|
      {
        OccurrencesAround(fields, i, typ);
        OccurrenceOf(fields[i], typ);
        if fields[i].typ == typ {
          n := n + 1;
        }
      }
      assert fields[..|fields|] == fields;
    }

    /** The position of the occurrence, as both `get` and `remove` look for it. */
    method Locate(typ: nat, index: nat) returns (pos: Option<nat>)
      ensures pos.Some? <==> index < |Occurrences(fields, typ)|
      ensures pos.Some? ==> pos.value < |fields| && fields[pos.value].typ == typ
      ensures pos.Some? ==> |Occurrences(fields[..pos.value], typ)| == index
      ensures pos.Some? ==> fields[pos.value] == Occurrences(fields, typ)[index]
    {
      hide Occurrences;
      var count := 0;
      assert |Occurrences(fields[..0], typ)| == 0 by {
        OccursExactly(fields[..0], typ);
      }
      for i := 0 to |fields|
        invariant count == |Occurrences(fields[..i], typ)| <= index
      {
        OccurrencesAround(fields, i, typ);
        OccurrenceOf(fields[i], typ);
        if fields[i].typ == typ {
          if count == index {
            return Some(i);
          }
          count := count + 1;
        }
      }
      assert fields[..|fields|] == fields;
      pos := None;
    }

    method Get(typ: nat, index: nat) returns (r: Option<Element>)
      ensures r == if index < |Occurrences(fields, typ)| then Some(Occurrences(fields, typ)[index]) else None
    {
      var pos := Locate(typ, index);
      r := if pos.Some? then Some(fields[pos.value]) else None;
    }

    /** add: the field goes behind every field it does not precede; one that cannot be repeated is
        refused when it is there. */
    method Add(typ: nat, value: seq<Byte>) returns (ok: bool)
      requires Valid() && IsRecognized(typ) && |value| < TWO_64
      modifies this
      ensures Valid()
      ensures ok <==> IsRepeatable(typ) || old(Occurrences(fields, typ)) == []
      ensures !ok ==> fields == old(fields) && wire == old(wire)
      ensures ok ==> wire == None
      ensures ok ==> forall t ::
        Occurrences(fields, t) == old(Occurrences(fields, t)) + if t == typ then [MakeElement(typ, value)] else []
    {
      hide Occurrences, WellFormed, Precedes, DecodeFields, WireOf;
      var n := Count(typ);
      ok := IsRepeatable(typ) || n == 0;
      if !ok {
        return;
      }
      OccursExactly(fields, typ);
      var block := MakeElement(typ, value);
      MakeElementWellFormed(typ, value);
      var pos := UpperBound(fields, typ);
      ghost var es := fields;
      InsertKeepsOrder(es, block, pos);
      forall t
        ensures Occurrences(es[..pos] + [block] + es[pos..], t) == Occurrences(es, t) + if t == typ then [block] else []
      {
        assert forall i :: pos <= i < |es| ==> es[i].typ != typ by {
          forall i | pos <= i < |es|
            ensures es[i].typ != typ
          {
            OrderLaws(typ, es[i].typ, typ);
          }
        }
        InsertOccurs(es, block, pos, t);
      }
      wire := None;
      fields := fields[..pos] + [block] + fields[pos..];
    }

    method Remove(typ: nat, index: nat) returns (ok: bool)
      requires Valid()
      modifies this
      ensures Valid()
      ensures ok <==> index < |old(Occurrences(fields, typ))|
      ensures !ok ==> fields == old(fields) && wire == old(wire)
      ensures ok ==> wire == None
      ensures ok ==>
        Occurrences(fields, typ) == old(Occurrences(fields, typ)[..index] + Occurrences(fields, typ)[index + 1..])
      ensures ok ==> forall t :: t != typ ==> Occurrences(fields, t) == old(Occurrences(fields, t))
    {
      hide Occurrences, WellFormed, DecodeFields, Ordered, Known;
      var pos := Locate(typ, index);
      ok := pos.Some?;
      if !ok {
        return;
      }
      ghost var es := fields;
      RemoveKeeps(es, pos.value);
      forall t
        ensures Occurrences(es[..pos.value] + es[pos.value + 1..], t)
             == if t == typ then Occurrences(es, t)[..index] + Occurrences(es, t)[index + 1..] else Occurrences(es, t)
      {
        OccurrencesAround(es, pos.value, t);
        OccurrenceOf(es[pos.value], t);
      }
      wire := None;
      fields := fields[..pos.value] + fields[pos.value + 1..];
    }

    method Clear(typ: nat)
      requires Valid()
      modifies this
      ensures Valid() && wire == None && fields == Without(old(fields), typ)
      ensures forall t :: Occurrences(fields, t) == if t == typ then [] else old(Occurrences(fields, t))
    {
      hide Occurrences, WellFormed, DecodeFields, Ordered, Known;
      wire := None;
      var (es, kept) := (fields, []);
      assert es[..0] == [] && Without(es[..0], typ) == [];
      for i := 0 to |es|
        invariant wire == None && kept == Without(es[..i], typ)
      {
        assert es[..i + 1] == es[..i] + [es[i]];
        WithoutConcat(es[..i], [es[i]], typ);
        assert [es[i]][1..] == [];
        if es[i].typ != typ {
          kept := kept + [es[i]];
        }
      }
      assert es[..|es|] == es;
      fields := kept;
      WithoutKeeps(es, typ);
      forall t {
        WithoutOccurs(es, typ, t);
      }
    }

    /** set: whatever was there, the field is there once. */
    method Set(typ: nat, value: seq<Byte>)
      requires Valid() && IsRecognized(typ) && |value| < TWO_64
      modifies this
      ensures Valid() && wire == None
      ensures forall t ::
        Occurrences(fields, t) == if t == typ then [MakeElement(typ, value)] else old(Occurrences(fields, t))
    {
      hide Occurrences, WellFormed, DecodeFields, Ordered, Known, Without, WireOf, MakeElement;
      Clear(typ);
      assert Occurrences(fields, typ) == [];
      var ok := Add(typ, value);
      assert [] + [MakeElement(typ, value)] == [MakeElement(typ, value)];
      assert forall t :: t != typ ==> old(Occurrences(fields, t)) + [] == old(Occurrences(fields, t));
    }

    /** The loop of wireDecode over neighbouring fields. */
    static method Check(es: seq<Element>) returns (error: Option<LpError>)
      ensures error == CheckFields(None, es)
    {
      hide CheckField;
      var prev: Option<nat> := None;
      assert es[0..] == es;
      for i := 0 to |es|
        invariant CheckFields(None, es) == CheckFields(prev, es[i..])
      {
        assert es[i..][0] == es[i] && es[i..][1..] == es[i + 1..];
        error := CheckField(prev, es[i].typ);
        if error.Some? {
          return;
        }
        prev := Some(es[i].typ);
      }
      error := None;
    }

    /** wireDecode; a rejected packet changes nothing. */
    method WireDecode(e: Element) returns (error: Option<LpError>)
      requires Valid() && WellFormed(e) && |e.wire| < TWO_64
      modifies this
      ensures Valid()
      ensures var r := DecodeFields(e);
        && error == (if r.Ok? then None else Some(r.error))
        && fields == (if r.Ok? then r.value else old(fields))
      ensures wire == if error.Some? then old(wire) else if e.typ == LP_PACKET then Some(e) else None
    {
      hide ParseElements, WellFormed, CheckFields, WireOf, IsRecognized, CanIgnore;
      if e.typ == INTEREST || e.typ == DATA {
        MakeElementWellFormed(FRAGMENT, e.wire);
        FragmentIsKnown();
        fields, wire := [MakeElement(FRAGMENT, e.wire)], None;
        return None;
      }
      if e.typ != LP_PACKET {
        return Some(NotLpPacket);
      }
      var p := ParseElements(e.value);
      if p.error.Some? {
        return Some(Malformed(p.error.value));
      }
      error := Check(p.elements);
      if error.None? {
        CheckMeans(None, p.elements);
        ParsePartitions(e.value);
        fields, wire := p.elements, Some(e);
      }
    }

    /** wireEncode. A packet that is not a lone Fragment and has no wire is encoded once; its fields are then
        the shortened ones in the new buffer. */
    method WireEncode() returns (r: Result<Element, LpError>)
      requires Valid() && (wire.None? ==> |Wires(fields)| < TWO_64)
      modifies this
      ensures Valid() && SameFields(fields, old(fields))
      ensures fields == if IsLone(old(fields)) || old(wire).Some? then old(fields) else Shorten(old(fields))
      ensures IsLone(old(fields)) ==> r == EncodeFields(old(fields)) && wire == old(wire)
      ensures !IsLone(old(fields)) ==> r.Ok? && wire == Some(r.value)
      ensures !IsLone(old(fields)) ==> WellFormed(r.value) && DecodeFields(r.value) == Ok(fields)
      ensures !IsLone(old(fields)) && old(wire).None? ==> r == EncodeFields(old(fields))
      ensures !IsLone(old(fields)) && old(wire).Some? ==> r == Ok(old(wire).value)
    {
      hide ParseElements, WellFormed, CheckFields, WireOf, IsRecognized, CanIgnore, Known, Ordered, Wires;
      if |fields| == 1 && fields[0].typ == FRAGMENT {
        var p := ParseElements(fields[0].value);
        if p.error.Some? {
          return Err(Malformed(p.error.value));
        }
        return if p.elements == [] then Err(EmptyFragment) else Ok(p.elements[0]);
      }
      if wire.None? {
        PacketRoundTrip(fields);
        ShortenKeeps(fields);
        ShortenKeepsOrder(fields);
        fields, wire := Shorten(fields), Some(MakeElement(LP_PACKET, Wires(Shorten(fields))));
      }
      r := Ok(wire.value);
    }
  }

  lemma FragmentIsKnown()
    ensures IsRecognized(FRAGMENT)
  {
  }

  // ---- runs ----

  datatype Operation =
    | OpAdd(typ: nat, value: seq<Byte>)
    | OpSet(typ: nat, value: seq<Byte>)
    | OpRemove(typ: nat, index: nat)
    | OpClear(typ: nat)
    | OpDecode(packet: Element)
    | OpEncode

  predicate Legal(op: Operation) {
    match op
    case OpAdd(typ, value) => IsRecognized(typ) && |value| < TWO_64
    case OpSet(typ, value) => IsRecognized(typ) && |value| < TWO_64
    case OpDecode(e) => WellFormed(e) && |e.wire| < TWO_64
    case _ => true
  }

  /** What was sent for some fields decodes to the same types and values, for a lone Fragment if and only
      if it holds one Interest or Data. */
  ghost predicate Faithful(es: seq<Element>, sent: Element) {
    DecodesTo(sent, es) <==> (IsLone(es) ==> HoldsOnePacket(es[0]))
  }

  predicate DecodesTo(e: Element, es: seq<Element>) {
    DecodeFields(e).Ok? && SameFields(DecodeFields(e).value, es)
  }

  /** A lone Fragment that is malformed or empty, or fields that do not fit into memory. */
  predicate Unsendable(es: seq<Element>) {
    (IsLone(es) && EncodeFields(es).Err?) || |Wires(es)| >= TWO_64
  }

  method Perform(p: Packet, op: Operation) returns (sent: Option<Element>)
    requires p.Valid() && Legal(op)
    modifies p
    ensures p.Valid()
    ensures sent.Some? ==> op.OpEncode? && SameFields(p.fields, old(p.fields)) && Faithful(old(p.fields), sent.value)
    ensures op.OpEncode? && sent.None? ==> Unsendable(old(p.fields))
  {
    hide Occurrences, WellFormed, DecodeFields, EncodeFields, Ordered, Known, Without, MakeElement, Wires,
      HoldsOnePacket;
    sent := None;
    match op
    case OpAdd(typ, value) => var _ := p.Add(typ, value);
    case OpSet(typ, value) => p.Set(typ, value);
    case OpRemove(typ, index) => var _ := p.Remove(typ, index);
    case OpClear(typ) => p.Clear(typ);
    case OpDecode(e) => var _ := p.WireDecode(e);
    case OpEncode =>
      if |Wires(p.fields)| < TWO_64 {
        ghost var es := p.fields;
        var r := p.WireEncode();
        if r.Ok? {
          sent := Some(r.value);
          if IsLone(es) {
            assert es == [es[0]];
            LoneFragmentExact(es[0]);
          }
        }
      }
  }

  /** Encoding, and it alone, sends, unless it cannot; what is sent is faithful to the fields. */
  ghost predicate SentRightly(op: Operation, es: seq<Element>, sent: Option<Element>) {
    && (sent.Some? ==> op.OpEncode? && Faithful(es, sent.value))
    && (op.OpEncode? && sent.None? ==> Unsendable(es))
  }

  lemma SentAtAll(op: Operation, es: seq<Element>, sent: Option<Element>)
    requires sent.Some? ==> op.OpEncode? && Faithful(es, sent.value)
    requires op.OpEncode? && sent.None? ==> Unsendable(es)
    ensures SentRightly(op, es, sent)
  {
    hide Faithful, Unsendable;
  }

  /** From a new packet, any run keeps the fields in order, and whatever is sent decodes to the fields it
      was sent for, except for a lone Fragment that is not one Interest or Data. */
  method Run(ops: seq<Operation>) returns (p: Packet, sent: seq<(seq<Element>, Option<Element>)>)
    requires forall k :: 0 <= k < |ops| ==> Legal(ops[k])
    ensures fresh(p) && p.Valid() && |sent| == |ops|
    ensures forall k :: 0 <= k < |ops| ==> SentRightly(ops[k], sent[k].0, sent[k].1)
  {
    hide Legal, SentRightly, Faithful, Unsendable, WellFormed, Ordered, Known, AllWellFormed, DecodeFields;
    p := new Packet();
    sent := [];
    for k := 0 to |ops|
      invariant fresh(p) && p.Valid() && |sent| == k
      invariant forall j :: 0 <= j < k ==> SentRightly(ops[j], sent[j].0, sent[j].1)
    {
      var es := p.fields;
      var e := Perform(p, ops[k]);
      assert SentRightly(ops[k], es, e) by {
        SentAtAll(ops[k], es, e);
      }
      sent := sent + [(es, e)];
    }
  }

  /** A Fragment that holds two Interests is sent as the first of them: the second is lost. */
  method SecondPacketLost() returns (p: Packet, sent: Element)
    ensures fresh(p) && p.Valid() && p.fields == [MakeElement(FRAGMENT, Wires(TwoInterests()))]
    ensures EncodeFields(p.fields) == Ok(sent) && sent == TwoInterests()[0]
    ensures DecodeFields(sent) == Ok([MakeElement(FRAGMENT, sent.wire)]) && !DecodesTo(sent, p.fields)
  {
    hide Occurrences, Ordered, Known, WellFormed, ParseElements, Wires, WireOf;
    var es := TwoInterests();
    TwoInterestsParse();
    p := new Packet();
    FragmentIsKnown();
    forall t
      ensures Occurrences([], t) == []
    {
      OccursExactly([], t);
    }
    var _ := p.Add(FRAGMENT, Wires(es));
    OnlyField(p.fields, MakeElement(FRAGMENT, Wires(es)));
    var r := p.WireEncode();
    sent := r.value;
  }

  function TwoInterests(): seq<Element> {
    [MakeElement(INTEREST, []), MakeElement(INTEREST, [])]
  }

  lemma TwoInterestsParse()
    ensures ParseElements(Wires(TwoInterests())) == Parsed(TwoInterests(), None)
    ensures TwoInterests()[0].wire != Wires(TwoInterests()) && |Wires(TwoInterests())| < TWO_64
    ensures |Wires([MakeElement(FRAGMENT, Wires(TwoInterests()))])| < TWO_64
  {
    hide ParseElements, WellFormed;
    var es := TwoInterests();
    MakeElementWellFormed(INTEREST, []);
    ParseInvertsConcatenation(es);
    assert es[1..] == [es[1]] && es[1..][1..] == [];
    assert Wires(es) == es[0].wire + (es[1].wire + []);
    assert |es[0].wire| == 2 == |es[1].wire|;
    WiresFirst([MakeElement(FRAGMENT, Wires(es))]);
  }

  lemma OnlyField(es: seq<Element>, e: Element)
    requires forall t :: Occurrences(es, t) == if t == e.typ then [e] else []
    ensures es == [e]
  {
    hide Occurrences;
    forall i | 0 <= i < |es|
      ensures es[i].typ == e.typ
    {
      OccursExactly(es, es[i].typ);
    }
    AllOccur(es, e.typ);
  }

  lemma {:induction false} AllOccur(es: seq<Element>, typ: nat)
    requires forall i :: 0 <= i < |es| ==> es[i].typ == typ
    ensures Occurrences(es, typ) == es
  {
    if es != [] {
      AllOccur(es[1..], typ);
      assert es == [es[0]] + es[1..];
    }
  }
}
