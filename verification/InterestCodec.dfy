/** Encoding and decoding of Interest packets. */
module InterestCodec {
  import opened Bytes
  import opened Tlv
  import opened NameComponents
  import opened Names

  const INTEREST: nat := 5
  const NAME: nat := 7
  const NONCE: nat := 10
  const INTEREST_LIFETIME: nat := 12
  const MUST_BE_FRESH: nat := 18
  const FORWARDING_HINT: nat := 30
  const LINK_DELEGATION: nat := 31
  const CAN_BE_PREFIX: nat := 33
  const HOP_LIMIT: nat := 34
  const APPLICATION_PARAMETERS: nat := 36

  const DEFAULT_LIFETIME: int := 4000

  predicate IsCritical(typ: nat) {
    typ <= 31 || typ % 2 == 1
  }

  // ---- names as elements ----

  predicate EncodableName(n: Name) {
    forall i :: 0 <= i < |n| ==> IsType(n[i].typ)
  }

  function NameElements(n: Name): (es: seq<Element>)
    ensures |es| == |n| && forall i :: 0 <= i < |n| ==> es[i] == MakeElement(n[i].typ, n[i].value)
  {
    seq(|n|, i requires 0 <= i < |n| => MakeElement(n[i].typ, n[i].value))
  }

  function NameValue(n: Name): seq<Byte> {
    Wires(NameElements(n))
  }

  function ToName(es: seq<Element>): (n: Name)
    ensures |n| == |es| && forall i :: 0 <= i < |n| ==> n[i] == Component(es[i].typ, es[i].value)
  {
    seq(|es|, i requires 0 <= i < |es| => Component(es[i].typ, es[i].value))
  }

  function DecodeName(value: seq<Byte>): Result<Name, TlvError> {
    var p := ParseElements(value);
    if p.error.Some? then Err(p.error.value) else Ok(ToName(p.elements))
  }

  lemma {:induction false} MemberFits(es: seq<Element>, i: nat)
    requires i < |es|
    ensures |es[i].wire| <= |Wires(es)|
  {
    if i > 0 {
      MemberFits(es[1..], i - 1);
    }
  }

  /** Read from somewhere, or made by the library with a legal type. */
  predicate Proper(e: Element) {
    WellFormed(e) || (IsType(e.typ) && IsShortest(e))
  }

  ghost predicate AllProper(es: seq<Element>) {
    forall e :: e in es ==> Proper(e)
  }

  lemma ProperConcat(a: seq<Element>, b: seq<Element>)
    requires AllProper(a) && AllProper(b)
    ensures AllProper(a + b)
  {
  }

  /** Proper elements inside a value of legal size parse back. */
  lemma MadeElementsParse(es: seq<Element>)
    requires |Wires(es)| < TWO_64 && AllProper(es)
    ensures ParseElements(Wires(es)) == Parsed(es, None)
  {
    hide WellFormed, Wires, WireOf;
    forall i | 0 <= i < |es|
      ensures WellFormed(es[i])
    {
      assert es[i] in es && Proper(es[i]);
      MemberFits(es, i);
      ShortestIsWellFormed(es[i]);
    }
    ParseInvertsConcatenation(es);
  }

  lemma ShortestIsWellFormed(e: Element)
    ensures IsType(e.typ) && IsShortest(e) && |e.wire| < TWO_64 ==> WellFormed(e)
  {
    hide WellFormed;
    if IsType(e.typ) && IsShortest(e) && |e.wire| < TWO_64 {
      MakeElementWellFormed(e.typ, e.value);
    }
  }

  lemma NameRoundTrip(n: Name)
    requires EncodableName(n) && |NameValue(n)| < TWO_64
    ensures DecodeName(NameValue(n)) == Ok(n)
  {
    hide Wires, ParseElements, WellFormed, WireOf;
    MadeElementsParse(NameElements(n));
    assert ToName(NameElements(n)) == n;
  }

  // ---- forwarding hints ----

  datatype DecodeError =
    | NotInterest
    | Malformed(error: TlvError)
    | NameMissing
    | NameEmpty
    | ManyDigests
    | OutOfOrder(typ: nat)
    | BadLength(typ: nat)
    | BadHint
    | Critical(typ: nat)
    | DigestMismatch

  function HintElements(hint: seq<Name>): (es: seq<Element>)
    ensures |es| == |hint| && forall i :: 0 <= i < |hint| ==> es[i] == MakeElement(NAME, NameValue(hint[i]))
  {
    seq(|hint|, i requires 0 <= i < |hint| => MakeElement(NAME, NameValue(hint[i])))
  }

  /** The first element of type Name. */
  function FirstName(es: seq<Element>): Option<Element> {
    if es == [] then None else if es[0].typ == NAME then Some(es[0]) else FirstName(es[1..])
  }

  /** The name that one element of a ForwardingHint stands for, in the current or in the delegation format;
      None for an element to be ignored. */
  function HintName(e: Element): Result<Option<Name>, DecodeError> {
    if e.typ == NAME then
      match DecodeName(e.value)
      case Err(_) => Err(BadHint)
      case Ok(n) => Ok(Some(n))
    else if e.typ == LINK_DELEGATION then
      var p := ParseElements(e.value);
      if p.error.Some? || FirstName(p.elements).None? then Err(BadHint)
      else
        match DecodeName(FirstName(p.elements).value.value)
        case Err(_) => Err(BadHint)
        case Ok(n) => Ok(Some(n))
    else if IsCritical(e.typ) then Err(Critical(e.typ))
    else Ok(None)
  }

  function HintNames(es: seq<Element>): Result<seq<Name>, DecodeError> {
    if es == [] then Ok([])
    else
      match HintName(es[0])
      case Err(error) => Err(error)
      case Ok(name) =>
        var rest := HintNames(es[1..]);
        if rest.Err? then rest else Ok((if name.Some? then [name.value] else []) + rest.value)
  }

  /** The names in front of the first element that is rejected. */
  function HintSoFar(es: seq<Element>): seq<Name> {
    if es == [] then []
    else
      match HintName(es[0])
      case Err(_) => []
      case Ok(None) => HintSoFar(es[1..])
      case Ok(Some(n)) => [n] + HintSoFar(es[1..])
  }

  function DecodeHint(value: seq<Byte>): Result<seq<Name>, DecodeError> {
    var p := ParseElements(value);
    if p.error.Some? then Err(Malformed(p.error.value)) else HintNames(p.elements)
  }

  lemma {:induction false} HintNamesOfElements(hint: seq<Name>)
    requires forall i :: 0 <= i < |hint| ==> EncodableName(hint[i]) && |NameValue(hint[i])| < TWO_64
    ensures HintNames(HintElements(hint)) == Ok(hint)
  {
    hide DecodeName, NameValue, WireOf;
    if hint != [] {
      assert HintElements(hint)[0].typ == NAME;
      NameRoundTrip(hint[0]);
      HintNamesOfElements(hint[1..]);
      assert HintElements(hint)[1..] == HintElements(hint[1..]);
      assert hint == [hint[0]] + hint[1..];
    }
  }

  lemma HintRoundTrip(hint: seq<Name>)
    requires forall i :: 0 <= i < |hint| ==> EncodableName(hint[i])
    requires |Wires(HintElements(hint))| < TWO_64
    ensures DecodeHint(Wires(HintElements(hint))) == Ok(hint)
  {
    hide Wires, ParseElements, WellFormed, NameValue, HintNames;
    var es := HintElements(hint);
    MadeElementsParse(es);
    forall i | 0 <= i < |hint|
      ensures |NameValue(hint[i])| < TWO_64
    {
      MemberFits(es, i);
    }
    HintNamesOfElements(hint);
  }

  // ---- Interest fields and their elements ----

  datatype Fields = Fields(name: Name, canBePrefix: bool, mustBeFresh: bool, hint: seq<Name>,
                           nonce: Option<seq<Byte>>, lifetime: int, hopLimit: Option<Byte>,
                           parameters: seq<Element>)

  /** Conversion of signed milliseconds to an unsigned number. */
  function ToUint64(l: int): nat {
    l % TWO_64
  }

  function Opt(present: bool, e: Element): seq<Element> {
    if present then [e] else []
  }

  /** The elements of an Interest in specification order; `nonce` is the one set or generated. */
  function ElementsOf(f: Fields, nonce: seq<Byte>): seq<Element> {
    [MakeElement(NAME, NameValue(f.name))]
    + (Opt(f.canBePrefix, MakeElement(CAN_BE_PREFIX, []))
    + (Opt(f.mustBeFresh, MakeElement(MUST_BE_FRESH, []))
    + (Opt(f.hint != [], MakeElement(FORWARDING_HINT, Wires(HintElements(f.hint))))
    + (Opt(true, MakeElement(NONCE, nonce))
    + (Opt(f.lifetime != DEFAULT_LIFETIME,
           MakeElement(INTEREST_LIFETIME, EncodeNonNegativeInteger(ToUint64(f.lifetime))))
    + (Opt(f.hopLimit.Some?, MakeElement(HOP_LIMIT, if f.hopLimit.Some? then [f.hopLimit.value] else []))
    + f.parameters))))))
  }

  /** The parameter list: empty, or ApplicationParameters followed by elements a decoder keeps. */
  predicate ParametersOk(ps: seq<Element>) {
    && (forall i :: 0 <= i < |ps| ==> WellFormed(ps[i]))
    && (ps != [] ==> ps[0].typ == APPLICATION_PARAMETERS)
    && (forall i :: 1 <= i < |ps| ==> FollowsParameters(ps[i]))
  }

  predicate FollowsParameters(e: Element) {
    !IsCritical(e.typ) && e.typ !in {HOP_LIMIT, APPLICATION_PARAMETERS}
  }

  // ---- decoding ----

  /** The fields so far, and the position of the last recognized element in specification order. */
  datatype Decoding = Decoding(f: Fields, last: int)

  /** Conversion of an unsigned lifetime to signed milliseconds. */
  function ToInt64(n: nat): int {
    if n % TWO_64 >= TWO_63 then n % TWO_64 - TWO_64 else n % TWO_64
  }

  function DecodeOne(d: Decoding, e: Element): Result<Decoding, DecodeError> {
    if e.typ == CAN_BE_PREFIX then
      if d.last >= 2 then Err(OutOfOrder(e.typ))
      else if e.value != [] then Err(BadLength(e.typ))
      else Ok(Decoding(d.f.(canBePrefix := true), 2))
    else if e.typ == MUST_BE_FRESH then
      if d.last >= 3 then Err(OutOfOrder(e.typ))
      else if e.value != [] then Err(BadLength(e.typ))
      else Ok(Decoding(d.f.(mustBeFresh := true), 3))
    else if e.typ == FORWARDING_HINT then
      if d.last >= 4 then Err(OutOfOrder(e.typ))
      else
        match DecodeHint(e.value)
        case Err(err) => Err(err)
        case Ok(hint) => Ok(Decoding(d.f.(hint := hint), 4))
    else if e.typ == NONCE then
      if d.last >= 5 then Err(OutOfOrder(e.typ))
      else if |e.value| != 4 then Err(BadLength(e.typ))
      else Ok(Decoding(d.f.(nonce := Some(e.value)), 5))
    else if e.typ == INTEREST_LIFETIME then
      if d.last >= 6 then Err(OutOfOrder(e.typ))
      else
        match ReadNonNegativeInteger(e.value)
        case Err(err) => Err(Malformed(err))
        case Ok(n) => Ok(Decoding(d.f.(lifetime := ToInt64(n)), 6))
    else if e.typ == HOP_LIMIT then
      if d.last >= 7 then Ok(d)
      else if |e.value| != 1 then Err(BadLength(e.typ))
      else Ok(Decoding(d.f.(hopLimit := Some(e.value[0])), 7))
    else if e.typ == APPLICATION_PARAMETERS then
      if d.last >= 8 then Ok(d)
      else Ok(Decoding(d.f.(parameters := d.f.parameters + [e]), 8))
    else if IsCritical(e.typ) then Err(Critical(e.typ))
    else if d.f.parameters != [] then Ok(d.(f := d.f.(parameters := d.f.parameters + [e])))
    else Ok(d)
  }

  function DecodeRest(d: Decoding, es: seq<Element>): Result<Decoding, DecodeError>
    decreases es
  {
    if es == [] then Ok(d)
    else
      match DecodeOne(d, es[0])
      case Err(e) => Err(e)
      case Ok(d') => DecodeRest(d', es[1..])
  }

  // ---- the digest component ----

  type Digest = s: seq<Byte> | |s| == 32 witness Zeros(32)

  predicate IsParametersDigest(c: Component) {
    c.typ == PARAMETERS_DIGEST && |c.value| == DIGEST_SIZE
  }

  function CountDigests(n: Name): nat {
    if n == [] then 0 else CountDigests(n[..|n| - 1]) + if IsParametersDigest(n[|n| - 1]) then 1 else 0
  }

  /** findParametersDigestComponent: the first one's index, -1 if there is none, -2 if there are several. */
  method FindParametersDigest(n: Name) returns (pos: int)
    ensures pos == -2 <==> CountDigests(n) >= 2
    ensures pos == -1 <==> CountDigests(n) == 0
    ensures pos >= 0 ==> pos < |n| && IsParametersDigest(n[pos])
    ensures pos >= -1 ==> forall j :: 0 <= j < (if pos >= 0 then pos else |n|) ==> !IsParametersDigest(n[j])
    ensures pos >= -2
  {
    pos := -1;
    assert n[..0] == [];
    for i := 0 to |n|
      invariant -1 <= pos < i && CountDigests(n[..i]) == if pos == -1 then 0 else 1
      invariant pos >= 0 ==> IsParametersDigest(n[pos])
      invariant forall j :: 0 <= j < (if pos >= 0 then pos else i) ==> !IsParametersDigest(n[j])
    {
      assert n[..i + 1][..i] == n[..i];
      if IsParametersDigest(n[i]) {
        if pos != -1 {
          CountGrows(n, i + 1);
          return -2;
        }
        pos := i;
      }
    }
    assert n[..|n|] == n;
  }

  lemma {:induction false} CountGrows(n: Name, i: nat)
    requires i <= |n|
    ensures CountDigests(n[..i]) <= CountDigests(n)
  {
    if i == |n| {
      assert n[..i] == n;
    } else {
      CountGrows(n[..|n| - 1], i);
      assert n[..|n| - 1][..i] == n[..i];
    }
  }

  /** isParametersDigestValid, said of the one digest component there may be. */
  predicate DigestValid(f: Fields, hash: seq<Byte> -> Digest) {
    if f.parameters == [] then CountDigests(f.name) == 0
    else CountDigests(f.name) == 1 && HasDigest(f.name, hash(Wires(f.parameters)))
  }

  predicate HasDigest(n: Name, digest: seq<Byte>) {
    exists i :: 0 <= i < |n| && IsParametersDigest(n[i]) && n[i].value == digest
  }

  /** wireDecode. */
  function Decode(e: Element, hash: seq<Byte> -> Digest, autoCheck: bool): Result<Fields, DecodeError> {
    if e.typ != INTEREST then Err(NotInterest)
    else
      var p := ParseElements(e.value);
      if p.error.Some? then Err(Malformed(p.error.value))
      else if p.elements == [] || p.elements[0].typ != NAME then Err(NameMissing)
      else
        match DecodeName(p.elements[0].value)
        case Err(err) => Err(Malformed(err))
        case Ok(name) =>
          if name == [] then Err(NameEmpty)
          else if CountDigests(name) >= 2 then Err(ManyDigests)
          else
            var start := Decoding(Fields(name, false, false, [], None, DEFAULT_LIFETIME, None, []), 1);
            match DecodeRest(start, p.elements[1..])
            case Err(err) => Err(err)
            case Ok(d) => if autoCheck && !DigestValid(d.f, hash) then Err(DigestMismatch) else Ok(d.f)
  }

  /** What the rejection of `e` leaves: of a ForwardingHint, the names in front of the bad one. */
  function Stopped(d: Decoding, e: Element): Decoding {
    var p := ParseElements(e.value);
    if e.typ == FORWARDING_HINT && d.last < 4 && p.error.None? then d.(f := d.f.(hint := HintSoFar(p.elements))) else d
  }

  /** The fields when the loop stops: at the end, or at the element that is rejected. */
  function Progress(d: Decoding, es: seq<Element>): Decoding
    decreases es
  {
    if es == [] then d
    else if DecodeOne(d, es[0]).Err? then Stopped(d, es[0])
    else Progress(DecodeOne(d, es[0]).value, es[1..])
  }

  /** The fields that wireDecode leaves in an object with fields `f`, whether or not it succeeds. */
  function AfterDecode(f: Fields, e: Element): Fields {
    var p := ParseElements(e.value);
    if e.typ != INTEREST || p.error.Some? || p.elements == [] || p.elements[0].typ != NAME then f
    else
      match DecodeName(p.elements[0].value)
      case Err(_) => f
      case Ok(name) =>
        if name == [] || CountDigests(name) >= 2 then f
        else
          Progress(Decoding(Fields(name, false, false, [], None, DEFAULT_LIFETIME, None, []), 1), p.elements[1..]).f
  }

  lemma {:induction false} ProgressOfAccepted(d: Decoding, es: seq<Element>)
    ensures DecodeRest(d, es).Ok? ==> Progress(d, es) == DecodeRest(d, es).value
    decreases es
  {
    hide DecodeOne;
    if es != [] && DecodeOne(d, es[0]).Ok? {
      ProgressOfAccepted(DecodeOne(d, es[0]).value, es[1..]);
    }
  }

  // ---- the round trip ----

  lemma {:induction false} DecodeConcat(d: Decoding, a: seq<Element>, b: seq<Element>)
    requires DecodeRest(d, a).Ok?
    ensures DecodeRest(d, a + b) == DecodeRest(DecodeRest(d, a).value, b)
    decreases a
  {
    hide DecodeOne;
    if a == [] {
      assert a + b == b;
    } else {
      DecodeConcat(DecodeOne(d, a[0]).value, a[1..], b);
      assert (a + b)[1..] == a[1..] + b;
    }
  }

  /** An optional element that decodes to `d'` where present, in front of the rest. */
  lemma OptStep(d: Decoding, present: bool, e: Element, d': Decoding, rest: seq<Element>)
    requires present ==> DecodeOne(d, e) == Ok(d')
    requires !present ==> d' == d
    ensures DecodeRest(d, Opt(present, e) + rest) == DecodeRest(d', rest)
  {
    hide DecodeOne;
    if present {
      assert ([e] + rest)[1..] == rest;
    } else {
      assert [] + rest == rest;
    }
  }

  lemma {:induction false} KeptParameters(d: Decoding, ps: seq<Element>)
    requires d.f.parameters != [] && forall i :: 0 <= i < |ps| ==> FollowsParameters(ps[i])
    ensures DecodeRest(d, ps) == Ok(d.(f := d.f.(parameters := d.f.parameters + ps)))
    decreases ps
  {
    if ps == [] {
      assert d.f.parameters + ps == d.f.parameters;
    } else {
      assert FollowsParameters(ps[0]);
      KeptParameters(d.(f := d.f.(parameters := d.f.parameters + [ps[0]])), ps[1..]);
      assert d.f.parameters + ps == (d.f.parameters + [ps[0]]) + ps[1..];
    }
  }

  lemma DecodeParameters(d: Decoding, ps: seq<Element>)
    requires d.f.parameters == [] && d.last < 8 && ParametersOk(ps)
    ensures DecodeRest(d, ps).Ok? && DecodeRest(d, ps).value.f == d.f.(parameters := ps)
  {
    hide WellFormed;
    if ps != [] {
      var d' := Decoding(d.f.(parameters := [ps[0]]), 8);
      assert DecodeOne(d, ps[0]) == Ok(d') by {
        assert [] + [ps[0]] == [ps[0]];
      }
      hide DecodeOne;
      assert forall i :: 0 <= i < |ps[1..]| ==> ps[1..][i] == ps[i + 1];
      KeptParameters(d', ps[1..]);
      assert ps == [ps[0]] + ps[1..];
    }
  }

  /** A kept Interest whose nonce is set: what the encoder is given. */
  predicate Sendable(f: Fields) {
    WellKept(f) && f.nonce.Some?
  }

  function WireOfInterest(f: Fields, nonce: seq<Byte>): seq<Byte> {
    WireOf(INTEREST, Wires(ElementsOf(f, nonce)))
  }

  /** Decoding the encoding gives back every field, and the order counter never rejects it; only an
      empty name or a wrong digest stands in the way. */
  lemma InterestRoundTrip(f: Fields, hash: seq<Byte> -> Digest, autoCheck: bool)
    requires Sendable(f) && |Wires(ElementsOf(f, f.nonce.value))| < TWO_64
    ensures BlockOfSpan(WireOfInterest(f, f.nonce.value))
         == Ok(MakeElement(INTEREST, Wires(ElementsOf(f, f.nonce.value))))
    ensures Decode(MakeElement(INTEREST, Wires(ElementsOf(f, f.nonce.value))), hash, autoCheck)
         == if f.name == [] then Err(NameEmpty)
            else if autoCheck && !DigestValid(f, hash) then Err(DigestMismatch)
            else Ok(f)
    ensures forall g :: AfterDecode(g, MakeElement(INTEREST, Wires(ElementsOf(f, f.nonce.value))))
                     == if f.name == [] then g else f
  {
    hide Wires, ParseElements, BlockOfSpan, WellFormed, DecodeRest, Progress, NameValue, HintElements, DigestValid,
      WireOf, ElementsOf, DecodeName, EncodableName, CountDigests, ParametersOk;
    var es := ElementsOf(f, f.nonce.value);
    var e := MakeElement(INTEREST, Wires(es));
    MakeElementWellFormed(INTEREST, Wires(es));
    BlockOfInterest(e);
    SectionsParse(f);
    SectionsDecode(f);
    ProgressOfAccepted(Decoding(Fields(f.name, false, false, [], None, DEFAULT_LIFETIME, None, []), 1), es[1..]);
  }

  lemma BlockOfInterest(e: Element)
    requires WellFormed(e)
    ensures BlockOfSpan(e.wire) == Ok(e)
  {
  }

  lemma ElementsProper(f: Fields, nonce: seq<Byte>)
    requires ParametersOk(f.parameters)
    ensures AllProper(ElementsOf(f, nonce))
  {
    hide Wires, WellFormed, NameValue, HintElements, WireOf, EncodeNonNegativeInteger;
    var (e1, e2) := (MakeElement(CAN_BE_PREFIX, []), MakeElement(MUST_BE_FRESH, []));
    var e3 := MakeElement(FORWARDING_HINT, Wires(HintElements(f.hint)));
    var e4 := MakeElement(NONCE, nonce);
    var e5 := MakeElement(INTEREST_LIFETIME, EncodeNonNegativeInteger(ToUint64(f.lifetime)));
    var e6 := MakeElement(HOP_LIMIT, if f.hopLimit.Some? then [f.hopLimit.value] else []);
    assert Proper(e1) && Proper(e2) && Proper(e3) && Proper(e4) && Proper(e5) && Proper(e6);
    assert Proper(MakeElement(NAME, NameValue(f.name)));
    assert forall e :: e in f.parameters ==> Proper(e);
    hide Proper, MakeElement, ParametersOk;
    var s6 := Opt(f.hopLimit.Some?, e6) + f.parameters;
    ProperConcat(Opt(f.hopLimit.Some?, e6), f.parameters);
    var s5 := Opt(f.lifetime != DEFAULT_LIFETIME, e5) + s6;
    ProperConcat(Opt(f.lifetime != DEFAULT_LIFETIME, e5), s6);
    var s4 := Opt(true, e4) + s5;
    ProperConcat(Opt(true, e4), s5);
    var s3 := Opt(f.hint != [], e3) + s4;
    ProperConcat(Opt(f.hint != [], e3), s4);
    var s2 := Opt(f.mustBeFresh, e2) + s3;
    ProperConcat(Opt(f.mustBeFresh, e2), s3);
    ProperConcat(Opt(f.canBePrefix, e1), s2);
    ProperConcat([MakeElement(NAME, NameValue(f.name))], Opt(f.canBePrefix, e1) + s2);
  }

  /** The elements parse back one by one, and the first is the name. */
  lemma SectionsParse(f: Fields)
    requires Sendable(f) && |Wires(ElementsOf(f, f.nonce.value))| < TWO_64
    ensures var es := ElementsOf(f, f.nonce.value);
      && ParseElements(Wires(es)) == Parsed(es, None)
      && es != [] && es[0].typ == NAME && DecodeName(es[0].value) == Ok(f.name)
  {
    hide Wires, ParseElements, WellFormed, NameValue, HintElements, DigestValid, WireOf, DecodeName,
      EncodableName, CountDigests, EncodeNonNegativeInteger;
    var es := ElementsOf(f, f.nonce.value);
    ElementsProper(f, f.nonce.value);
    MadeElementsParse(es);
    MemberFits(es, 0);
    NameRoundTrip(f.name);
  }

  /** ... and the others decode to the remaining fields. */
  lemma SectionsDecode(f: Fields)
    requires Sendable(f) && |Wires(ElementsOf(f, f.nonce.value))| < TWO_64
    ensures var es := ElementsOf(f, f.nonce.value);
      var start := Decoding(Fields(f.name, false, false, [], None, DEFAULT_LIFETIME, None, []), 1);
      es != [] && DecodeRest(start, es[1..]).Ok? && DecodeRest(start, es[1..]).value.f == f
  {
    hide Wires, ParseElements, WellFormed, NameValue, HintElements, DigestValid, WireOf, DecodeRest,
      EncodableName, CountDigests, ParametersOk, EncodeNonNegativeInteger, Opt, DecodeOne;
    var nonce := f.nonce.value;
    var d0 := Decoding(Fields(f.name, false, false, [], None, DEFAULT_LIFETIME, None, []), 1);
    var d1 := if f.canBePrefix then Decoding(d0.f.(canBePrefix := true), 2) else d0;
    var d2 := if f.mustBeFresh then Decoding(d1.f.(mustBeFresh := true), 3) else d1;
    var d3 := if f.hint != [] then Decoding(d2.f.(hint := f.hint), 4) else d2;
    var d4 := Decoding(d3.f.(nonce := f.nonce), 5);
    var d5 := if f.lifetime != DEFAULT_LIFETIME then Decoding(d4.f.(lifetime := f.lifetime), 6) else d4;
    var d6 := if f.hopLimit.Some? then Decoding(d5.f.(hopLimit := f.hopLimit), 7) else d5;
    var (e1, e2) := (MakeElement(CAN_BE_PREFIX, []), MakeElement(MUST_BE_FRESH, []));
    var e3 := MakeElement(FORWARDING_HINT, Wires(HintElements(f.hint)));
    var e4 := MakeElement(NONCE, nonce);
    var e5 := MakeElement(INTEREST_LIFETIME, EncodeNonNegativeInteger(ToUint64(f.lifetime)));
    var e6 := MakeElement(HOP_LIMIT, if f.hopLimit.Some? then [f.hopLimit.value] else []);
    var s6 := Opt(f.hopLimit.Some?, e6) + f.parameters;
    var s5 := Opt(f.lifetime != DEFAULT_LIFETIME, e5) + s6;
    var s4 := Opt(true, e4) + s5;
    var s3 := Opt(f.hint != [], e3) + s4;
    var s2 := Opt(f.mustBeFresh, e2) + s3;
    var s1 := Opt(f.canBePrefix, e1) + s2;
    var es := ElementsOf(f, nonce);
    assert es == [MakeElement(NAME, NameValue(f.name))] + s1;
    assert es[1..] == s1;
    FlagSteps(d0, d1, e1, e2);
    OptStep(d0, f.canBePrefix, e1, d1, s2);
    OptStep(d1, f.mustBeFresh, e2, d2, s3);
    HintStep(f, nonce, d2, e3);
    OptStep(d2, f.hint != [], e3, d3, s4);
    NumberSteps(f, d3, d4, d5);
    OptStep(d3, true, e4, d4, s5);
    OptStep(d4, f.lifetime != DEFAULT_LIFETIME, e5, d5, s6);
    OptStep(d5, f.hopLimit.Some?, e6, d6, f.parameters);
    DecodeParameters(d6, f.parameters);
  }

  lemma FlagSteps(d0: Decoding, d1: Decoding, e1: Element, e2: Element)
    requires e1 == MakeElement(CAN_BE_PREFIX, []) && e2 == MakeElement(MUST_BE_FRESH, [])
    requires d0.last < 2 && d1.last < 3
    ensures DecodeOne(d0, e1) == Ok(Decoding(d0.f.(canBePrefix := true), 2))
    ensures DecodeOne(d1, e2) == Ok(Decoding(d1.f.(mustBeFresh := true), 3))
  {
  }

  lemma HintStep(f: Fields, nonce: seq<Byte>, d: Decoding, e: Element)
    requires d.last < 4 && |Wires(ElementsOf(f, nonce))| < TWO_64
    requires e == MakeElement(FORWARDING_HINT, Wires(HintElements(f.hint)))
    requires forall i :: 0 <= i < |f.hint| ==> EncodableName(f.hint[i])
    ensures f.hint != [] ==> DecodeOne(d, e) == Ok(Decoding(d.f.(hint := f.hint), 4))
  {
    hide Wires, ParseElements, WellFormed, NameValue, HintElements, EncodableName, DecodeHint, EncodeNonNegativeInteger;
    if f.hint != [] {
      var es := ElementsOf(f, nonce);
      assert e in es;
      var i :| 0 <= i < |es| && es[i] == e;
      MemberFits(es, i);
      HintRoundTrip(f.hint);
    }
  }

  lemma NumberSteps(f: Fields, d3: Decoding, d4: Decoding, d5: Decoding)
    requires f.nonce.Some? && |f.nonce.value| == 4 && -TWO_63 <= f.lifetime < TWO_63
    requires d3.last < 5 && d4.last < 6 && d5.last < 7
    ensures DecodeOne(d3, MakeElement(NONCE, f.nonce.value)) == Ok(Decoding(d3.f.(nonce := f.nonce), 5))
    ensures DecodeOne(d4, MakeElement(INTEREST_LIFETIME, EncodeNonNegativeInteger(ToUint64(f.lifetime))))
         == Ok(Decoding(d4.f.(lifetime := f.lifetime), 6))
    ensures f.hopLimit.Some? ==>
              DecodeOne(d5, MakeElement(HOP_LIMIT, [f.hopLimit.value]))
              == Ok(Decoding(d5.f.(hopLimit := f.hopLimit), 7))
  {
    hide WireOf, EncodeNonNegativeInteger, ReadNonNegativeInteger;
    NonNegativeIntegerRoundTrip(ToUint64(f.lifetime));
  }

  // ---- what decoding establishes ----

  /** Fields as decoding and the setters leave them. */
  predicate WellKept(f: Fields) {
    && EncodableName(f.name) && CountDigests(f.name) <= 1
    && (forall i :: 0 <= i < |f.hint| ==> EncodableName(f.hint[i]))
    && (f.nonce.Some? ==> |f.nonce.value| == 4)
    && -TWO_63 <= f.lifetime < TWO_63
    && ParametersOk(f.parameters)
  }

  lemma DecodedNameEncodable(value: seq<Byte>)
    ensures DecodeName(value).Ok? ==> EncodableName(DecodeName(value).value)
  {
    hide ParseElements, WellFormed;
    ParsePartitions(value);
    var es := ParseElements(value).elements;
    forall i | 0 <= i < |es|
      ensures IsType(es[i].typ)
    {
      WellFormedBounds(es[i]);
    }
  }

  lemma HintNameEncodable(e: Element)
    ensures HintName(e).Ok? && HintName(e).value.Some? ==> EncodableName(HintName(e).value.value)
  {
    hide DecodeName, EncodableName, ParseElements, FirstName;
    DecodedNameEncodable(e.value);
    var p := ParseElements(e.value);
    if FirstName(p.elements).Some? {
      DecodedNameEncodable(FirstName(p.elements).value.value);
    }
  }

  lemma {:induction false} DecodedHintEncodable(es: seq<Element>)
    ensures forall i :: 0 <= i < |HintSoFar(es)| ==> EncodableName(HintSoFar(es)[i])
    ensures HintNames(es).Ok? ==> HintNames(es).value == HintSoFar(es)
  {
    hide EncodableName, HintName;
    if es != [] {
      DecodedHintEncodable(es[1..]);
      HintNameEncodable(es[0]);
      assert [] + HintSoFar(es[1..]) == HintSoFar(es[1..]);
    }
  }

  /** The state between two elements: parameters are there exactly from ApplicationParameters on. */
  predicate Between(d: Decoding) {
    WellKept(d.f) && d.last <= 8 && (d.last < 8 ==> d.f.parameters == [])
  }

  lemma DecodeOneKeeps(d: Decoding, e: Element)
    requires Between(d) && WellFormed(e) && DecodeOne(d, e).Ok?
    ensures Between(DecodeOne(d, e).value) && DecodeOne(d, e).value.f.name == d.f.name
  {
    hide WellFormed, ParseElements, EncodableName, CountDigests, HintNames, HintSoFar;
    if e.typ == FORWARDING_HINT {
      DecodedHintEncodable(ParseElements(e.value).elements);
    }
    var (ps, ps') := (d.f.parameters, d.f.parameters + [e]);
    assert forall i :: 0 <= i < |ps'| ==> ps'[i] == if i < |ps| then ps[i] else e;
  }

  lemma StoppedKeeps(d: Decoding, e: Element)
    requires Between(d)
    ensures Between(Stopped(d, e)) && Stopped(d, e).f.name == d.f.name
  {
    hide ParseElements, EncodableName, CountDigests, HintSoFar, HintNames, ParametersOk;
    DecodedHintEncodable(ParseElements(e.value).elements);
  }

  lemma {:induction false} ProgressKeeps(d: Decoding, es: seq<Element>)
    requires Between(d) && (forall i :: 0 <= i < |es| ==> WellFormed(es[i]))
    ensures Between(Progress(d, es)) && Progress(d, es).f.name == d.f.name
    decreases es
  {
    hide WellFormed, Between, DecodeOne, Stopped;
    if es != [] && DecodeOne(d, es[0]).Err? {
      StoppedKeeps(d, es[0]);
    } else if es != [] {
      assert WellFormed(es[0]);
      DecodeOneKeeps(d, es[0]);
      assert forall i :: 0 <= i < |es[1..]| ==> es[1..][i] == es[i + 1];
      ProgressKeeps(DecodeOne(d, es[0]).value, es[1..]);
    }
  }

  /** Accepted or rejected, a packet leaves fields that can be kept. */
  lemma AfterDecodeKeeps(f: Fields, e: Element)
    requires WellKept(f)
    ensures WellKept(AfterDecode(f, e))
  {
    hide ParseElements, DecodeName, Progress, EncodableName, CountDigests, WellFormed;
    var es := ParseElements(e.value).elements;
    ParsePartitions(e.value);
    if AfterDecode(f, e) != f {
      DecodedNameEncodable(es[0].value);
      assert forall i :: 0 <= i < |es[1..]| ==> es[1..][i] == es[i + 1];
      var name := DecodeName(es[0].value).value;
      ProgressKeeps(Decoding(Fields(name, false, false, [], None, DEFAULT_LIFETIME, None, []), 1), es[1..]);
    }
  }

  /** An accepted packet decodes to the fields left behind, which have a name and, checked, the right digest. */
  lemma DecodeEstablishes(f: Fields, e: Element, hash: seq<Byte> -> Digest, autoCheck: bool)
    requires Decode(e, hash, autoCheck).Ok?
    ensures var g := Decode(e, hash, autoCheck).value;
      g == AfterDecode(f, e) && g.name != [] && (autoCheck ==> DigestValid(g, hash))
  {
    hide ParseElements, DecodeName, DecodeRest, Progress, EncodableName, CountDigests, DigestValid, WellFormed;
    var es := ParseElements(e.value).elements;
    var name := DecodeName(es[0].value).value;
    var start := Decoding(Fields(name, false, false, [], None, DEFAULT_LIFETIME, None, []), 1);
    ProgressOfAccepted(start, es[1..]);
    ParsePartitions(e.value);
    DecodedNameEncodable(es[0].value);
    assert forall i :: 0 <= i < |es[1..]| ==> es[1..][i] == es[i + 1];
    ProgressKeeps(start, es[1..]);
  }

  // ---- which packets are accepted, in type numbers ----

  /** The place of a recognized element in the specification; 0 for others. */
  function Place(typ: nat): nat {
    if typ == 33 then 2 else if typ == 18 then 3 else if typ == 30 then 4 else if typ == 10 then 5
    else if typ == 12 then 6 else if typ == 34 then 7 else if typ == 36 then 8 else 0
  }

  /** All recognized elements in front belong in front. */
  predicate InPlace(es: seq<Element>, i: nat)
    requires i < |es|
  {
    forall j :: 0 <= j < i ==> Place(es[j].typ) < Place(es[i].typ)
  }

  predicate HintElementOk(e: Element) {
    if e.typ == 7 then ParseElements(e.value).error.None?
    else if e.typ == 31 then
      var p := ParseElements(e.value);
      p.error.None? && FirstName(p.elements).Some? && ParseElements(FirstName(p.elements).value.value).error.None?
    else e.typ >= 32 && e.typ % 2 == 0
  }

  predicate ValueOk(e: Element) {
    if e.typ in {33, 18} then e.value == []
    else if e.typ == 10 then |e.value| == 4
    else if e.typ == 12 then |e.value| in {1, 2, 4, 8}
    else
      var p := ParseElements(e.value);
      p.error.None? && forall i :: 0 <= i < |p.elements| ==> HintElementOk(p.elements[i])
  }

  /** CanBePrefix, MustBeFresh, ForwardingHint, Nonce and InterestLifetime have to be in place and well-formed, so
      none occurs twice; a HopLimit in place has one octet; ApplicationParameters may be anywhere; anything else
      needs an even type of at least 32. */
  predicate ElementOk(es: seq<Element>, i: nat)
    requires i < |es|
  {
    var e := es[i];
    if e.typ in {33, 18, 30, 10, 12} then InPlace(es, i) && ValueOk(e)
    else if e.typ == 34 then InPlace(es, i) ==> |e.value| == 1
    else e.typ == 36 || (e.typ >= 32 && e.typ % 2 == 0)
  }

  ghost predicate LastPlace(es: seq<Element>, last: int) {
    && last >= 1 && (forall j :: 0 <= j < |es| ==> Place(es[j].typ) <= last)
    && (last == 1 || exists j :: 0 <= j < |es| && Place(es[j].typ) == last)
  }

  lemma {:induction false} HintAccepts(es: seq<Element>)
    ensures HintNames(es).Ok? <==> forall i :: 0 <= i < |es| ==> HintElementOk(es[i])
  {
    hide ParseElements, FirstName, ToName;
    if es != [] {
      HintAccepts(es[1..]);
      assert forall i :: 0 <= i < |es[1..]| ==> es[1..][i] == es[i + 1];
      assert forall i :: 0 < i < |es| ==> es[i] == es[1..][i - 1];
    }
  }

  lemma StepAccepts(d: Decoding, es: seq<Element>, n: nat)
    requires n < |es| && LastPlace(es[..n], d.last)
    ensures DecodeOne(d, es[n]).Ok? <==> ElementOk(es, n)
    ensures DecodeOne(d, es[n]).Ok? ==> LastPlace(es[..n + 1], DecodeOne(d, es[n]).value.last)
  {
    hide ParseElements, HintNames, HintElementOk;
    var (e, before) := (es[n], es[..n]);
    HintAccepts(ParseElements(e.value).elements);
    assert es[..n + 1] == before + [e];
    if Place(e.typ) > 1 {
      InPlaceMeans(es, n, d.last);
    }
    if DecodeOne(d, e).Ok? {
      var last := DecodeOne(d, e).value.last;
      assert last == if Place(e.typ) > d.last then Place(e.typ) else d.last;
      PlaceGrows(before, e, d.last);
    }
  }

  lemma InPlaceMeans(es: seq<Element>, n: nat, last: int)
    requires n < |es| && LastPlace(es[..n], last) && Place(es[n].typ) > 1
    ensures InPlace(es, n) <==> last < Place(es[n].typ)
  {
    hide Place;
    var before := es[..n];
    assert forall j :: 0 <= j < n ==> before[j] == es[j];
    if last != 1 {
      var j :| 0 <= j < |before| && Place(before[j].typ) == last;
      assert es[j] == before[j];
    }
  }

  lemma PlaceGrows(es: seq<Element>, e: Element, last: int)
    requires LastPlace(es, last)
    ensures LastPlace(es + [e], if Place(e.typ) > last then Place(e.typ) else last)
  {
    hide Place;
    var (qs, m) := (es + [e], if Place(e.typ) > last then Place(e.typ) else last);
    assert qs[|es|] == e && forall j :: 0 <= j < |es| ==> qs[j] == es[j];
    if m == last && last != 1 {
      var j :| 0 <= j < |es| && Place(es[j].typ) == last;
      assert Place(qs[j].typ) == m;
    }
  }

  lemma {:induction false} RejectedStays(d: Decoding, a: seq<Element>, b: seq<Element>)
    requires DecodeRest(d, a).Err?
    ensures DecodeRest(d, a + b) == DecodeRest(d, a)
    decreases a
  {
    hide DecodeOne;
    assert (a + b)[0] == a[0] && (a + b)[1..] == a[1..] + b;
    if DecodeOne(d, a[0]).Ok? {
      RejectedStays(DecodeOne(d, a[0]).value, a[1..], b);
    }
  }

  /** One element more. */
  lemma RestSnoc(d: Decoding, es: seq<Element>, e: Element)
    ensures DecodeRest(d, es + [e])
         == (if DecodeRest(d, es).Err? then DecodeRest(d, es) else DecodeOne(DecodeRest(d, es).value, e))
  {
    hide DecodeOne;
    if DecodeRest(d, es).Err? {
      RejectedStays(d, es, [e]);
    } else {
      DecodeConcat(d, es, [e]);
      assert [e][1..] == [];
    }
  }

  /** The elements after the name are accepted exactly when each is all right where it is. */
  lemma {:induction false} RestAcceptsExactly(d: Decoding, es: seq<Element>)
    requires d.last == 1
    ensures DecodeRest(d, es).Ok? <==> forall i :: 0 <= i < |es| ==> ElementOk(es, i)
    ensures DecodeRest(d, es).Ok? ==> LastPlace(es, DecodeRest(d, es).value.last)
    decreases |es|
  {
    hide DecodeOne, ElementOk, LastPlace;
    if es == [] {
      assert LastPlace([], 1) by {
        EmptyLastPlace();
      }
    } else {
      var n := |es| - 1;
      var before := es[..n];
      RestAcceptsExactly(d, before);
      assert es == before + [es[n]] && es[..n + 1] == es;
      RestSnoc(d, before, es[n]);
      forall i | 0 <= i < n
        ensures ElementOk(es, i) == ElementOk(before, i)
      {
        SameBefore(es, before, i);
      }
      if DecodeRest(d, before).Ok? {
        StepAccepts(DecodeRest(d, before).value, es, n);
      }
    }
  }

  lemma EmptyLastPlace()
    ensures LastPlace([], 1)
  {
  }

  lemma SameBefore(es: seq<Element>, before: seq<Element>, i: nat)
    requires before <= es && i < |before|
    ensures ElementOk(es, i) == ElementOk(before, i)
  {
    hide ValueOk;
    assert forall j :: 0 <= j <= i ==> es[j] == before[j];
  }

  /** Exactly these packets are Interests. */
  lemma DecodeAcceptsExactly(e: Element, hash: seq<Byte> -> Digest)
    ensures var p := ParseElements(e.value);
      Decode(e, hash, false).Ok? <==>
        && e.typ == 5 && p.error.None? && p.elements != [] && p.elements[0].typ == 7
        && var n := ParseElements(p.elements[0].value);
        && n.error.None? && n.elements != [] && CountDigests(ToName(n.elements)) <= 1
        && forall i :: 0 <= i < |p.elements[1..]| ==> ElementOk(p.elements[1..], i)
    ensures Decode(e, hash, true).Ok? <==>
      Decode(e, hash, false).Ok? && DigestValid(Decode(e, hash, false).value, hash)
    ensures Decode(e, hash, true).Ok? ==> Decode(e, hash, true) == Decode(e, hash, false)
  {
    hide ParseElements, CountDigests, DecodeRest, ElementOk, DigestValid;
    var p := ParseElements(e.value);
    if e.typ == 5 && p.error.None? && p.elements != [] && p.elements[0].typ == 7 {
      var n := ParseElements(p.elements[0].value);
      if n.error.None? && n.elements != [] {
        var start := Decoding(Fields(ToName(n.elements), false, false, [], None, DEFAULT_LIFETIME, None, []), 1);
        RestAcceptsExactly(start, p.elements[1..]);
      }
    }
  }

  /** An unknown element of a critical type, at most 31 or odd, makes the packet unacceptable, and so does one in a
      ForwardingHint. */
  lemma CriticalIsRejected(e: Element, hash: seq<Byte> -> Digest, autoCheck: bool, i: nat)
    requires 0 < i < |ParseElements(e.value).elements|
    requires var t := ParseElements(e.value).elements[i].typ;
      t !in {33, 18, 30, 10, 12, 34, 36} && (t <= 31 || t % 2 == 1)
    ensures Decode(e, hash, autoCheck).Err?
  {
    hide ParseElements, Decode;
    var es := ParseElements(e.value).elements;
    DecodeAcceptsExactly(e, hash);
    assert es[1..][i - 1] == es[i];
    assert !ElementOk(es[1..], i - 1);
  }

  lemma CriticalInHintIsRejected(value: seq<Byte>, i: nat)
    requires i < |ParseElements(value).elements|
    requires var t := ParseElements(value).elements[i].typ; t !in {7, 31} && (t <= 31 || t % 2 == 1)
    ensures DecodeHint(value).Err?
  {
    hide ParseElements, HintNames;
    HintAccepts(ParseElements(value).elements);
    assert !HintElementOk(ParseElements(value).elements[i]);
  }

  // ---- what an accepted packet means ----

  ghost predicate Has(es: seq<Element>, typ: nat) {
    exists i :: 0 <= i < |es| && es[i].typ == typ
  }

  /** Elements that are not recognized. */
  function Others(es: seq<Element>): seq<Element> {
    if es == [] then []
    else
      var last := es[|es| - 1];
      Others(es[..|es| - 1]) + if Place(last.typ) == 0 then [last] else []
  }

  ghost predicate FlagsRead(es: seq<Element>, f: Fields) {
    (f.canBePrefix <==> Has(es, 33)) && (f.mustBeFresh <==> Has(es, 18))
  }

  ghost predicate NumbersRead(es: seq<Element>, f: Fields) {
    && (!Has(es, 10) ==> f.nonce.None?) && (!Has(es, 12) ==> f.lifetime == 4000)
    && (forall i :: 0 <= i < |es| && es[i].typ == 10 ==> f.nonce == Some(es[i].value))
    && (forall i :: 0 <= i < |es| && es[i].typ == 12 ==> f.lifetime == ToInt64(BigEndian(es[i].value)))
  }

  ghost predicate HintRead(es: seq<Element>, f: Fields) {
    && (!Has(es, 30) ==> f.hint == [])
    && (forall i :: 0 <= i < |es| && es[i].typ == 30 ==> Ok(f.hint) == DecodeHint(es[i].value))
  }

  ghost predicate HopLimitRead(es: seq<Element>, f: Fields) {
    && ((forall i :: 0 <= i < |es| && es[i].typ == 34 ==> !InPlace(es, i)) ==> f.hopLimit.None?)
    && (forall i :: 0 <= i < |es| && es[i].typ == 34 && InPlace(es, i) ==>
                      es[i].value != [] && f.hopLimit == Some(es[i].value[0]))
  }

  /** The first ApplicationParameters and all unknown elements behind it. */
  ghost predicate ParametersRead(es: seq<Element>, f: Fields) {
    && (!Has(es, 36) ==> f.parameters == [])
    && (forall i :: 0 <= i < |es| && es[i].typ == 36 && InPlace(es, i) ==>
                      f.parameters == [es[i]] + Others(es[i + 1..]))
  }

  ghost predicate FieldsRead(es: seq<Element>, f: Fields) {
    FlagsRead(es, f) && NumbersRead(es, f) && HintRead(es, f) && HopLimitRead(es, f) && ParametersRead(es, f)
  }

  lemma HasSnoc(es: seq<Element>, e: Element, typ: nat)
    ensures Has(es + [e], typ) <==> Has(es, typ) || e.typ == typ
  {
    var qs := es + [e];
    assert qs[|es|] == e && forall i :: 0 <= i < |es| ==> qs[i] == es[i];
    if Has(es, typ) {
      var i :| 0 <= i < |es| && es[i].typ == typ;
      assert qs[i].typ == typ;
    }
  }

  lemma FlagsStep(es: seq<Element>, e: Element, d: Decoding)
    requires FlagsRead(es, d.f) && DecodeOne(d, e).Ok?
    ensures FlagsRead(es + [e], DecodeOne(d, e).value.f)
  {
    hide Has, DecodeHint, ReadNonNegativeInteger;
    HasSnoc(es, e, 33);
    HasSnoc(es, e, 18);
  }

  /** An element that has to be in place was not there before. */
  lemma NotYet(es: seq<Element>, e: Element, d: Decoding)
    requires LastPlace(es, d.last) && DecodeOne(d, e).Ok? && e.typ in {33, 18, 30, 10, 12}
    ensures !Has(es, e.typ)
  {
    hide DecodeHint, ReadNonNegativeInteger;
    assert d.last < Place(e.typ);
  }

  lemma NumbersStep(es: seq<Element>, e: Element, d: Decoding)
    requires NumbersRead(es, d.f) && LastPlace(es, d.last) && DecodeOne(d, e).Ok?
    ensures NumbersRead(es + [e], DecodeOne(d, e).value.f)
  {
    hide Has, DecodeHint, LastPlace, BigEndian, ToInt64;
    HasSnoc(es, e, 10);
    HasSnoc(es, e, 12);
    if e.typ == 10 || e.typ == 12 {
      NotYet(es, e, d);
      NotThere(es, e.typ);
    }
    var qs := es + [e];
    assert forall i :: 0 <= i < |qs| ==> qs[i] == if i < |es| then es[i] else e;
  }

  lemma NotThere(es: seq<Element>, typ: nat)
    requires !Has(es, typ)
    ensures forall i :: 0 <= i < |es| ==> es[i].typ != typ
  {
  }

  lemma HintReadStep(es: seq<Element>, e: Element, d: Decoding)
    requires HintRead(es, d.f) && LastPlace(es, d.last) && DecodeOne(d, e).Ok?
    ensures HintRead(es + [e], DecodeOne(d, e).value.f)
  {
    hide Has, DecodeHint, LastPlace, ReadNonNegativeInteger;
    HasSnoc(es, e, 30);
    if e.typ == 30 {
      NotYet(es, e, d);
      NotThere(es, 30);
    }
    var qs := es + [e];
    assert forall i :: 0 <= i < |qs| ==> qs[i] == if i < |es| then es[i] else e;
  }

  lemma InPlaceSnoc(es: seq<Element>, e: Element, last: int)
    requires LastPlace(es, last)
    ensures forall i :: 0 <= i < |es| ==> InPlace(es + [e], i) == InPlace(es, i)
    ensures Place(e.typ) > 1 ==> (InPlace(es + [e], |es|) <==> last < Place(e.typ))
  {
    hide Place;
    var qs := es + [e];
    assert qs[..|es|] == es && forall i :: 0 <= i < |qs| ==> qs[i] == if i < |es| then es[i] else e;
    if Place(e.typ) > 1 {
      InPlaceMeans(qs, |es|, last);
    }
  }

  lemma HopLimitStep(es: seq<Element>, e: Element, d: Decoding)
    requires HopLimitRead(es, d.f) && LastPlace(es, d.last) && DecodeOne(d, e).Ok?
    ensures HopLimitRead(es + [e], DecodeOne(d, e).value.f)
  {
    hide DecodeHint, LastPlace, ReadNonNegativeInteger, InPlace;
    InPlaceSnoc(es, e, d.last);
    var (qs, f') := (es + [e], DecodeOne(d, e).value.f);
    assert forall i :: 0 <= i < |qs| ==> qs[i] == if i < |es| then es[i] else e;
    if e.typ == 34 && d.last < 7 {
      NoneInPlaceYet(es, 34, d.last);
    }
  }

  lemma NoneInPlaceYet(es: seq<Element>, typ: nat, last: int)
    requires LastPlace(es, last) && last < Place(typ)
    ensures forall i :: 0 <= i < |es| ==> es[i].typ != typ
  {
  }

  lemma PlaceBounds(es: seq<Element>, e: Element, last: int)
    requires LastPlace(es, last)
    ensures last >= 1 && Place(36) == 8 && Place(e.typ) <= 8 && (Place(e.typ) == 8 <==> e.typ == 36)
  {
  }

  /** What an accepted element does to the parameters and to the place reached. */
  lemma StepFrame(d: Decoding, e: Element)
    requires DecodeOne(d, e).Ok? && d.last >= 1
    ensures var d' := DecodeOne(d, e).value;
      && d'.last == (if Place(e.typ) > d.last then Place(e.typ) else d.last)
      && d'.f.parameters == if (e.typ == 36 && d.last < 8) || (Place(e.typ) == 0 && d.f.parameters != [])
                            then d.f.parameters + [e] else d.f.parameters
  {
    hide DecodeHint, ReadNonNegativeInteger;
  }

  lemma ParametersStart(es: seq<Element>, e: Element, f: Fields, f': Fields, last: int)
    requires LastPlace(es, last) && e.typ == 36 && last < 8 && f.parameters == [] && f'.parameters == f.parameters + [e]
    ensures ParametersRead(es + [e], f')
  {
    hide LastPlace, InPlace, Has;
    HasSnoc(es, e, 36);
    NoneInPlaceYet(es, 36, last);
    var qs := es + [e];
    assert forall i :: 0 <= i < |qs| ==> qs[i] == if i < |es| then es[i] else e;
    assert qs[|es| + 1..] == [] && f'.parameters == [e] + [];
  }

  lemma ParametersGoOn(es: seq<Element>, e: Element, f: Fields, f': Fields, last: int)
    requires ParametersRead(es, f) && LastPlace(es, last) && last <= 8 && (f.parameters != [] <==> last == 8)
    requires e.typ == 36 ==> last == 8
    requires f'.parameters == if Place(e.typ) == 0 && f.parameters != [] then f.parameters + [e] else f.parameters
    ensures ParametersRead(es + [e], f')
  {
    hide LastPlace, InPlace, Has, Place, Others;
    PlaceBounds(es, e, last);
    HasSnoc(es, e, 36);
    InPlaceSnoc(es, e, last);
    var qs := es + [e];
    forall i | 0 <= i < |qs| && qs[i].typ == 36 && InPlace(qs, i)
      ensures f'.parameters == [qs[i]] + Others(qs[i + 1..])
    {
      assert i < |es| && qs[i] == es[i] && InPlace(es, i);
      assert f.parameters == [es[i]] + Others(es[i + 1..]);
      assert qs[i + 1..] == es[i + 1..] + [e];
      OthersSnoc(es[i + 1..], e);
      Associative([es[i]], Others(es[i + 1..]), [e]);
    }
    if !Has(qs, 36) {
      assert f.parameters == [];
    }
  }

  lemma OthersSnoc(es: seq<Element>, e: Element)
    ensures Others(es + [e]) == if Place(e.typ) == 0 then Others(es) + [e] else Others(es)
  {
    assert (es + [e])[..|es|] == es;
    assert Others(es) + [] == Others(es);
  }

  /** Each field of an accepted packet comes from its element, and has its default without one. */
  lemma {:induction false} RestFieldsRead(d: Decoding, es: seq<Element>)
    requires d.last == 1 && d.f == Fields(d.f.name, false, false, [], None, 4000, None, []) && DecodeRest(d, es).Ok?
    ensures var d' := DecodeRest(d, es).value;
      && FieldsRead(es, d'.f) && LastPlace(es, d'.last) && d'.last <= 8 && (d'.f.parameters != [] <==> d'.last == 8)
    decreases |es|
  {
    hide DecodeOne, FlagsRead, NumbersRead, HintRead, HopLimitRead, ParametersRead, LastPlace, DecodeRest, Place;
    RestAcceptsExactly(d, es);
    if es == [] {
      NothingRead(d);
    } else {
      var n := |es| - 1;
      var (before, e) := (es[..n], es[n]);
      assert es == before + [e];
      RestSnoc(d, before, e);
      RestAcceptsExactly(d, before);
      RestFieldsRead(d, before);
      var d' := DecodeRest(d, before).value;
      FlagsStep(before, e, d');
      NumbersStep(before, e, d');
      HintReadStep(before, e, d');
      HopLimitStep(before, e, d');
      PlaceBounds(before, e, d'.last);
      StepFrame(d', e);
      if e.typ == 36 && d'.last < 8 {
        ParametersStart(before, e, d'.f, DecodeOne(d', e).value.f, d'.last);
      } else {
        ParametersGoOn(before, e, d'.f, DecodeOne(d', e).value.f, d'.last);
      }
    }
  }

  lemma NothingRead(d: Decoding)
    requires d.last == 1 && d.f == Fields(d.f.name, false, false, [], None, 4000, None, [])
    ensures DecodeRest(d, []) == Ok(d) && FieldsRead([], d.f)
  {
  }

  lemma DecodedFieldsRead(e: Element, hash: seq<Byte> -> Digest, autoCheck: bool)
    requires Decode(e, hash, autoCheck).Ok?
    ensures var (f, es) := (Decode(e, hash, autoCheck).value, ParseElements(e.value).elements);
      es != [] && f.name == ToName(ParseElements(es[0].value).elements) && FieldsRead(es[1..], f)
  {
    hide ParseElements, CountDigests, DecodeRest, DigestValid, FieldsRead, DecodeOne;
    var es := ParseElements(e.value).elements;
    var name := ToName(ParseElements(es[0].value).elements);
    var start := Decoding(Fields(name, false, false, [], None, DEFAULT_LIFETIME, None, []), 1);
    RestFieldsRead(start, es[1..]);
    assert DecodeRest(start, es[1..]).value.f.name == name by {
      RestKeepsName(start, es[1..]);
    }
  }

  lemma {:induction false} RestKeepsName(d: Decoding, es: seq<Element>)
    requires DecodeRest(d, es).Ok?
    ensures DecodeRest(d, es).value.f.name == d.f.name
    decreases es
  {
    if es != [] {
      RestKeepsName(DecodeOne(d, es[0]).value, es[1..]);
    }
  }

  // ---- delegations ----

  /** The name of a Delegation is its first Name element, whatever stands around it. */
  lemma DelegationName(n: Name, before: seq<Element>, after: seq<Element>)
    requires EncodableName(n) && AllProper(before) && AllProper(after)
    requires forall i :: 0 <= i < |before| ==> before[i].typ != 7
    requires |Wires(before + [MakeElement(NAME, NameValue(n))] + after)| < TWO_64
    ensures HintName(MakeElement(31, Wires(before + [MakeElement(NAME, NameValue(n))] + after))) == Ok(Some(n))
  {
    hide ParseElements, Wires, WireOf, NameValue, WellFormed;
    var e := MakeElement(NAME, NameValue(n));
    var es := before + [e] + after;
    assert Proper(e);
    hide Proper;
    ProperConcat(before, [e]);
    ProperConcat(before + [e], after);
    MadeElementsParse(es);
    assert es[|before|] == e;
    MemberFits(es, |before|);
    NameRoundTrip(n);
    FirstNameBehind(before, e, after);
  }

  lemma {:induction false} FirstNameBehind(before: seq<Element>, e: Element, after: seq<Element>)
    requires e.typ == 7 && forall i :: 0 <= i < |before| ==> before[i].typ != 7
    ensures FirstName(before + [e] + after) == Some(e)
  {
    var es := before + [e] + after;
    if before != [] {
      assert es[0] == before[0] && es[1..] == before[1..] + [e] + after;
      FirstNameBehind(before[1..], e, after);
    }
  }
}
