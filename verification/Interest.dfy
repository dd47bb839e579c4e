/** The Interest object: setters, upkeep of the parameters digest, and the cached wire. */
module Interests {
  import opened Bytes
  import opened Tlv
  import opened Encoding
  import opened NameComponents
  import opened Names
  import opened InterestCodec
  import opened InterestWriter

  const SIGNATURE_INFO: nat := 44
  const SIGNATURE_VALUE: nat := 46

  // ---- the digest component of a name ----

  /** Where the first digest component is, or would be appended. */
  function DigestPosition(n: Name): (i: nat)
    ensures i <= |n| && (i < |n| ==> IsParametersDigest(n[i]))
    ensures forall j :: 0 <= j < i ==> !IsParametersDigest(n[j])
  {
    if n == [] then 0
    else if IsParametersDigest(n[0]) then 0
    else
      var k := DigestPosition(n[1..]);
      assert forall j :: 0 < j < 1 + k ==> n[j] == n[1..][j - 1];
      1 + k
  }

  function WithDigest(n: Name, digest: Digest): Name {
    var (i, c) := (DigestPosition(n), Component(PARAMETERS_DIGEST, digest));
    if i < |n| then n[i := c] else n + [c]
  }

  function WithoutDigest(n: Name): Name {
    var i := DigestPosition(n);
    if i < |n| then n[..i] + n[i + 1..] else n
  }

  lemma WithoutIs(n: Name)
    ensures var i := DigestPosition(n); WithoutDigest(n) == if i < |n| then n[..i] + n[i + 1..] else n
  {
  }

  lemma {:induction false} CountConcat(a: Name, b: Name)
    ensures CountDigests(a + b) == CountDigests(a) + CountDigests(b)
  {
    if b == [] {
      assert a + b == a;
    } else {
      assert (a + b)[..|a + b| - 1] == a + b[..|b| - 1];
      CountConcat(a, b[..|b| - 1]);
    }
  }

  lemma {:induction false} CountNone(n: Name)
    requires forall j :: 0 <= j < |n| ==> !IsParametersDigest(n[j])
    ensures CountDigests(n) == 0
  {
    if n != [] {
      CountNone(n[..|n| - 1]);
    }
  }

  /** The count around one component. */
  lemma CountAround(n: Name, i: nat, c: Component)
    requires i < |n|
    ensures CountDigests(n[i := c])
         == CountDigests(n[..i]) + CountDigests(n[i + 1..]) + if IsParametersDigest(c) then 1 else 0
    ensures CountDigests(n[..i] + n[i + 1..]) == CountDigests(n[..i]) + CountDigests(n[i + 1..])
  {
    assert n[i := c] == (n[..i] + [c]) + n[i + 1..];
    CountConcat(n[..i] + [c], n[i + 1..]);
    CountConcat(n[..i], [c]);
    CountOne(c);
    CountConcat(n[..i], n[i + 1..]);
  }

  /** The digest component set is the only one, and carries the digest. */
  lemma DigestSet(n: Name, digest: Digest)
    requires CountDigests(n) <= 1 && EncodableName(n)
    ensures CountDigests(WithDigest(n, digest)) == 1 && HasDigest(WithDigest(n, digest), digest)
    ensures EncodableName(WithDigest(n, digest)) && WithDigest(n, digest) != []
  {
    hide CountDigests, DigestPosition;
    var (i, c) := (DigestPosition(n), Component(PARAMETERS_DIGEST, digest));
    var m := WithDigest(n, digest);
    assert IsParametersDigest(c) && m[i] == c;
    CountNone(n[..i]);
    if i < |n| {
      CountAround(n, i, c);
      CountAround(n, i, n[i]);
      assert n[i := n[i]] == n;
    } else {
      assert n[..i] == n;
      CountConcat(n, [c]);
      CountOne(c);
    }
  }

  lemma CountOne(c: Component)
    ensures CountDigests([c]) == if IsParametersDigest(c) then 1 else 0
  {
    assert [c][..0] == [];
  }

  /** Taking the digest component away leaves none, and undoes setting it. */
  lemma DigestUnset(n: Name, digest: Digest)
    requires CountDigests(n) <= 1 && EncodableName(n)
    ensures CountDigests(WithoutDigest(n)) == 0 && EncodableName(WithoutDigest(n))
    ensures WithoutDigest(WithDigest(n, digest)) == WithoutDigest(n)
  {
    hide CountDigests, DigestPosition;
    var (i, c) := (DigestPosition(n), Component(PARAMETERS_DIGEST, digest));
    var m := WithDigest(n, digest);
    CountNone(n[..i]);
    if i < |n| {
      CountAround(n, i, n[i]);
      assert n[i := n[i]] == n && m[..i] == n[..i] && m[i + 1..] == n[i + 1..];
    } else {
      assert n[..i] == n && m[..i] + m[i + 1..] == n;
    }
    FirstIsUnique(m, i);
  }

  lemma FirstIsUnique(n: Name, i: nat)
    requires i < |n| && IsParametersDigest(n[i]) && forall j :: 0 <= j < i ==> !IsParametersDigest(n[j])
    ensures DigestPosition(n) == i
  {
  }

  // ---- the parameter list ----

  function FirstOf(ps: seq<Element>, typ: nat): (i: nat)
    ensures i <= |ps| && (i < |ps| ==> ps[i].typ == typ)
    ensures forall j :: 0 <= j < i ==> ps[j].typ != typ
  {
    if ps == [] || ps[0].typ == typ then 0
    else
      var k := FirstOf(ps[1..], typ);
      assert forall j :: 0 < j < 1 + k ==> ps[j] == ps[1..][j - 1];
      1 + k
  }

  /** Two blocks are equal when type and value are, however they are encoded. */
  predicate SameBlock(a: Element, b: Element) {
    a.typ == b.typ && a.value == b.value
  }

  function WithApplicationParameters(ps: seq<Element>, e: Element): seq<Element> {
    if ps == [] then [e] else ps[0 := e]
  }

  /** Replace the first element of `e`'s type, or insert `e` at `place`. */
  function Placed(ps: seq<Element>, e: Element, place: nat): seq<Element>
    requires place <= |ps|
  {
    var i := FirstOf(ps, e.typ);
    if i == |ps| then ps[..place] + [e] + ps[place..]
    else if SameBlock(ps[i], e) then ps
    else ps[i := e]
  }

  function WithInfo(ps: seq<Element>, info: Element): seq<Element> {
    var base := if ps == [] then [MakeElement(APPLICATION_PARAMETERS, [])] else ps;
    Placed(base, info, FirstOf(base, SIGNATURE_VALUE))
  }

  function WithValue(ps: seq<Element>, value: Element): seq<Element>
    requires FirstOf(ps, SIGNATURE_INFO) < |ps|
  {
    Placed(ps, value, FirstOf(ps, SIGNATURE_INFO) + 1)
  }

  predicate SignatureOrdered(ps: seq<Element>) {
    FirstOf(ps, SIGNATURE_INFO) <= FirstOf(ps, SIGNATURE_VALUE)
  }

  lemma FirstIs(ps: seq<Element>, typ: nat, i: nat)
    requires i <= |ps| && (i < |ps| ==> ps[i].typ == typ) && forall j :: 0 <= j < i ==> ps[j].typ != typ
    ensures FirstOf(ps, typ) == i
  {
  }

  /** Placing an element that may follow ApplicationParameters: it is the first of its type afterwards,
      the first of any other type moves by at most the one place, and the list stays proper. */
  lemma PlacedIs(ps: seq<Element>, e: Element, place: nat)
    requires ParametersOk(ps) && 0 < place <= |ps| && WellFormed(e) && FollowsParameters(e)
    ensures ParametersOk(Placed(ps, e, place)) && Placed(ps, e, place) != []
    ensures var i := FirstOf(Placed(ps, e, place), e.typ);
      && i == (if FirstOf(ps, e.typ) == |ps| then place else FirstOf(ps, e.typ))
      && i < |Placed(ps, e, place)| && Placed(ps, e, place)[i].value == e.value
  {
    hide WellFormed, FirstOf;
    var (i, qs) := (FirstOf(ps, e.typ), Placed(ps, e, place));
    if i == |ps| {
      assert forall j :: 0 <= j < |qs| ==> qs[j] == if j < place then ps[j] else if j == place then e else ps[j - 1];
      FirstIs(qs, e.typ, place);
    } else {
      FirstIs(qs, e.typ, i);
    }
  }

  lemma OthersMove(ps: seq<Element>, e: Element, place: nat, typ: nat)
    requires place <= |ps| && typ != e.typ
    ensures FirstOf(Placed(ps, e, place), typ)
         == FirstOf(ps, typ) + if FirstOf(ps, e.typ) == |ps| && place <= FirstOf(ps, typ) then 1 else 0
  {
    hide FirstOf;
    var (i, k, qs) := (FirstOf(ps, e.typ), FirstOf(ps, typ), Placed(ps, e, place));
    if i == |ps| {
      assert forall j :: 0 <= j < |qs| ==> qs[j] == if j < place then ps[j] else if j == place then e else ps[j - 1];
      FirstIs(qs, typ, if place <= k then k + 1 else k);
    } else {
      FirstIs(qs, typ, k);
    }
  }

  /** Signing keeps the parameter list proper, makes what was set the first of its kind and keeps
      InterestSignatureInfo in front of InterestSignatureValue. */
  lemma SetInfoOrder(ps: seq<Element>, info: Element)
    requires ParametersOk(ps) && WellFormed(info) && info.typ == 44
    ensures var qs := WithInfo(ps, info); var i := FirstOf(qs, 44);
      && ParametersOk(qs) && i < |qs| && qs[i].value == info.value
      && (SignatureOrdered(ps) || FirstOf(ps, SIGNATURE_INFO) == |ps| ==> SignatureOrdered(qs))
  {
    hide WellFormed;
    var empty := MakeElement(APPLICATION_PARAMETERS, []);
    MakeElementWellFormed(APPLICATION_PARAMETERS, []);
    var base := if ps == [] then [empty] else ps;
    assert ParametersOk(base);
    assert ps == [] ==> FirstOf(base, SIGNATURE_VALUE) == 1 == FirstOf(base, SIGNATURE_INFO) by {
      if ps == [] {
        FirstIs([empty], SIGNATURE_VALUE, 1);
        FirstIs([empty], SIGNATURE_INFO, 1);
      }
    }
    PlacedIs(base, info, FirstOf(base, SIGNATURE_VALUE));
    OthersMove(base, info, FirstOf(base, SIGNATURE_VALUE), SIGNATURE_VALUE);
  }

  lemma SetValueOrder(ps: seq<Element>, value: Element)
    requires ParametersOk(ps) && WellFormed(value) && value.typ == 46
    requires FirstOf(ps, 44) < |ps|
    ensures var qs := WithValue(ps, value); var i := FirstOf(qs, 46);
      && ParametersOk(qs) && i < |qs| && qs[i].value == value.value
      && FirstOf(qs, SIGNATURE_INFO) == FirstOf(ps, SIGNATURE_INFO)
      && (SignatureOrdered(ps) ==> SignatureOrdered(qs))
  {
    hide WellFormed;
    PlacedIs(ps, value, FirstOf(ps, SIGNATURE_INFO) + 1);
    OthersMove(ps, value, FirstOf(ps, SIGNATURE_INFO) + 1, SIGNATURE_INFO);
  }

  lemma ApplicationParametersOk(ps: seq<Element>, e: Element)
    requires ParametersOk(ps) && WellFormed(e) && e.typ == APPLICATION_PARAMETERS
    ensures ParametersOk(WithApplicationParameters(ps, e))
  {
    hide WellFormed;
  }

  lemma NoInfoInEmpty()
    ensures FirstOf([MakeElement(APPLICATION_PARAMETERS, [])], SIGNATURE_INFO) == 1
  {
    FirstIs([MakeElement(APPLICATION_PARAMETERS, [])], SIGNATURE_INFO, 1);
  }

  /** findFirstParameter. */
  method FindFirstParameter(ps: seq<Element>, typ: nat) returns (i: nat)
    ensures i == FirstOf(ps, typ)
  {
    i := 0;
    while i < |ps| && ps[i].typ != typ
      invariant i <= |ps| && forall j :: 0 <= j < i ==> ps[j].typ != typ
    {
      i := i + 1;
    }
    FirstIs(ps, typ, i);
  }

  lemma TwoDigests(n: Name, a: nat, b: nat)
    requires a < b < |n| && IsParametersDigest(n[a]) && IsParametersDigest(n[b])
    ensures CountDigests(n) >= 2
  {
    hide CountDigests;
    CountAround(n, a, n[a]);
    assert n[a := n[a]] == n;
    var rest := n[a + 1..];
    assert rest[b - a - 1] == n[b];
    CountAround(rest, b - a - 1, rest[b - a - 1]);
    assert rest[b - a - 1 := rest[b - a - 1]] == rest;
  }

  lemma OnlyDigest(n: Name, i: nat, j: nat)
    requires CountDigests(n) <= 1 && i < |n| && j < |n| && IsParametersDigest(n[i]) && IsParametersDigest(n[j])
    ensures i == j
  {
    hide CountDigests;
    if i < j {
      TwoDigests(n, i, j);
    } else if j < i {
      TwoDigests(n, j, i);
    }
  }

  /** The digest is right when the name's components of type 2 with 32 octets are none for no parameters, and for
      parameters just one, which is their hash. */
  lemma DigestMeans(f: Fields, hash: seq<Byte> -> Digest)
    ensures DigestValid(f, hash) <==>
      if f.parameters == [] then forall i :: 0 <= i < |f.name| ==> !(f.name[i].typ == 2 && |f.name[i].value| == 32)
      else exists i :: 0 <= i < |f.name| && IsOnlyDigest(f.name, i) && f.name[i].value == hash(Wires(f.parameters))
  {
    hide CountDigests, Wires;
    var n := f.name;
    CountMeans(n);
    if f.parameters != [] && DigestValid(f, hash) {
      var i :| 0 <= i < |n| && IsParametersDigest(n[i]) && n[i].value == hash(Wires(f.parameters));
      forall j | 0 <= j < |n| && IsParametersDigest(n[j])
        ensures j == i
      {
        OnlyDigest(n, i, j);
      }
      assert IsOnlyDigest(n, i);
    }
  }

  ghost predicate IsOnlyDigest(n: Name, i: nat) {
    && i < |n| && n[i].typ == 2 && |n[i].value| == 32
    && forall j :: 0 <= j < |n| && n[j].typ == 2 && |n[j].value| == 32 ==> j == i
  }

  lemma CountMeans(n: Name)
    ensures CountDigests(n) == 0 <==> forall i :: 0 <= i < |n| ==> !IsParametersDigest(n[i])
    ensures forall i :: 0 <= i < |n| && IsOnlyDigest(n, i) ==> CountDigests(n) == 1
  {
    hide CountDigests;
    if forall i :: 0 <= i < |n| ==> !IsParametersDigest(n[i]) {
      CountNone(n);
    } else {
      var i :| 0 <= i < |n| && IsParametersDigest(n[i]);
      CountAround(n, i, n[i]);
      assert n[i := n[i]] == n;
      if IsOnlyDigest(n, i) {
        CountNone(n[..i]);
        CountNone(n[i + 1..]);
      }
    }
  }

  /** An element changes no name, and the hint only as a ForwardingHint in its place. */
  lemma DecodeOneFrame(d: Decoding, e: Element)
    ensures DecodeOne(d, e).Ok? ==> DecodeOne(d, e).value.f.name == d.f.name && d.last <= DecodeOne(d, e).value.last
    ensures DecodeOne(d, e).Ok? && !(e.typ == FORWARDING_HINT && d.last < 4) ==>
              DecodeOne(d, e).value.f.hint == d.f.hint
    ensures !(e.typ == FORWARDING_HINT && d.last < 4) ==> Stopped(d, e) == d
  {
    hide DecodeHint, ReadNonNegativeInteger, HintSoFar;
  }

  /** The ForwardingHint case: the names of the hint, or those in front of the bad one. */
  lemma HintCase(d: Decoding, e: Element)
    requires e.typ == FORWARDING_HINT && d.last < 4 && d.f.hint == []
    ensures var (r, p) := (DecodeHint(e.value), ParseElements(e.value));
      if r.Ok? then p.error.None? && DecodeOne(d, e) == Ok(Decoding(d.f.(hint := HintSoFar(p.elements)), 4))
      else
        && DecodeOne(d, e) == Err(r.error)
        && Stopped(d, e) == d.(f := d.f.(hint := if p.error.None? then HintSoFar(p.elements) else []))
  {
    hide ParseElements, HintNames, HintSoFar;
    DecodedHintEncodable(ParseElements(e.value).elements);
  }

  function HintError(es: seq<Element>): Option<DecodeError> {
    if HintNames(es).Ok? then None else Some(HintNames(es).error)
  }

  // ---- the object ----

  datatype EncodeError = DigestMissing | DigestUnexpected | Undecodable(error: DecodeError)

  /** Parameters, where there are any, are covered by the one digest component of the name. */
  predicate DigestFollows(f: Fields, hash: seq<Byte> -> Digest) {
    f.parameters != [] ==> DigestValid(f, hash)
  }

  function Numbered(f: Fields, random: seq<Byte>): Fields {
    f.(nonce := Some(if f.nonce.Some? then f.nonce.value else random))
  }

  /** The error that encoding fields without a cached wire ends in, if any. */
  function EncodeOutcome(f: Fields, hash: seq<Byte> -> Digest, autoCheck: bool): Option<EncodeError> {
    if CountDigests(f.name) == 0 && f.parameters != [] then Some(DigestMissing)
    else if CountDigests(f.name) != 0 && f.parameters == [] then Some(DigestUnexpected)
    else if f.name == [] then Some(Undecodable(NameEmpty))
    else if autoCheck && !DigestValid(f, hash) then Some(Undecodable(DigestMismatch))
    else None
  }

  /** With the digest kept up, encoding fails only for an empty name or a digest without parameters. */
  lemma EncodeSucceedsExactly(f: Fields, hash: seq<Byte> -> Digest, autoCheck: bool)
    requires WellKept(f) && DigestFollows(f, hash)
    ensures EncodeOutcome(f, hash, autoCheck).None?
       <==> f.name != [] && (f.parameters == [] ==> CountDigests(f.name) == 0)
  {
    hide EncodableName, ParametersOk;
  }

  /** Past the first two checks, a digest that is kept up is right. */
  lemma CheckedDigestIsRight(f: Fields, hash: seq<Byte> -> Digest, autoCheck: bool)
    requires DigestFollows(f, hash)
    requires EncodeOutcome(f, hash, autoCheck) !in {Some(DigestMissing), Some(DigestUnexpected)}
    ensures DigestValid(f, hash)
  {
  }

  lemma NumberedOutcome(f: Fields, random: seq<Byte>, hash: seq<Byte> -> Digest, autoCheck: bool)
    ensures EncodeOutcome(Numbered(f, random), hash, autoCheck) == EncodeOutcome(f, hash, autoCheck)
  {
    NonceIsNotDigested(f, random, hash);
  }

  lemma NonceIsNotDigested(f: Fields, random: seq<Byte>, hash: seq<Byte> -> Digest)
    ensures DigestValid(Numbered(f, random), hash) == DigestValid(f, hash)
  {
  }

  lemma BlockIsWellFormed(e: Element, w: seq<Byte>)
    requires BlockOfSpan(w) == Ok(e) && e.wire == w
    ensures WellFormed(e)
  {
  }

  class Interest {
    const hash: seq<Byte> -> Digest
    const autoCheck: bool
    var name: Name
    var canBePrefix: bool
    var mustBeFresh: bool
    var hint: seq<Name>
    var nonce: Option<seq<Byte>>
    var lifetime: int
    var hopLimit: Option<Byte>
    var parameters: seq<Element>
    var wire: Option<Element>

    function State(): Fields
      reads this
    {
      Fields(name, canBePrefix, mustBeFresh, hint, nonce, lifetime, hopLimit, parameters)
    }

    ghost predicate Valid()
      reads this
    {
      WellKept(State())
    }

    /** A cached wire is one that decodes to the present fields. */
    ghost predicate Coherent()
      reads this
    {
      wire.Some? ==> WellFormed(wire.value) && Decode(wire.value, hash, autoCheck) == Ok(State())
    }

    ghost predicate DigestKept()
      reads this
    {
      DigestFollows(State(), hash)
    }

    /** The digest is kept up, and was right for the cached wire. */
    ghost predicate DigestHeld()
      reads this
    {
      DigestKept() && (wire.Some? ==> DigestValid(State(), hash))
    }

    /** Interest(): an empty name, as the decoding constructor and the other one start from. */
    constructor (hash: seq<Byte> -> Digest, autoCheck: bool)
      ensures this.hash == hash && this.autoCheck == autoCheck
      ensures Valid() && wire.None? && DigestKept()
      ensures State() == Fields([], false, false, [], None, DEFAULT_LIFETIME, None, [])
    {
      this.hash, this.autoCheck := hash, autoCheck;
      name, canBePrefix, mustBeFresh, hint, nonce := [], false, false, [], None;
      lifetime, hopLimit, parameters, wire := DEFAULT_LIFETIME, None, [], None;
    }

    method AddOrReplaceDigest()
      requires Valid() && parameters != []
      modifies this`name
      ensures Valid() && DigestKept()
      ensures name == WithDigest(old(name), hash(Wires(parameters)))
    {
      hide CountDigests, EncodableName, ParametersOk, Wires, DigestPosition;
      ghost var n := name;
      var digest := hash(Wires(parameters));
      var pos := FindParametersDigest(name);
      DigestSet(n, digest);
      if pos == -1 {
        assert DigestPosition(n) == |n|;
        name := name + [Component(PARAMETERS_DIGEST, digest)];
      } else {
        FirstIsUnique(n, pos);
        name := name[pos := Component(PARAMETERS_DIGEST, digest)];
      }
    }

    method SetName(n: Name) returns (ok: bool)
      requires Valid() && EncodableName(n)
      modifies this
      ensures Valid() && (old(Coherent()) ==> Coherent()) && (old(DigestKept()) ==> DigestKept())
      ensures ok <==> CountDigests(n) <= 1
      ensures State() == old(State()).(name := if !ok || n == old(name) then old(name)
                                               else if parameters == [] then n
                                               else WithDigest(n, hash(Wires(parameters))))
      ensures wire == if ok && n != old(name) then None else old(wire)
    {
      hide CountDigests, EncodableName, ParametersOk, Wires, WellFormed, Decode, DigestValid, WithDigest;
      var pos := FindParametersDigest(n);
      ok := pos != -2;
      if ok && n != name {
        name := n;
        if parameters != [] {
          AddOrReplaceDigest();
        }
        wire := None;
      }
    }

    method SetCanBePrefix(b: bool)
      requires Valid()
      modifies this
      ensures Valid() && Coherent() && (old(DigestKept()) ==> DigestKept())
      ensures State() == old(State()).(canBePrefix := b) && wire == None
    {
      hide CountDigests, EncodableName, ParametersOk;
      canBePrefix, wire := b, None;
    }

    method SetMustBeFresh(b: bool)
      requires Valid()
      modifies this
      ensures Valid() && Coherent() && (old(DigestKept()) ==> DigestKept())
      ensures State() == old(State()).(mustBeFresh := b) && wire == None
    {
      hide CountDigests, EncodableName, ParametersOk;
      mustBeFresh, wire := b, None;
    }

    method SetForwardingHint(value: seq<Name>)
      requires Valid() && forall i :: 0 <= i < |value| ==> EncodableName(value[i])
      modifies this
      ensures Valid() && Coherent() && (old(DigestKept()) ==> DigestKept())
      ensures State() == old(State()).(hint := value) && wire == None
    {
      hide CountDigests, EncodableName, ParametersOk;
      hint, wire := value, None;
    }

    method SetNonce(value: Option<seq<Byte>>)
      requires Valid() && (value.Some? ==> |value.value| == 4)
      modifies this
      ensures Valid() && (old(Coherent()) ==> Coherent()) && (old(DigestKept()) ==> DigestKept())
      ensures State() == old(State()).(nonce := value)
      ensures wire == if value != old(nonce) then None else old(wire)
    {
      hide CountDigests, EncodableName, ParametersOk, Decode, WellFormed;
      if value != nonce {
        nonce, wire := value, None;
      }
    }

    /** getNonce: an unset nonce is generated on first use; `random` is the word drawn. */
    method GetNonce(random: seq<Byte>) returns (n: seq<Byte>)
      requires Valid() && |random| == 4
      modifies this
      ensures Valid() && (old(Coherent()) ==> Coherent()) && (old(DigestKept()) ==> DigestKept())
      ensures nonce == Some(n) && |n| == 4 && n == if old(nonce).Some? then old(nonce).value else random
      ensures State() == old(State()).(nonce := Some(n))
      ensures wire == if old(nonce).None? then None else old(wire)
    {
      hide CountDigests, EncodableName, ParametersOk, Decode, WellFormed;
      if nonce.None? {
        nonce, wire := Some(random), None;
      }
      n := nonce.value;
    }

    method SetInterestLifetime(value: int) returns (ok: bool)
      requires Valid() && -TWO_63 <= value < TWO_63
      modifies this
      ensures Valid() && (old(Coherent()) ==> Coherent()) && (old(DigestKept()) ==> DigestKept())
      ensures ok <==> value >= 0
      ensures State() == old(State()).(lifetime := if ok then value else old(lifetime))
      ensures wire == if ok && value != old(lifetime) then None else old(wire)
    {
      hide CountDigests, EncodableName, ParametersOk, Decode, WellFormed;
      ok := value >= 0;
      if ok && value != lifetime {
        lifetime, wire := value, None;
      }
    }

    method SetHopLimit(value: Option<Byte>)
      requires Valid()
      modifies this
      ensures Valid() && (old(Coherent()) ==> Coherent()) && (old(DigestKept()) ==> DigestKept())
      ensures State() == old(State()).(hopLimit := value)
      ensures wire == if value != old(hopLimit) then None else old(wire)
    {
      hide CountDigests, EncodableName, ParametersOk, Decode, WellFormed;
      if value != hopLimit {
        hopLimit, wire := value, None;
      }
    }

    method SetParametersInternal(e: Element)
      requires Valid() && WellFormed(e) && e.typ == APPLICATION_PARAMETERS
      modifies this
      ensures Valid() && wire == None && DigestKept()
      ensures var ps := WithApplicationParameters(old(parameters), e);
        State() == old(State()).(parameters := ps, name := WithDigest(old(name), hash(Wires(ps))))
    {
      hide CountDigests, EncodableName, ParametersOk, Wires, WellFormed, DigestValid, WithDigest;
      ApplicationParametersOk(parameters, e);
      if parameters == [] {
        parameters := [e];
      } else {
        parameters := parameters[0 := e];
      }
      AddOrReplaceDigest();
      wire := None;
    }

    /** setApplicationParameters(Block): an ApplicationParameters element as it is, any other one nested. */
    method SetApplicationParameters(block: Option<Element>) returns (ok: bool)
      requires Valid() && (block.Some? ==> WellFormed(block.value) && |block.value.wire| < TWO_64)
      modifies this
      ensures Valid() && (ok <==> block.Some?)
      ensures !ok ==> State() == old(State()) && wire == old(wire)
      ensures ok ==> wire == None && DigestKept()
      ensures ok ==>
        var e := if block.value.typ == APPLICATION_PARAMETERS then block.value
                 else MakeElement(APPLICATION_PARAMETERS, block.value.wire);
        var ps := WithApplicationParameters(old(parameters), e);
        State() == old(State()).(parameters := ps, name := WithDigest(old(name), hash(Wires(ps))))
    {
      hide CountDigests, EncodableName, ParametersOk, Wires, WellFormed, DigestValid, WithDigest, WireOf;
      ok := block.Some?;
      if ok {
        if block.value.typ == APPLICATION_PARAMETERS {
          SetParametersInternal(block.value);
        } else {
          MakeElementWellFormed(APPLICATION_PARAMETERS, block.value.wire);
          SetParametersInternal(MakeElement(APPLICATION_PARAMETERS, block.value.wire));
        }
      }
    }

    method UnsetApplicationParameters()
      requires Valid()
      modifies this
      ensures Valid() && Coherent() && wire == None && DigestValid(State(), hash)
      ensures State() == old(State()).(parameters := [], name := WithoutDigest(old(name)))
    {
      hide CountDigests, EncodableName, Wires, WellFormed, DigestPosition;
      ghost var n := name;
      parameters := [];
      DigestUnset(n, hash([]));
      var pos := FindParametersDigest(name);
      assert pos == (if DigestPosition(n) < |n| then DigestPosition(n) else -1) by {
        if pos >= 0 {
          FirstIsUnique(n, pos);
        } else {
          assert DigestPosition(n) == |n|;
        }
      }
      hide WithoutDigest;
      if pos >= 0 {
        WithoutIs(n);
        name := name[..pos] + name[pos + 1..];
      } else {
        WithoutIs(n);
      }
      wire := None;
    }

    method SetSignatureInfo(info: Element)
      requires Valid() && WellFormed(info) && info.typ == SIGNATURE_INFO
      modifies this
      ensures Valid() && (old(Coherent()) ==> Coherent()) && (old(DigestKept()) ==> DigestKept())
      ensures var ps := WithInfo(old(parameters), info);
        && State() == (if ps == old(parameters) then old(State())
                       else old(State()).(parameters := ps, name := WithDigest(old(name), hash(Wires(ps)))))
        && wire == (if ps == old(parameters) then old(wire) else None)
    {
      hide CountDigests, EncodableName, ParametersOk, Wires, WellFormed, DigestValid, WithDigest, WireOf, FirstOf,
        Decode;
      ghost var ps := parameters;
      SetInfoOrder(ps, info);
      if parameters == [] {
        parameters := [MakeElement(APPLICATION_PARAMETERS, [])];
      }
      var i := FindFirstParameter(parameters, SIGNATURE_INFO);
      if i < |parameters| {
        if SameBlock(parameters[i], info) {
          assert ps != [] by {
            NoInfoInEmpty();
          }
          return;
        }
        parameters := parameters[i := info];
      } else {
        var j := FindFirstParameter(parameters, SIGNATURE_VALUE);
        parameters := parameters[..j] + [info] + parameters[j..];
      }
      AddOrReplaceDigest();
      wire := None;
    }

    /** setSignatureValue; without an InterestSignatureInfo it is refused. */
    method SetSignatureValue(value: seq<Byte>) returns (ok: bool)
      requires Valid() && |value| < TWO_64
      modifies this
      ensures Valid() && (old(Coherent()) ==> Coherent()) && (old(DigestKept()) ==> DigestKept())
      ensures ok <==> FirstOf(old(parameters), SIGNATURE_INFO) < |old(parameters)|
      ensures !ok ==> State() == old(State()) && wire == old(wire)
      ensures ok ==>
        var ps := WithValue(old(parameters), MakeElement(SIGNATURE_VALUE, value));
        && State() == (if ps == old(parameters) then old(State())
                       else old(State()).(parameters := ps, name := WithDigest(old(name), hash(Wires(ps)))))
        && wire == (if ps == old(parameters) then old(wire) else None)
    {
      hide CountDigests, EncodableName, ParametersOk, Wires, WellFormed, DigestValid, WithDigest, WireOf, FirstOf,
        Decode;
      var i := FindFirstParameter(parameters, SIGNATURE_INFO);
      ok := i < |parameters|;
      if !ok {
        return;
      }
      var block := MakeElement(SIGNATURE_VALUE, value);
      MakeElementWellFormed(SIGNATURE_VALUE, value);
      SetValueOrder(parameters, block);
      var j := FindFirstParameter(parameters, SIGNATURE_VALUE);
      if j < |parameters| {
        if SameBlock(parameters[j], block) {
          return;
        }
        parameters := parameters[j := block];
      } else {
        parameters := parameters[..i + 1] + [block] + parameters[i + 1..];
      }
      AddOrReplaceDigest();
      wire := None;
    }

    method IsParametersDigestValid() returns (b: bool)
      requires CountDigests(name) <= 1
      ensures b == DigestValid(State(), hash)
    {
      hide CountDigests, EncodableName, ParametersOk, Wires;
      var pos := FindParametersDigest(name);
      if pos == -1 {
        return parameters == [];
      }
      if parameters == [] {
        return false;
      }
      b := name[pos].value == hash(Wires(parameters));
      if HasDigest(name, hash(Wires(parameters))) {
        var i :| 0 <= i < |name| && IsParametersDigest(name[i]) && name[i].value == hash(Wires(parameters));
        OnlyDigest(name, i, pos);
      }
    }

    /** The ForwardingHint case of wireDecode: names are appended one by one to the cleared hint, and those in
        front of a bad one stay there. */
    method DecodeForwardingHint(value: seq<Byte>) returns (error: Option<DecodeError>)
      requires hint == []
      modifies this`hint
      ensures var r := DecodeHint(value); error == if r.Ok? then None else Some(r.error)
      ensures var p := ParseElements(value); hint == if p.error.None? then HintSoFar(p.elements) else []
    {
      hide ParseElements, HintName;
      var p := ParseElements(value);
      if p.error.Some? {
        return Some(Malformed(p.error.value));
      }
      var es := p.elements;
      assert es[0..] == es && [] + HintSoFar(es) == HintSoFar(es);
      for i := 0 to |es|
        invariant HintSoFar(es) == hint + HintSoFar(es[i..])
        invariant HintError(es) == HintError(es[i..])
      {
        assert es[i..][0] == es[i] && es[i..][1..] == es[i + 1..];
        match HintName(es[i]) {
          case Err(e) =>
            return Some(e);
          case Ok(None) =>
          case Ok(Some(n)) =>
            assert hint + ([n] + HintSoFar(es[i + 1..])) == hint + [n] + HintSoFar(es[i + 1..]);
            hint := hint + [n];
        }
      }
      error := None;
    }

    /** The loop of wireDecode over the elements after the name. */
    method DecodeElements(es: seq<Element>) returns (error: Option<DecodeError>)
      requires hint == []
      modifies this
      ensures wire == old(wire) && name == old(name)
      ensures State() == Progress(Decoding(old(State()), 1), es).f
      ensures var r := DecodeRest(Decoding(old(State()), 1), es); error == if r.Ok? then None else Some(r.error)
    {
      hide DecodeOne, HintSoFar, DecodeHint;
      var last := 1;
      ghost var start := Decoding(State(), 1);
      assert es[0..] == es;
      for i := 0 to |es|
        invariant wire == old(wire) && name == old(name) && (last < 4 ==> hint == [])
        invariant DecodeRest(start, es) == DecodeRest(Decoding(State(), last), es[i..])
        invariant Progress(start, es) == Progress(Decoding(State(), last), es[i..])
      {
        assert es[i..][0] == es[i] && es[i..][1..] == es[i + 1..];
        ghost var d := Decoding(State(), last);
        DecodeOneFrame(d, es[i]);
        if es[i].typ == FORWARDING_HINT && last < 4 {
          HintCase(d, es[i]);
          error := DecodeForwardingHint(es[i].value);
          if error.Some? {
            return;
          }
          last := 4;
        } else {
          match DecodeOne(Decoding(State(), last), es[i])
          case Err(e) =>
            return Some(e);
          case Ok(d) =>
            last := d.last;
            canBePrefix, mustBeFresh, nonce := d.f.canBePrefix, d.f.mustBeFresh, d.f.nonce;
            lifetime, hopLimit, parameters := d.f.lifetime, d.f.hopLimit, d.f.parameters;
        }
      }
      error := None;
    }

    /** wireDecode. The wire is stored before it is looked at, so a rejected Interest packet stays
        behind as the cached wire of fields it does not encode. */
    method WireDecode(e: Element) returns (error: Option<DecodeError>)
      requires Valid() && WellFormed(e)
      modifies this
      ensures Valid() && State() == AfterDecode(old(State()), e)
      ensures var r := Decode(e, hash, autoCheck); error == if r.Ok? then None else Some(r.error)
      ensures wire == if e.typ == INTEREST then Some(e) else old(wire)
      ensures error.None? ==> Coherent() && name != [] && (autoCheck ==> DigestHeld())
      ensures e.typ == INTEREST && error.Some? ==> !Coherent()
    {
      hide ParseElements, DecodeName, DecodeRest, Progress, EncodableName, CountDigests, DigestValid, WellFormed;
      ghost var f := State();
      AfterDecodeKeeps(f, e);
      if Decode(e, hash, autoCheck).Ok? {
        DecodeEstablishes(f, e, hash, autoCheck);
      }
      error := DecodeInto(e);
    }

    method DecodeInto(e: Element) returns (error: Option<DecodeError>)
      modifies this
      ensures State() == AfterDecode(old(State()), e)
      ensures var r := Decode(e, hash, autoCheck); error == if r.Ok? then None else Some(r.error)
      ensures wire == if e.typ == INTEREST then Some(e) else old(wire)
    {
      hide ParseElements, DecodeName, DecodeRest, Progress, EncodableName, CountDigests, DigestValid, WellFormed;
      if e.typ != INTEREST {
        return Some(NotInterest);
      }
      wire := Some(e);
      var p := ParseElements(e.value);
      if p.error.Some? {
        return Some(Malformed(p.error.value));
      }
      if p.elements == [] || p.elements[0].typ != NAME {
        return Some(NameMissing);
      }
      var temp := DecodeName(p.elements[0].value);
      if temp.Err? {
        return Some(Malformed(temp.error));
      }
      if temp.value == [] {
        return Some(NameEmpty);
      }
      var pos := FindParametersDigest(temp.value);
      if pos == -2 {
        return Some(ManyDigests);
      }
      name, canBePrefix, mustBeFresh, hint := temp.value, false, false, [];
      nonce, lifetime, hopLimit, parameters := None, DEFAULT_LIFETIME, None, [];
      ghost var start := Decoding(State(), 1);
      error := DecodeElements(p.elements[1..]);
      ProgressOfAccepted(start, p.elements[1..]);
      if error.None? && autoCheck {
        var valid := IsParametersDigestValid();
        if !valid {
          return Some(DigestMismatch);
        }
      }
    }

    /** The checks at the start of wireEncode(encoder). */
    method CheckDigest() returns (error: Option<EncodeError>)
      requires Valid()
      ensures error == if CountDigests(name) == 0 && parameters != [] then Some(DigestMissing)
                       else if CountDigests(name) != 0 && parameters == [] then Some(DigestUnexpected)
                       else None
    {
      hide CountDigests, EncodableName, ParametersOk;
      var pos := FindParametersDigest(name);
      if pos == -1 {
        return if parameters != [] then Some(DigestMissing) else None;
      } else {
        return if parameters == [] then Some(DigestUnexpected) else None;
      }
    }

    /** wireEncode() without a cached wire: encode, then decode what was encoded. */
    method EncodeAnew(random: seq<Byte>) returns (r: Result<Element, EncodeError>)
      requires Valid() && |random| == 4 && wire.None?
      requires |Wires(ElementsOf(Numbered(State(), random), Numbered(State(), random).nonce.value))| < TWO_64
      modifies this
      ensures var (f, g) := (old(State()), Numbered(old(State()), random));
        var error := EncodeOutcome(g, hash, autoCheck);
        && r == (if error.Some? then Err(error.value)
                 else Ok(MakeElement(INTEREST, Wires(ElementsOf(g, g.nonce.value)))))
        && State() == (if error in {Some(DigestMissing), Some(DigestUnexpected)} then f else g)
        && wire == (if error in {Some(DigestMissing), Some(DigestUnexpected)} then None
                    else Some(MakeElement(INTEREST, Wires(ElementsOf(g, g.nonce.value)))))
      ensures Valid() && (r.Ok? ==> Coherent() && name != [])
    {
      hide CountDigests, EncodableName, ParametersOk, Wires, WireOf, ElementsOf, Decode, AfterDecode, WellFormed,
        DigestValid, BlockOfSpan;
      var error := CheckDigest();
      if error.Some? {
        return Err(error.value);
      }
      var n := GetNonce(random);
      var f := State();
      var enc := new Encoder(|WireOfInterest(f, n)|, 0);
      var length := WriteInterest(enc, f, n);
      InterestRoundTrip(f, hash, autoCheck);
      assert enc.buffer[enc.begin..enc.end] == WireOfInterest(f, n);
      var block := BlockOfSpan(enc.buffer[enc.begin..enc.end]).value;
      BlockIsWellFormed(block, WireOfInterest(f, n));
      var failure := WireDecode(block);
      r := if failure.Some? then Err(Undecodable(failure.value)) else Ok(block);
    }

    /** wireEncode(). */
    method WireEncode(random: seq<Byte>) returns (r: Result<Element, EncodeError>)
      requires Valid() && |random| == 4
      requires wire.None? ==>
        |Wires(ElementsOf(Numbered(State(), random), Numbered(State(), random).nonce.value))| < TWO_64
      modifies this
      ensures old(wire).Some? ==> r == Ok(old(wire).value) && State() == old(State()) && wire == old(wire)
      ensures old(wire).None? ==>
        var g := Numbered(old(State()), random);
        var error := EncodeOutcome(g, hash, autoCheck);
        && r == (if error.Some? then Err(error.value)
                 else Ok(MakeElement(INTEREST, Wires(ElementsOf(g, g.nonce.value)))))
      ensures Valid() && (old(DigestKept()) ==> DigestKept()) && (old(DigestHeld()) ==> DigestHeld())
      ensures old(Coherent()) && r.Ok? ==> Coherent() && wire == Some(r.value)
      ensures r.Ok? ==> wire == Some(r.value)
      ensures State() == if old(wire).Some? || EncodeOutcome(old(State()), hash, autoCheck)
                                               in {Some(DigestMissing), Some(DigestUnexpected)}
                         then old(State())
                         else Numbered(old(State()), random)
      ensures old(wire).None? ==>
        var g := Numbered(old(State()), random);
        wire == if r.Err? && !r.error.Undecodable? then None
                else Some(MakeElement(INTEREST, Wires(ElementsOf(g, g.nonce.value))))
      ensures old(Coherent()) ==> (Coherent() <==> !(r.Err? && r.error.Undecodable?))
    {
      hide CountDigests, EncodableName, ParametersOk, Wires, WireOf, ElementsOf, Decode, WellFormed, DigestValid;
      if wire.Some? {
        return Ok(wire.value);
      }
      ghost var g := Numbered(State(), random);
      r := EncodeAnew(random);
      if r.Err? && r.error.Undecodable? {
        InterestRoundTrip(g, hash, autoCheck);
      }
      NonceIsNotDigested(old(State()), random, hash);
      if wire.Some? && DigestFollows(g, hash) {
        CheckedDigestIsRight(g, hash, autoCheck);
      }
    }
  }

  // ---- runs ----

  datatype Operation =
    | OpName(name: Name)
    | OpCanBePrefix(b: bool)
    | OpMustBeFresh(b: bool)
    | OpHint(hint: seq<Name>)
    | OpNonce(nonce: Option<seq<Byte>>)
    | OpGetNonce(random: seq<Byte>)
    | OpLifetime(lifetime: int)
    | OpHopLimit(hopLimit: Option<Byte>)
    | OpParameters(block: Option<Element>)
    | OpUnsetParameters
    | OpSignatureInfo(info: Element)
    | OpSignatureValue(value: seq<Byte>)
    | OpDecode(packet: Element)
    | OpEncode(random: seq<Byte>)

  /** Arguments of the types the operations take. */
  predicate Legal(op: Operation) {
    match op
    case OpName(n) => EncodableName(n)
    case OpHint(hint) => forall i :: 0 <= i < |hint| ==> EncodableName(hint[i])
    case OpNonce(n) => n.Some? ==> |n.value| == 4
    case OpGetNonce(r) => |r| == 4
    case OpLifetime(l) => -TWO_63 <= l < TWO_63
    case OpParameters(block) => block.Some? ==> WellFormed(block.value) && |block.value.wire| < TWO_64
    case OpSignatureInfo(info) => WellFormed(info) && info.typ == SIGNATURE_INFO
    case OpSignatureValue(value) => |value| < TWO_64
    case OpDecode(e) => WellFormed(e)
    case OpEncode(r) => |r| == 4
    case _ => true
  }

  /** Encoding memory is smaller than 2^64 octets. */
  predicate Fits(f: Fields, random: seq<Byte>) {
    |Wires(ElementsOf(Numbered(f, random), Numbered(f, random).nonce.value))| < TWO_64
  }

  /** Setting or unsetting parameters makes the digest right, whatever it was. */
  predicate Renews(op: Operation) {
    op.OpUnsetParameters? || (op.OpParameters? && op.block.Some?)
  }

  /** What an operation showed: whether a packet was rejected, what wireEncode returned, and the fields after it. */
  datatype Step = Step(rejected: bool, packet: Option<Element>, fields: Fields)

  /** A packet is rejected only by decoding, where it is not acceptable, and by encoding fields that have no name or
      a wrong digest. Encoding returns a packet unless there is an error in the fields. */
  predicate Told(op: Operation, s: Step, hash: seq<Byte> -> Digest, autoCheck: bool) {
    match op
    case OpDecode(e) => s.packet.None? && (s.rejected <==> Decode(e, hash, autoCheck).Err?)
    case OpEncode(random) =>
      var error := EncodeOutcome(s.fields, hash, autoCheck);
      && (s.rejected ==> s.packet.None? && error.Some? && error.value.Undecodable?)
      && (s.packet.None? ==> error.Some? || !Fits(s.fields, random))
    case _ => !s.rejected && s.packet.None?
  }

  /** One operation. `undecoded` says that a packet was rejected in the course of it; `packet` is what
      wireEncode returned. */
  method Perform(i: Interest, op: Operation) returns (undecoded: bool, packet: Option<Element>)
    requires i.Valid() && Legal(op)
    modifies i
    ensures i.Valid()
    ensures old(i.Coherent()) && !undecoded ==> i.Coherent() && (packet.Some? ==> i.wire == packet)
    ensures old(i.DigestHeld()) && !op.OpDecode? ==> i.DigestHeld()
    ensures op.OpDecode? && !undecoded && i.autoCheck ==> i.DigestHeld()
    ensures Renews(op) ==> i.DigestHeld()
    ensures packet.Some? ==> i.wire == packet
    ensures Told(op, Step(undecoded, packet, i.State()), i.hash, i.autoCheck)
  {
    hide CountDigests, EncodableName, ParametersOk, Wires, WireOf, ElementsOf, Decode, WellFormed, DigestValid,
      WithDigest, WithoutDigest, WithInfo, WithValue, AfterDecode, FirstOf, WithApplicationParameters,
      WellKept, EncodeOutcome, MakeElement;
    undecoded, packet := false, None;
    match op
    case OpName(n) => var _ := i.SetName(n);
    case OpCanBePrefix(b) => i.SetCanBePrefix(b);
    case OpMustBeFresh(b) => i.SetMustBeFresh(b);
    case OpHint(hint) => i.SetForwardingHint(hint);
    case OpNonce(n) => i.SetNonce(n);
    case OpGetNonce(r) => var _ := i.GetNonce(r);
    case OpLifetime(l) => var _ := i.SetInterestLifetime(l);
    case OpHopLimit(h) => i.SetHopLimit(h);
    case OpParameters(block) => var _ := i.SetApplicationParameters(block);
    case OpUnsetParameters => i.UnsetApplicationParameters();
    case OpSignatureInfo(info) => i.SetSignatureInfo(info);
    case OpSignatureValue(value) => var _ := i.SetSignatureValue(value);
    case OpDecode(e) =>
      var error := i.WireDecode(e);
      undecoded := error.Some?;
    case OpEncode(random) =>
      NumberedOutcome(i.State(), random, i.hash, i.autoCheck);
      if Fits(i.State(), random) {
        var r := i.WireEncode(random);
        undecoded := r.Err? && r.error.Undecodable?;
        packet := if r.Ok? then Some(r.value) else None;
      }
  }

  predicate NoDecoding(ops: seq<Operation>, from: nat) {
    forall j :: from <= j < |ops| ==> !ops[j].OpDecode?
  }

  ghost predicate NoneRejected(steps: seq<Step>) {
    forall k :: 0 <= k < |steps| ==> !steps[k].rejected
  }

  ghost predicate PacketsDecode(steps: seq<Step>, hash: seq<Byte> -> Digest, autoCheck: bool) {
    forall k :: 0 <= k < |steps| && steps[k].packet.Some? ==>
      WellFormed(steps[k].packet.value) && Decode(steps[k].packet.value, hash, autoCheck) == Ok(steps[k].fields)
  }

  ghost predicate DigestsRight(steps: seq<Step>, hash: seq<Byte> -> Digest) {
    forall k :: 0 <= k < |steps| && steps[k].packet.Some? ==> DigestValid(steps[k].fields, hash)
  }

  /** Any run of operations on a new Interest. While no packet was rejected, every packet that wireEncode
      returned decodes to the fields of that moment. The parameters are covered by the one digest component
      (`kept`) from the start, through every operation but a decoding, whether or not digests are checked and
      whatever was refused, and again from any checked decoding that succeeds and from any setting or unsetting
      of the parameters: from the last such point on no decoding may follow. */
  method Run(hash: seq<Byte> -> Digest, autoCheck: bool, ops: seq<Operation>)
      returns (i: Interest, kept: bool, steps: seq<Step>)
    requires forall k :: 0 <= k < |ops| ==> Legal(ops[k])
    ensures fresh(i) && i.hash == hash && i.autoCheck == autoCheck && i.Valid()
    ensures |steps| == |ops| && forall k :: 0 <= k < |ops| ==> Told(ops[k], steps[k], hash, autoCheck)
    ensures NoneRejected(steps) ==> i.Coherent() && PacketsDecode(steps, hash, autoCheck)
    ensures kept ==> i.DigestKept()
    ensures (exists n :: 0 <= n < |ops| && Renews(ops[n]) && NoDecoding(ops, n)) ==> kept
    ensures NoDecoding(ops, 0) || (autoCheck && NoneRejected(steps)) ==> kept && DigestsRight(steps, hash)
  {
    hide Decode, WellFormed, DigestValid, WellKept, Legal, Told;
    i := new Interest(hash, autoCheck);
    kept, steps := true, [];
    for k := 0 to |ops|
      invariant fresh(i) && i.hash == hash && i.autoCheck == autoCheck && i.Valid()
      invariant |steps| == k && forall j :: 0 <= j < k ==> Told(ops[j], steps[j], hash, autoCheck)
      invariant NoneRejected(steps) ==> i.Coherent() && PacketsDecode(steps, hash, autoCheck)
      invariant kept ==> i.DigestHeld()
      invariant forall n :: 0 <= n < k && Renews(ops[n]) && NoDecoding(ops[..k], n) ==> kept
      invariant NoDecoding(ops[..k], 0) || (autoCheck && NoneRejected(steps)) ==> kept && DigestsRight(steps, hash)
    {
      assert NoDecoding(ops[..k + 1], 0) ==> NoDecoding(ops[..k], 0) by {
        assert forall j :: 0 <= j < k ==> ops[..k + 1][j] == ops[..k][j];
      }
      var bad, packet := Perform(i, ops[k]);
      if ops[k].OpDecode? {
        kept := autoCheck && !bad;
      } else if Renews(ops[k]) {
        kept := true;
      }
      ghost var before := steps;
      steps := steps + [Step(bad, packet, i.State())];
      assert NoneRejected(steps) <==> NoneRejected(before) && !bad by {
        assert steps[k].rejected == bad && forall j :: 0 <= j < k ==> steps[j] == before[j];
      }
    }
    assert ops[..|ops|] == ops;
  }

  /** An Interest without a name is refused by wireEncode once; the packet that was refused is then
      cached, and the next call returns it although it cannot be decoded. */
  method EncodeTwice(i: Interest, random: seq<Byte>)
      returns (first: Result<Element, EncodeError>, second: Result<Element, EncodeError>)
    requires i.Valid() && i.wire.None? && i.name == [] && i.parameters == [] && |random| == 4 && Fits(i.State(), random)
    modifies i
    ensures first == Err(Undecodable(NameEmpty))
    ensures second.Ok? && Decode(second.value, i.hash, i.autoCheck) == Err(NameEmpty)
  {
    hide ParametersOk, Wires, WireOf, ElementsOf, Decode, WellFormed, DigestValid;
    first := i.WireEncode(random);
    InterestRoundTrip(i.State(), i.hash, i.autoCheck);
    second := i.WireEncode(random);
  }
}
