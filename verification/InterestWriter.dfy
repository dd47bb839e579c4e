/** Writing an Interest into an encoder, from the last element to the first. */
module InterestWriter {
  import opened Bytes
  import opened Tlv
  import opened Encoding
  import opened Names
  import opened InterestCodec

  /** prependBinaryBlock. */
  method PrependBinaryBlock(enc: Encoder, typ: nat, value: seq<Byte>) returns (length: nat)
    requires enc.Valid() && typ < TWO_64 && |value| < TWO_64
    modifies enc, enc.buffer
    ensures enc.Valid() && (enc.buffer == old(enc.buffer) || fresh(enc.buffer))
    ensures enc.Contents() == WireOf(typ, value) + old(enc.Contents()) && length == |WireOf(typ, value)|
  {
    hide EncodeVarNumber;
    ghost var c := enc.Contents();
    length := enc.PrependRange(value);
    var l := enc.PrependVarNumber(length);
    var t := enc.PrependVarNumber(typ);
    length := length + l + t;
    HeaderThenRest(EncodeVarNumber(typ), EncodeVarNumber(|value|), value, c);
  }

  lemma HeaderThenRest(t: seq<Byte>, l: seq<Byte>, v: seq<Byte>, c: seq<Byte>)
    ensures t + (l + (v + c)) == (t + l + v) + c
  {
  }

  /** prependBlock for each of a list of encoded elements, from the last. */
  method PrependBlocks(enc: Encoder, es: seq<Element>) returns (length: nat)
    requires enc.Valid()
    modifies enc, enc.buffer
    ensures enc.Valid() && (enc.buffer == old(enc.buffer) || fresh(enc.buffer))
    ensures enc.Contents() == Wires(es) + old(enc.Contents()) && length == |Wires(es)|
  {
    length := 0;
    ghost var c := enc.Contents();
    assert es[|es|..] == [] && [] + c == c;
    for i := |es| downto 0
      invariant enc.Valid() && (enc.buffer == old(enc.buffer) || fresh(enc.buffer))
      invariant enc.Contents() == Wires(es[i..]) + c && length == |Wires(es[i..])|
    {
      var l := enc.PrependRange(es[i].wire);
      length := length + l;
      assert es[i..][0] == es[i] && es[i..][1..] == es[i + 1..];
      Associative(es[i].wire, Wires(es[i + 1..]), c);
    }
    assert es[0..] == es;
  }

  /** The elements `es` written one by one as type and value, from the last. */
  method PrependMade(enc: Encoder, tvs: seq<(nat, seq<Byte>)>) returns (length: nat)
    requires enc.Valid() && forall i :: 0 <= i < |tvs| ==> tvs[i].0 < TWO_64 && |tvs[i].1| < TWO_64
    modifies enc, enc.buffer
    ensures enc.Valid() && (enc.buffer == old(enc.buffer) || fresh(enc.buffer))
    ensures enc.Contents() == Wires(MakeElements(tvs)) + old(enc.Contents()) && length == |Wires(MakeElements(tvs))|
  {
    hide WireOf;
    length := 0;
    ghost var (c, es) := (enc.Contents(), MakeElements(tvs));
    assert es[|es|..] == [] && [] + c == c;
    for i := |tvs| downto 0
      invariant enc.Valid() && (enc.buffer == old(enc.buffer) || fresh(enc.buffer))
      invariant enc.Contents() == Wires(es[i..]) + c && length == |Wires(es[i..])|
    {
      var l := PrependBinaryBlock(enc, tvs[i].0, tvs[i].1);
      length := length + l;
      assert es[i..][0] == es[i] && es[i..][1..] == es[i + 1..];
      Associative(es[i].wire, Wires(es[i + 1..]), c);
    }
    assert es[0..] == es;
  }

  /** Close a nested element: the octets written since `inner` octets ago become its value. */
  method PrependHeader(enc: Encoder, typ: nat, ghost value: seq<Byte>, ghost rest: seq<Byte>, inner: nat)
      returns (length: nat)
    requires enc.Valid() && enc.Contents() == value + rest && inner == |value| < TWO_64 && typ < TWO_64
    modifies enc, enc.buffer
    ensures enc.Valid() && (enc.buffer == old(enc.buffer) || fresh(enc.buffer))
    ensures enc.Contents() == WireOf(typ, value) + rest && length == |WireOf(typ, value)|
  {
    hide EncodeVarNumber;
    var l := enc.PrependVarNumber(inner);
    var t := enc.PrependVarNumber(typ);
    length := inner + l + t;
    HeaderThenRest(EncodeVarNumber(typ), EncodeVarNumber(|value|), value, rest);
  }

  function Pairs(n: Name): (r: seq<(nat, seq<Byte>)>)
    ensures |r| == |n| && forall i :: 0 <= i < |n| ==> r[i] == (n[i].typ, n[i].value)
  {
    seq(|n|, i requires 0 <= i < |n| => (n[i].typ, n[i].value))
  }

  lemma NameIsMade(n: Name)
    ensures MakeElements(Pairs(n)) == NameElements(n)
  {
  }

  /** Name::wireEncode. */
  method PrependName(enc: Encoder, n: Name) returns (length: nat)
    requires enc.Valid() && EncodableName(n) && |NameValue(n)| < TWO_64
    modifies enc, enc.buffer
    ensures enc.Valid() && (enc.buffer == old(enc.buffer) || fresh(enc.buffer))
    ensures enc.Contents() == WireOf(NAME, NameValue(n)) + old(enc.Contents())
    ensures length == |WireOf(NAME, NameValue(n))|
  {
    hide WireOf, Wires;
    NameIsMade(n);
    ComponentsFit(n);
    ghost var c := enc.Contents();
    length := PrependMade(enc, Pairs(n));
    length := PrependHeader(enc, NAME, NameValue(n), c, length);
  }

  lemma ComponentsFit(n: Name)
    requires EncodableName(n) && |NameValue(n)| < TWO_64
    ensures forall i :: 0 <= i < |n| ==> n[i].typ < TWO_64 && |n[i].value| < TWO_64
  {
    hide Wires;
    forall i | 0 <= i < |n|
      ensures |n[i].value| < TWO_64
    {
      MemberFits(NameElements(n), i);
    }
  }

  method PrependHint(enc: Encoder, hint: seq<Name>) returns (length: nat)
    requires enc.Valid() && (forall i :: 0 <= i < |hint| ==> EncodableName(hint[i]))
    requires |Wires(HintElements(hint))| < TWO_64
    modifies enc, enc.buffer
    ensures enc.Valid() && (enc.buffer == old(enc.buffer) || fresh(enc.buffer))
    ensures enc.Contents() == WireOf(FORWARDING_HINT, Wires(HintElements(hint))) + old(enc.Contents())
    ensures length == |WireOf(FORWARDING_HINT, Wires(HintElements(hint)))|
  {
    hide WireOf, EncodableName, NameValue;
    length := 0;
    ghost var (c, es) := (enc.Contents(), HintElements(hint));
    assert es[|es|..] == [] && [] + c == c;
    for i := |hint| downto 0
      invariant enc.Valid() && (enc.buffer == old(enc.buffer) || fresh(enc.buffer))
      invariant enc.Contents() == Wires(es[i..]) + c && length == |Wires(es[i..])|
    {
      MemberFits(es, i);
      NameFitsElement(hint[i]);
      var l := PrependName(enc, hint[i]);
      length := length + l;
      assert es[i..][0] == es[i] && es[i..][1..] == es[i + 1..];
      Associative(es[i].wire, Wires(es[i + 1..]), c);
    }
    assert es[0..] == es;
    length := PrependHeader(enc, FORWARDING_HINT, Wires(es), c, length);
  }

  lemma NameFitsElement(n: Name)
    ensures |NameValue(n)| <= |MakeElement(NAME, NameValue(n)).wire|
  {
  }

  lemma WiresOpt(present: bool, e: Element, rest: seq<Element>, c: seq<Byte>)
    ensures Wires(Opt(present, e) + rest) == (if present then e.wire else []) + Wires(rest)
    ensures Wires(Opt(present, e) + rest) + c == (if present then e.wire else []) + (Wires(rest) + c)
  {
    if present {
      assert ([e] + rest)[1..] == rest;
      Associative(e.wire, Wires(rest), c);
    } else {
      assert [] + rest == rest && [] + Wires(rest) == Wires(rest) && [] + (Wires(rest) + c) == Wires(rest) + c;
    }
  }

  /** One optional element in front of the elements written so far. */
  method PrependOptional(enc: Encoder, present: bool, typ: nat, value: seq<Byte>,
                         ghost rest: seq<Element>, ghost c: seq<Byte>) returns (length: nat)
    requires enc.Valid() && typ < TWO_64 && |value| < TWO_64 && enc.Contents() == Wires(rest) + c
    modifies enc, enc.buffer
    ensures enc.Valid() && (enc.buffer == old(enc.buffer) || fresh(enc.buffer))
    ensures enc.Contents() == Wires(Opt(present, MakeElement(typ, value)) + rest) + c
    ensures length == |Wires(Opt(present, MakeElement(typ, value)) + rest)| - |Wires(rest)|
  {
    hide WireOf, Wires;
    WiresOpt(present, MakeElement(typ, value), rest, c);
    length := 0;
    if present {
      length := PrependBinaryBlock(enc, typ, value);
    }
  }

  /** Nonce and what follows it. */
  function LaterElements(f: Fields, nonce: seq<Byte>): seq<Element> {
    Opt(true, MakeElement(NONCE, nonce))
    + (Opt(f.lifetime != DEFAULT_LIFETIME,
           MakeElement(INTEREST_LIFETIME, EncodeNonNegativeInteger(ToUint64(f.lifetime))))
    + (Opt(f.hopLimit.Some?, MakeElement(HOP_LIMIT, if f.hopLimit.Some? then [f.hopLimit.value] else []))
    + f.parameters))
  }

  method WriteLater(enc: Encoder, f: Fields, nonce: seq<Byte>) returns (length: nat)
    requires enc.Valid() && |nonce| == 4
    modifies enc, enc.buffer
    ensures enc.Valid() && (enc.buffer == old(enc.buffer) || fresh(enc.buffer))
    ensures enc.Contents() == Wires(LaterElements(f, nonce)) + old(enc.Contents())
    ensures length == |Wires(LaterElements(f, nonce))|
  {
    hide WireOf, Wires, Opt, MakeElement;
    ghost var c := enc.Contents();
    length := PrependBlocks(enc, f.parameters);
    var hops := if f.hopLimit.Some? then [f.hopLimit.value] else [];
    var l6 := PrependOptional(enc, f.hopLimit.Some?, HOP_LIMIT, hops, f.parameters, c);
    ghost var s6 := Opt(f.hopLimit.Some?, MakeElement(HOP_LIMIT, hops)) + f.parameters;
    var number := EncodeNonNegativeInteger(ToUint64(f.lifetime));
    var l5 := PrependOptional(enc, f.lifetime != DEFAULT_LIFETIME, INTEREST_LIFETIME, number, s6, c);
    ghost var s5 := Opt(f.lifetime != DEFAULT_LIFETIME, MakeElement(INTEREST_LIFETIME, number)) + s6;
    var l4 := PrependOptional(enc, true, NONCE, nonce, s5, c);
    length := length + l6 + l5 + l4;
  }

  /** Interest::wireEncode(encoder), past its checks of the digest: all elements from the last to the
      first, then the header. */
  method WriteInterest(enc: Encoder, f: Fields, nonce: seq<Byte>) returns (length: nat)
    requires enc.Valid() && WellKept(f) && |nonce| == 4 && |Wires(ElementsOf(f, nonce))| < TWO_64
    modifies enc, enc.buffer
    ensures enc.Valid() && enc.Contents() == WireOfInterest(f, nonce) + old(enc.Contents())
    ensures length == |WireOfInterest(f, nonce)|
  {
    hide WireOf, Wires, EncodableName, CountDigests, ParametersOk, NameValue, HintElements, Opt,
      EncodeNonNegativeInteger;
    ghost var c := enc.Contents();
    PartsFit(f, nonce);
    length := WriteLater(enc, f, nonce);
    ghost var s4 := LaterElements(f, nonce);
    ghost var e3 := MakeElement(FORWARDING_HINT, Wires(HintElements(f.hint)));
    var l3 := 0;
    WiresOpt(f.hint != [], e3, s4, c);
    if f.hint != [] {
      l3 := PrependHint(enc, f.hint);
    }
    ghost var s3 := Opt(f.hint != [], e3) + s4;
    var l2 := PrependOptional(enc, f.mustBeFresh, MUST_BE_FRESH, [], s3, c);
    ghost var s2 := Opt(f.mustBeFresh, MakeElement(MUST_BE_FRESH, [])) + s3;
    var l1 := PrependOptional(enc, f.canBePrefix, CAN_BE_PREFIX, [], s2, c);
    ghost var s1 := Opt(f.canBePrefix, MakeElement(CAN_BE_PREFIX, [])) + s2;
    var l0 := PrependName(enc, f.name);
    WiresCons(MakeElement(NAME, NameValue(f.name)), s1, c);
    length := length + l3 + l2 + l1 + l0;
    length := PrependHeader(enc, INTEREST, Wires(ElementsOf(f, nonce)), c, length);
  }

  lemma WiresCons(e: Element, rest: seq<Element>, c: seq<Byte>)
    ensures Wires([e] + rest) == e.wire + Wires(rest)
    ensures Wires([e] + rest) + c == e.wire + (Wires(rest) + c)
  {
    WiresOpt(true, e, rest, c);
  }

  lemma PartsFit(f: Fields, nonce: seq<Byte>)
    requires |Wires(ElementsOf(f, nonce))| < TWO_64
    ensures |NameValue(f.name)| < TWO_64
    ensures f.hint != [] ==> |Wires(HintElements(f.hint))| < TWO_64
  {
    hide Wires, NameValue, HintElements, EncodeNonNegativeInteger;
    var es := ElementsOf(f, nonce);
    MemberFits(es, 0);
    var e3 := MakeElement(FORWARDING_HINT, Wires(HintElements(f.hint)));
    if f.hint != [] {
      assert e3 in es;
      var i :| 0 <= i < |es| && es[i] == e3;
      MemberFits(es, i);
    }
  }
}
