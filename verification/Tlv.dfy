/** VAR-NUMBER, NonNegativeInteger and TLV elements, as octet sequences. */
module Tlv {
  import opened Bytes

  datatype TlvError =
    | EmptyBuffer
    | InsufficientData
    | IllegalType(number: nat)
    | ValueTooShort(typ: nat)
    | BadNumberLength(size: nat)

  // ---- sizes and writers ----

  function SizeOfVarNumber(n: nat): nat {
    if n < 253 then 1 else if n <= 0xFFFF then 3 else if n <= 0xFFFF_FFFF then 5 else 9
  }

  function SizeOfNonNegativeInteger(n: nat): nat {
    if n <= 0xFF then 1 else if n <= 0xFFFF then 2 else if n <= 0xFFFF_FFFF then 4 else 8
  }

  function EncodeVarNumber(n: nat): (r: seq<Byte>)
    ensures |r| == SizeOfVarNumber(n)
  {
    if n < 253 then [n] else [Marker(n)] + ToBytes(n, SizeOfVarNumber(n) - 1)
  }

  /** The first octet of a VAR-NUMBER that does not fit in one octet. */
  function Marker(n: nat): Byte {
    if n <= 0xFFFF then 253 else if n <= 0xFFFF_FFFF then 254 else 255
  }

  function EncodeNonNegativeInteger(n: nat): (r: seq<Byte>)
    ensures |r| == SizeOfNonNegativeInteger(n)
  {
    ToBytes(n, SizeOfNonNegativeInteger(n))
  }

  // ---- readers ----

  /** ReadNumberSlow: octet by octet through an input iterator; `number` is a uint64_t. */
  method ReadNumberSlow(buf: seq<Byte>, size: nat, begin: nat) returns (ok: bool, pos: nat, number: nat)
    requires begin <= |buf| && size <= 8
    ensures ok <==> begin + size <= |buf|
    ensures ok ==> pos == begin + size && number == BigEndian(buf[begin..pos])
    ensures !ok ==> pos == |buf|
  {
    hide BigEndian;
    number := 0;
    pos := begin;
    var count := 0;
    assert buf[begin..begin] == [] && BigEndian([]) == 0 by {
      EmptyIsZero();
    }
    while pos != |buf| && count < size
      invariant pos == begin + count <= |buf| && count <= size
      invariant number == BigEndian(buf[begin..pos])
    {
      NextOctet(buf, begin, pos);
      number := (number * 256) % TWO_64 + buf[pos];
      pos, count := pos + 1, count + 1;
    }
    ok := count == size;
  }

  lemma EmptyIsZero()
    ensures BigEndian([]) == 0
  {
  }

  /** Shifting in the next of at most eight octets loses nothing. */
  lemma NextOctet(buf: seq<Byte>, begin: nat, pos: nat)
    requires begin <= pos < |buf| && pos - begin < 8
    ensures BigEndian(buf[begin..pos + 1]) == BigEndian(buf[begin..pos]) * 256 + buf[pos]
    ensures BigEndian(buf[begin..pos]) * 256 < TWO_64
  {
    hide BigEndian, Pow256;
    BigEndianBound(buf[begin..pos]);
    ShiftFits(pos - begin);
    assert buf[begin..pos + 1] == buf[begin..pos] + [buf[pos]];
    BigEndianSnoc(buf[begin..pos], buf[pos]);
  }

  lemma ShiftFits(count: nat)
    requires count < 8
    ensures Pow256(count) * 256 <= TWO_64
  {
    Pow256Values();
    Pow256Monotone(count + 1, 8);
  }

  lemma {:induction false} Pow256Monotone(m: nat, n: nat)
    requires m <= n
    ensures Pow256(m) <= Pow256(n)
    decreases n - m
  {
    if m < n {
      Pow256Monotone(m + 1, n);
    }
  }

  /** ReadNumberFast: one load of 1, 2, 4 or 8 octets followed by a byte swap. */
  method ReadNumberFast(buf: seq<Byte>, size: nat, begin: nat) returns (ok: bool, pos: nat, number: nat)
    requires begin <= |buf| && size in {1, 2, 4, 8}
    ensures ok <==> begin + size <= |buf|
    ensures ok ==> pos == begin + size && number == BigEndian(buf[begin..pos])
    ensures !ok ==> pos == begin
  {
    if begin + size > |buf| {
      return false, begin, 0;
    }
    ok, pos := true, begin + size;
    var b := buf[begin..pos];
    match size {
      case 1 =>
        number := b[0];
        BigEndianSnoc([], b[0]);
        assert b == [] + [b[0]];
      case 2 =>
        number := Load2(b, 0);
        Load2IsBigEndian(b);
      case 4 =>
        number := Load2(b, 0) * 0x1_0000 + Load2(b, 2);
        Load4IsBigEndian(b);
      case _ =>
        Load8IsBigEndian(b);
        number := Load2(b, 0) * 0x1_0000_0000_0000 + Load2(b, 2) * 0x1_0000_0000 + Load2(b, 4) * 0x1_0000 + Load2(b, 6);
    }
    assert b[..|b|] == b;
  }

  function Load2(b: seq<Byte>, i: nat): nat
    requires i + 1 < |b|
  {
    (b[i] as int) * 256 + b[i + 1]
  }

  lemma BigEndianPair(s: seq<Byte>, n: nat)
    requires n + 2 <= |s|
    ensures BigEndian(s[..n + 2]) == BigEndian(s[..n]) * 0x1_0000 + Load2(s, n)
  {
    assert s[..n + 2] == s[..n + 1] + [s[n + 1]] && s[..n + 1] == s[..n] + [s[n]];
    BigEndianSnoc(s[..n + 1], s[n + 1]);
    BigEndianSnoc(s[..n], s[n]);
  }

  lemma Load2IsBigEndian(b: seq<Byte>)
    requires |b| >= 2
    ensures BigEndian(b[..2]) == Load2(b, 0)
  {
    BigEndianPair(b, 0);
    assert b[..0] == [];
  }

  lemma Load4IsBigEndian(b: seq<Byte>)
    requires |b| >= 4
    ensures BigEndian(b[..4]) == Load2(b, 0) * 0x1_0000 + Load2(b, 2)
  {
    Load2IsBigEndian(b);
    BigEndianPair(b, 2);
  }

  lemma Load8IsBigEndian(b: seq<Byte>)
    requires |b| >= 8
    ensures BigEndian(b[..8]) == Load2(b, 0) * 0x1_0000_0000_0000 + Load2(b, 2) * 0x1_0000_0000
                                 + Load2(b, 4) * 0x1_0000 + Load2(b, 6)
  {
    Load4IsBigEndian(b);
    BigEndianPair(b, 4);
    BigEndianPair(b, 6);
  }

  /** What a VAR-NUMBER at the start of `s` denotes: the number and the octets it takes. */
  function ReadVarNumber(s: seq<Byte>): Option<(nat, nat)> {
    if s == [] then None
    else if s[0] < 253 then Some((s[0], 1))
    else
      var size := if s[0] == 253 then 2 else if s[0] == 254 then 4 else 8;
      if 1 + size <= |s| then Some((BigEndian(s[1..1 + size]), 1 + size)) else None
  }

  /** readVarNumber, over a contiguous iterator (fast reader) or any other (slow reader). */
  method ReadVarNumberAt(buf: seq<Byte>, begin: nat, contiguous: bool)
      returns (ok: bool, pos: nat, number: nat)
    requires begin <= |buf|
    ensures begin <= pos <= |buf|
    ensures ok == ReadVarNumber(buf[begin..]).Some?
    ensures ok ==> ReadVarNumber(buf[begin..]) == Some((number, pos - begin))
  {
    if begin == |buf| {
      return false, begin, 0;
    }
    var firstOctet := buf[begin];
    pos := begin + 1;
    if firstOctet < 253 {
      return true, pos, firstOctet;
    }
    var size := if firstOctet == 253 then 2 else if firstOctet == 254 then 4 else 8;
    assert 1 + size <= |buf| - begin ==> buf[begin..][1..1 + size] == buf[pos..pos + size];
    if contiguous {
      ok, pos, number := ReadNumberFast(buf, size, pos);
    } else {
      ok, pos, number := ReadNumberSlow(buf, size, pos);
    }
  }

  /** readType, non-throwing form. */
  function ReadType(s: seq<Byte>): Option<(nat, nat)> {
    var r := ReadVarNumber(s);
    if r.None? || r.value.0 == 0 || r.value.0 > 0xFFFF_FFFF then None else r
  }

  /** readVarNumber, throwing form. */
  function ReadVarNumberOrThrow(s: seq<Byte>): Result<(nat, nat), TlvError> {
    if s == [] then Err(EmptyBuffer)
    else
      match ReadVarNumber(s)
      case Some(r) => Ok(r)
      case None => Err(InsufficientData)
  }

  /** readType, throwing form. */
  function ReadTypeOrThrow(s: seq<Byte>): Result<(nat, nat), TlvError> {
    var r := ReadVarNumberOrThrow(s);
    if r.Ok? && (r.value.0 == 0 || r.value.0 > 0xFFFF_FFFF) then Err(IllegalType(r.value.0)) else r
  }

  /** readNonNegativeInteger over a whole TLV-VALUE. */
  function ReadNonNegativeInteger(s: seq<Byte>): Result<nat, TlvError> {
    if |s| !in {1, 2, 4, 8} then Err(BadNumberLength(|s|)) else Ok(BigEndian(s))
  }

  /** The widths a non-negative integer may have are 1, 2, 4 and 8 octets, and it is written in the least of them
      that holds it. */
  lemma NonNegativeIntegerIsShortest(n: nat)
    requires n < TWO_64
    ensures |EncodeNonNegativeInteger(n)| in {1, 2, 4, 8} && n < Pow256(|EncodeNonNegativeInteger(n)|)
    ensures forall w :: w in {1, 2, 4, 8} && w < |EncodeNonNegativeInteger(n)| ==> n >= Pow256(w)
  {
    Pow256Values();
  }

  lemma NonNegativeIntegerRoundTrip(n: nat)
    requires n < TWO_64
    ensures ReadNonNegativeInteger(EncodeNonNegativeInteger(n)) == Ok(n)
  {
    Pow256Values();
    BigEndianOfToBytes(n, SizeOfNonNegativeInteger(n));
  }

  lemma VarNumberRoundTrip(n: nat, rest: seq<Byte>)
    requires n < TWO_64
    ensures ReadVarNumber(EncodeVarNumber(n) + rest) == Some((n, SizeOfVarNumber(n)))
  {
    hide BigEndian, ToBytes, Pow256;
    var s := EncodeVarNumber(n) + rest;
    if n >= 253 {
      var size := SizeOfVarNumber(n) - 1;
      Pow256Values();
      BigEndianOfToBytes(n, size);
      assert s[1..1 + size] == ToBytes(n, size);
    }
  }

  /** A reader accepts longer-than-needed forms; it never needs fewer octets than the writer,
      and the only form of that length is the writer's. */
  lemma VarNumberForms(s: seq<Byte>)
    requires ReadVarNumber(s).Some?
    ensures var (n, k) := ReadVarNumber(s).value;
      && SizeOfVarNumber(n) <= k <= |s| && n < TWO_64
      && (k == SizeOfVarNumber(n) <==> s[..k] == EncodeVarNumber(n))
      && (k > SizeOfVarNumber(n) ==> EncodeVarNumber(n)[0] < s[0])
  {
    hide BigEndian, ToBytes, Pow256;
    var (n, k) := ReadVarNumber(s).value;
    Pow256Values();
    if k > 1 {
      BigEndianBound(s[1..k]);
      ToBytesOfBigEndian(s[1..k]);
      if k == SizeOfVarNumber(n) {
        assert Marker(n) == s[0];
        assert s[..k] == [s[0]] + s[1..k];
      }
    } else {
      assert s[..1] == [s[0]];
    }
  }

  /** What is read depends on the octets read only. */
  lemma ReadVarNumberLocal(s: seq<Byte>, k: nat, t: seq<Byte>)
    requires k <= |s| && k <= |t| && s[..k] == t[..k]
    requires ReadVarNumber(s).Some? && ReadVarNumber(s).value.1 <= k
    ensures ReadVarNumber(t) == ReadVarNumber(s)
  {
    var j := ReadVarNumber(s).value.1;
    assert s[..k][0] == t[..k][0];
    assert s[1..j] == s[..k][1..j] == t[1..j];
  }

  // ---- elements ----

  /** One TLV element together with the octets it was read from. */
  datatype Element = Element(typ: nat, value: seq<Byte>, wire: seq<Byte>)

  /** Block(span): read one element from the start of `s`, throwing on failure. */
  function BlockOfSpan(s: seq<Byte>): Result<Element, TlvError> {
    match ReadTypeOrThrow(s)
    case Err(e) => Err(e)
    case Ok((typ, a)) =>
      VarNumberForms(s);
      match ReadVarNumberOrThrow(s[a..])
      case Err(e) => Err(e)
      case Ok((length, b)) =>
        VarNumberForms(s[a..]);
        if length > |s| - (a + b) then Err(ValueTooShort(typ))
        else Ok(Element(typ, s[a + b..a + b + length], s[..a + b + length]))
  }

  /** Block::fromBuffer: the same without exceptions. */
  function FromBuffer(s: seq<Byte>): Option<Element> {
    match ReadType(s)
    case None => None
    case Some((typ, a)) =>
      VarNumberForms(s);
      match ReadVarNumber(s[a..])
      case None => None
      case Some((length, b)) =>
        VarNumberForms(s[a..]);
        if length > |s| - (a + b) then None
        else Some(Element(typ, s[a + b..a + b + length], s[..a + b + length]))
  }

  lemma ConstructorsAgree(s: seq<Byte>)
    ensures FromBuffer(s).Some? <==> BlockOfSpan(s).Ok?
    ensures BlockOfSpan(s).Ok? ==> FromBuffer(s) == Some(BlockOfSpan(s).value)
  {
  }

  /** The octets of an element read back as that element. */
  /** What follows the number at the start of `s`. */
  function AfterNumber(s: seq<Byte>): seq<Byte> {
    var r := ReadVarNumber(s);
    if r.Some? && r.value.1 <= |s| then s[r.value.1..] else []
  }

  predicate HasLegalType(s: seq<Byte>) {
    ReadVarNumber(s).Some? && 0 < ReadVarNumber(s).value.0 < TWO_32
  }

  /** Which error octets give that are no block: the type or the length is missing, cut short or illegal, or the
      value is shorter than the length says. */
  lemma BlockErrors(s: seq<Byte>)
    ensures BlockOfSpan(s) == Err(EmptyBuffer) <==> s == [] || (HasLegalType(s) && AfterNumber(s) == [])
    ensures BlockOfSpan(s) == Err(InsufficientData) <==>
      || (s != [] && ReadVarNumber(s).None?)
      || (HasLegalType(s) && AfterNumber(s) != [] && ReadVarNumber(AfterNumber(s)).None?)
    ensures forall t: nat :: BlockOfSpan(s) == Err(IllegalType(t)) <==>
      ReadVarNumber(s).Some? && !HasLegalType(s) && ReadVarNumber(s).value.0 == t
    ensures forall t: nat :: BlockOfSpan(s) == Err(ValueTooShort(t)) <==>
      && HasLegalType(s) && ReadVarNumber(s).value.0 == t && ReadVarNumber(AfterNumber(s)).Some?
      && ReadVarNumber(AfterNumber(s)).value.0 > |AfterNumber(AfterNumber(s))|
  {
    hide ReadVarNumber;
    if ReadVarNumber(s).Some? {
      VarNumberForms(s);
      var rest := AfterNumber(s);
      if ReadVarNumber(rest).Some? {
        VarNumberForms(rest);
      }
      EmptyUnread(rest);
    } else {
      EmptyUnread(s);
    }
  }

  lemma EmptyUnread(s: seq<Byte>)
    ensures s == [] ==> ReadVarNumber(s).None?
  {
  }

  predicate WellFormed(e: Element) {
    BlockOfSpan(e.wire) == Ok(e)
  }

  /** The octets every writer of the library produces for a type and a value. */
  function WireOf(typ: nat, value: seq<Byte>): (r: seq<Byte>)
    ensures |r| == SizeOfVarNumber(typ) + SizeOfVarNumber(|value|) + |value|
  {
    EncodeVarNumber(typ) + EncodeVarNumber(|value|) + value
  }

  function MakeElement(typ: nat, value: seq<Byte>): Element {
    Element(typ, value, WireOf(typ, value))
  }

  predicate IsType(typ: nat) {
    0 < typ <= 0xFFFF_FFFF
  }

  lemma MakeElementWellFormed(typ: nat, value: seq<Byte>)
    requires IsType(typ) && |value| < TWO_64
    ensures WellFormed(MakeElement(typ, value))
  {
    hide EncodeVarNumber, ReadVarNumber;
    var (t, l) := (EncodeVarNumber(typ), EncodeVarNumber(|value|));
    var w := WireOf(typ, value);
    assert w == t + (l + value);
    VarNumberRoundTrip(typ, l + value);
    VarNumberRoundTrip(|value|, value);
    assert w[|t|..] == l + value;
    assert w[|t| + |l|..|t| + |l| + |value|] == value;
    assert w[..|w|] == w;
  }

  /** How an element read from `s` lies there: `h` octets of type and length, then the value. */
  lemma ElementParts(s: seq<Byte>) returns (h: nat)
    requires BlockOfSpan(s).Ok?
    ensures var e := BlockOfSpan(s).value;
      && IsType(e.typ) && |e.value| < TWO_64
      && h + |e.value| <= |s| && e.wire == s[..h + |e.value|] && e.value == s[h..h + |e.value|]
      && SizeOfVarNumber(e.typ) + SizeOfVarNumber(|e.value|) <= h
      && (h == SizeOfVarNumber(e.typ) + SizeOfVarNumber(|e.value|) ==>
            s[..h] == EncodeVarNumber(e.typ) + EncodeVarNumber(|e.value|))
  {
    hide ReadVarNumber, EncodeVarNumber;
    var (typ, a) := ReadVarNumber(s).value;
    VarNumberForms(s);
    var (length, b) := ReadVarNumber(s[a..]).value;
    VarNumberForms(s[a..]);
    h := a + b;
    TwoParts(s, a, b);
  }

  lemma TwoParts(s: seq<Byte>, a: nat, b: nat)
    requires a + b <= |s|
    ensures s[..a + b] == s[..a] + s[a..][..b]
  {
  }

  /** An element read from `s` occupies a prefix of `s`, at least as long as the writer's form,
      and ends with its value. */
  lemma ElementBounds(s: seq<Byte>)
    requires BlockOfSpan(s).Ok?
    ensures var e := BlockOfSpan(s).value;
      && IsType(e.typ) && |e.value| < TWO_64
      && |WireOf(e.typ, e.value)| <= |e.wire| <= |s| && e.wire == s[..|e.wire|]
      && e.wire[|e.wire| - |e.value|..] == e.value
  {
    var h := ElementParts(s);
  }

  /** Any form of an element other than the writer's is longer. */
  lemma ShortestForm(e: Element)
    requires WellFormed(e)
    ensures |WireOf(e.typ, e.value)| <= |e.wire|
    ensures IsShortest(e) <==> |WireOf(e.typ, e.value)| == |e.wire|
  {
    var h := ElementParts(e.wire);
    assert e.wire == e.wire[..h] + e.wire[h..];
  }

  predicate IsShortest(e: Element) {
    e.wire == WireOf(e.typ, e.value)
  }

  lemma ElementOfHeader(s: seq<Byte>, typ: nat, a: nat, length: nat, b: nat)
    requires IsType(typ) && ReadVarNumber(s) == Some((typ, a))
    requires a <= |s| && ReadVarNumber(s[a..]) == Some((length, b)) && a + b + length <= |s|
    ensures BlockOfSpan(s) == Ok(Element(typ, s[a + b..a + b + length], s[..a + b + length]))
  {
  }

  /** The header of an element that was read. */
  lemma HeaderOf(s: seq<Byte>) returns (a: nat, length: nat, b: nat)
    requires BlockOfSpan(s).Ok?
    ensures a <= |s| && a + b + length <= |s|
    ensures var typ := BlockOfSpan(s).value.typ;
      && IsType(typ) && ReadVarNumber(s) == Some((typ, a)) && ReadVarNumber(s[a..]) == Some((length, b))
      && BlockOfSpan(s) == Ok(Element(typ, s[a + b..a + b + length], s[..a + b + length]))
  {
    hide ReadVarNumber, EncodeVarNumber;
    a := ReadVarNumber(s).value.1;
    VarNumberForms(s);
    length, b := ReadVarNumber(s[a..]).value.0, ReadVarNumber(s[a..]).value.1;
    VarNumberForms(s[a..]);
  }

  /** The octets of an element followed by anything give the same element. */
  lemma ElementLocal(s: seq<Byte>, t: seq<Byte>)
    requires BlockOfSpan(s).Ok? && BlockOfSpan(s).value.wire <= t
    ensures BlockOfSpan(t) == BlockOfSpan(s)
  {
    hide ReadVarNumber, EncodeVarNumber, BlockOfSpan;
    var a, length, b := HeaderOf(s);
    var n := a + b + length;
    assert t[..n] == s[..n];
    ReadVarNumberLocal(s, n, t);
    DropTake(s, t, a, n);
    assert b <= n - a;
    ReadVarNumberLocal(s[a..], n - a, t[a..]);
    DropTake(s, t, a + b, n);
    ElementOfHeader(t, BlockOfSpan(s).value.typ, a, length, b);
  }

  lemma ElementSpan(s: seq<Byte>, rest: seq<Byte>)
    requires BlockOfSpan(s).Ok?
    ensures var e := BlockOfSpan(s).value;
      && IsType(e.typ) && |e.value| < TWO_64
      && |WireOf(e.typ, e.value)| <= |e.wire| <= |s| && e.wire == s[..|e.wire|]
      && BlockOfSpan(e.wire + rest) == Ok(e)
  {
    hide BlockOfSpan;
    ElementBounds(s);
    ElementLocal(s, BlockOfSpan(s).value.wire + rest);
  }

  lemma WellFormedBounds(e: Element)
    requires WellFormed(e)
    ensures IsType(e.typ) && |e.value| < TWO_64 && |WireOf(e.typ, e.value)| <= |e.wire|
  {
    ElementSpan(e.wire, []);
  }

  function Wires(es: seq<Element>): seq<Byte> {
    if es == [] then [] else es[0].wire + Wires(es[1..])
  }

  /** The elements in front of the first one that cannot be read, and the error it gives. */
  datatype Parsed = Parsed(elements: seq<Element>, error: Option<TlvError>)

  function ParseElements(s: seq<Byte>): Parsed
    decreases |s|
  {
    if s == [] then Parsed([], None)
    else
      match BlockOfSpan(s)
      case Err(e) => Parsed([], Some(e))
      case Ok(e) =>
        ElementSpan(s, []);
        var rest := ParseElements(s[|e.wire|..]);
        Parsed([e] + rest.elements, rest.error)
  }

  lemma {:induction false} WiresSnoc(es: seq<Element>, e: Element)
    ensures Wires(es + [e]) == Wires(es) + e.wire
  {
    if es != [] {
      WiresSnoc(es[1..], e);
      assert (es + [e])[1..] == es[1..] + [e];
    } else {
      assert [e][1..] == [] && [] + [e] == [e];
    }
  }

  /** Parsing goes through elements one after the other, whatever form each is written in, up to
      the rest of the input. */
  lemma {:induction false} ParseUpTo(es: seq<Element>, rest: seq<Byte>)
    requires forall i :: 0 <= i < |es| ==> WellFormed(es[i])
    ensures ParseElements(Wires(es) + rest)
         == Parsed(es + ParseElements(rest).elements, ParseElements(rest).error)
  {
    hide ParseElements, WellFormed;
    if es == [] {
      assert [] + rest == rest;
      assert es + ParseElements(rest).elements == ParseElements(rest).elements;
    } else {
      Associative(es[0].wire, Wires(es[1..]), rest);
      ParseFirst(es[0], Wires(es[1..]) + rest);
      ParseUpTo(es[1..], rest);
      Associative([es[0]], es[1..], ParseElements(rest).elements);
      assert es == [es[0]] + es[1..];
    }
  }

  lemma ParseFirst(e: Element, tail: seq<Byte>)
    requires WellFormed(e)
    ensures ParseElements(e.wire + tail) == Parsed([e] + ParseElements(tail).elements, ParseElements(tail).error)
  {
    hide BlockOfSpan;
    ElementSpan(e.wire, tail);
    assert (e.wire + tail)[|e.wire|..] == tail;
  }

  /** Parsing inverts concatenation. */
  lemma ParseInvertsConcatenation(es: seq<Element>)
    requires forall i :: 0 <= i < |es| ==> WellFormed(es[i])
    ensures ParseElements(Wires(es)) == Parsed(es, None)
  {
    ParseUpTo(es, []);
    assert Wires(es) + [] == Wires(es) && es + [] == es;
  }

  /** A parse that succeeds cuts its input into consecutive elements, with nothing left over. */
  lemma {:induction false} ParsePartitions(s: seq<Byte>)
    ensures forall i :: 0 <= i < |ParseElements(s).elements| ==> WellFormed(ParseElements(s).elements[i])
    ensures ParseElements(s).error.None? ==> Wires(ParseElements(s).elements) == s
    ensures Wires(ParseElements(s).elements) <= s
    decreases |s|
  {
    hide BlockOfSpan;
    if s != [] && BlockOfSpan(s).Ok? {
      var e := BlockOfSpan(s).value;
      ElementSpan(s, []);
      assert e.wire + [] == e.wire;
      ParsePartitions(s[|e.wire|..]);
      assert s == e.wire + s[|e.wire|..];
      var p := ParseElements(s).elements;
      assert p[0] == e && p[1..] == ParseElements(s[|e.wire|..]).elements;
    }
  }

  /** The elements a list of types and values is written as. */
  function MakeElements(tvs: seq<(nat, seq<Byte>)>): (r: seq<Element>)
    ensures |r| == |tvs|
    ensures forall i :: 0 <= i < |tvs| ==> r[i] == MakeElement(tvs[i].0, tvs[i].1)
  {
    if tvs == [] then [] else [MakeElement(tvs[0].0, tvs[0].1)] + MakeElements(tvs[1..])
  }

  /** Parsing what the library writes gives back the types and values, in order. */
  lemma ParseInvertsEncoding(tvs: seq<(nat, seq<Byte>)>)
    requires forall i :: 0 <= i < |tvs| ==> IsType(tvs[i].0) && |tvs[i].1| < TWO_64
    ensures ParseElements(Wires(MakeElements(tvs))) == Parsed(MakeElements(tvs), None)
  {
    var es := MakeElements(tvs);
    forall i | 0 <= i < |es|
      ensures WellFormed(es[i])
    {
      MakeElementWellFormed(tvs[i].0, tvs[i].1);
    }
    ParseInvertsConcatenation(es);
  }

  /** What Block::encode makes of elements: the same types and values, each in the writer's form. */
  function Shorten(es: seq<Element>): (r: seq<Element>)
    ensures |r| == |es|
    ensures forall i :: 0 <= i < |es| ==> r[i] == MakeElement(es[i].typ, es[i].value)
  {
    if es == [] then [] else [MakeElement(es[0].typ, es[0].value)] + Shorten(es[1..])
  }

  /** Re-encoding changes nothing exactly when every element was in shortest form. */
  lemma {:induction false} ShortenShortest(ps: seq<Element>)
    requires forall i :: 0 <= i < |ps| ==> WellFormed(ps[i])
    ensures |Wires(Shorten(ps))| <= |Wires(ps)|
    ensures Wires(Shorten(ps)) == Wires(ps) <==> forall i :: 0 <= i < |ps| ==> IsShortest(ps[i])
    ensures |Wires(Shorten(ps))| == |Wires(ps)| <==> Wires(Shorten(ps)) == Wires(ps)
  {
    if ps != [] {
      ShortestForm(ps[0]);
      ShortenShortest(ps[1..]);
      assert Shorten(ps)[1..] == Shorten(ps[1..]);
    }
  }

  lemma ShortenKeeps(es: seq<Element>)
    requires (forall i :: 0 <= i < |es| ==> WellFormed(es[i])) && |Wires(es)| < TWO_64
    ensures forall i :: 0 <= i < |es| ==> WellFormed(Shorten(es)[i])
    ensures |Wires(Shorten(es))| < TWO_64 && Shorten(Shorten(es)) == Shorten(es)
    ensures Shorten(es) == es <==> forall i :: 0 <= i < |es| ==> IsShortest(es[i])
  {
    hide WellFormed, WireOf, Wires;
    ShortenShortest(es);
    forall i | 0 <= i < |es|
      ensures WellFormed(Shorten(es)[i])
    {
      WellFormedBounds(es[i]);
      MakeElementWellFormed(es[i].typ, es[i].value);
    }
  }
}
