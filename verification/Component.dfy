/** Name components: canonical order, the comparison of encoded components, successors. */
module NameComponents {
  import opened Bytes
  import opened Tlv
  import opened Encoding

  const TWO_31: nat := 0x8000_0000
  const IMPLICIT_DIGEST: nat := 1
  const PARAMETERS_DIGEST: nat := 2
  const GENERIC: nat := 8
  const DIGEST_SIZE: nat := 32

  /** What a component is: its TLV-TYPE and TLV-VALUE. */
  datatype Component = Component(typ: nat, value: seq<Byte>)

  /** Component::ensureValid. */
  predicate Valid(c: Component) {
    1 <= c.typ <= 65535 && (c.typ in {IMPLICIT_DIGEST, PARAMETERS_DIGEST} ==> |c.value| == DIGEST_SIZE)
  }

  /** Canonical order: by type, then by length, then by the octets of the value. */
  predicate Less(x: Component, y: Component) {
    || x.typ < y.typ
    || (x.typ == y.typ && |x.value| < |y.value|)
    || (x.typ == y.typ && |x.value| == |y.value| && Below(x.value, y.value))
  }

  /** The octets of a value as a number decide between values of one length. */
  lemma LessIsNumeric(x: Component, y: Component)
    ensures Less(x, y) <==>
      || x.typ < y.typ
      || (x.typ == y.typ && |x.value| < |y.value|)
      || (x.typ == y.typ && |x.value| == |y.value| && BigEndian(x.value) < BigEndian(y.value))
    ensures x.typ == y.typ && |x.value| == |y.value| && BigEndian(x.value) == BigEndian(y.value) <==> x == y
  {
    if |x.value| == |y.value| {
      NumericOrder(x.value, y.value);
    }
  }

  function Order(x: Component, y: Component): int {
    if Less(x, y) then -1 else if Less(y, x) then 1 else 0
  }

  lemma LessIsTotalOrder(x: Component, y: Component, z: Component)
    ensures Less(x, y) || x == y || Less(y, x)
    ensures !(Less(x, y) && Less(y, x)) && !Less(x, x)
    ensures Less(x, y) && Less(y, z) ==> Less(x, z)
  {
    LessIsNumeric(x, y);
    LessIsNumeric(y, x);
    LessIsNumeric(y, z);
    LessIsNumeric(x, z);
    LessIsNumeric(x, x);
  }

  // ---- comparing component objects ----

  /** A component object: it may carry the encoding it was made with or read from. */
  datatype Object = Object(c: Component, wire: Option<seq<Byte>>)

  predicate Consistent(x: Object) {
    x.wire.Some? ==> WellFormed(Element(x.c.typ, x.c.value, x.wire.value))
  }

  /** The encoding carried, if any, is the one the library writes. */
  predicate Shortest(x: Object) {
    x.wire.Some? ==> x.wire.value == WireOf(x.c.typ, x.c.value)
  }

  /** Conversion of a difference to a 32-bit int. */
  function ToInt32(d: int): int {
    if d % TWO_32 >= TWO_31 then d % TWO_32 - TWO_32 else d % TWO_32
  }

  lemma ToInt32OfSmall(d: int)
    requires -0x8000_0000 <= d < 0x8000_0000
    ensures ToInt32(d) == d
  {
  }

  function Min(a: nat, b: nat): nat {
    if a <= b then a else b
  }

  /** Component::compare. */
  function Compare(x: Object, y: Object): int {
    if x.wire.Some? && y.wire.Some? then
      Memcmp(x.wire.value, y.wire.value, Min(|x.wire.value|, |y.wire.value|))
    else if ToInt32(x.c.typ - y.c.typ) != 0 then ToInt32(x.c.typ - y.c.typ)
    else if ToInt32(|x.c.value| - |y.c.value|) != 0 then ToInt32(|x.c.value| - |y.c.value|)
    else if x.c.value == [] then 0
    else Memcmp(x.c.value, y.c.value, Min(|x.c.value|, |y.c.value|))
  }

  function Sign(i: int): int {
    if i < 0 then -1 else if i > 0 then 1 else 0
  }

  predicate Agree(x: Object, y: Object) {
    Sign(Compare(x, y)) == Order(x.c, y.c)
  }

  /** Smaller numbers have smaller encodings, and never one a prefix of the other. */
  lemma VarNumberOrder(m: nat, n: nat)
    requires m < n < TWO_64
    ensures Below(EncodeVarNumber(m), EncodeVarNumber(n))
  {
    var (a, b) := (EncodeVarNumber(m), EncodeVarNumber(n));
    if SizeOfVarNumber(m) == SizeOfVarNumber(n) > 1 {
      var w := SizeOfVarNumber(m) - 1;
      Pow256Values();
      BigEndianOfToBytes(m, w);
      BigEndianOfToBytes(n, w);
      NumericOrder(ToBytes(m, w), ToBytes(n, w));
      BelowAfter([Marker(m)], ToBytes(m, w), ToBytes(n, w));
    } else {
      assert BelowAt(a, b, 0);
    }
  }

  lemma WireOrder(x: Component, y: Component)
    requires Less(x, y) && y.typ < TWO_64 && |y.value| < TWO_64
    ensures Below(WireOf(x.typ, x.value), WireOf(y.typ, y.value))
  {
    hide EncodeVarNumber;
    var (a, b) := (EncodeVarNumber(x.typ), EncodeVarNumber(y.typ));
    var (k, l) := (EncodeVarNumber(|x.value|), EncodeVarNumber(|y.value|));
    Associative(a, k, x.value);
    Associative(b, l, y.value);
    if x.typ < y.typ {
      VarNumberOrder(x.typ, y.typ);
      BelowExtends(a, b, k + x.value, l + y.value);
    } else {
      if |x.value| < |y.value| {
        VarNumberOrder(|x.value|, |y.value|);
        BelowExtends(k, l, x.value, y.value);
      } else {
        BelowAfter(k, x.value, y.value);
      }
      BelowAfter(a, k + x.value, l + y.value);
    }
  }

  lemma MemcmpOfBelow(a: seq<Byte>, b: seq<Byte>)
    requires Below(a, b)
    ensures Memcmp(a, b, Min(|a|, |b|)) < 0 && Memcmp(b, a, Min(|b|, |a|)) > 0
  {
    var n := Min(|a|, |b|);
    var k: nat :| k < |a| && BelowAt(a, b, k);
    assert a[..n][..k] == a[..k] && b[..n][..k] == b[..k];
    assert BelowAt(a[..n], b[..n], k);
    MemcmpSign(a, b, n);
    MemcmpSign(b, a, n);
  }

  predicate Encodable(x: Object) {
    x.c.typ < TWO_64 && |x.c.value| < TWO_64
  }

  /** The comment at the memcmp shortcut: octet order of shortest encodings is canonical order. */
  lemma ShortcutAgrees(x: Object, y: Object)
    requires x.wire.Some? && y.wire.Some? && Shortest(x) && Shortest(y) && Encodable(x) && Encodable(y)
    ensures Agree(x, y) && (Compare(x, y) == 0 <==> x.c == y.c)
  {
    var (a, b) := (WireOf(x.c.typ, x.c.value), WireOf(y.c.typ, y.c.value));
    LessIsTotalOrder(x.c, y.c, x.c);
    if Less(x.c, y.c) {
      WireOrder(x.c, y.c);
      MemcmpOfBelow(a, b);
    } else if Less(y.c, x.c) {
      WireOrder(y.c, x.c);
      MemcmpOfBelow(b, a);
    } else {
      MemcmpSign(a, b, |a|);
    }
  }

  /** The shortcut is right against every shortest encoding exactly when this one is shortest too. */
  lemma ShortcutExact(x: Object)
    requires x.wire.Some? && Consistent(x)
    ensures Shortest(x) <==>
      forall y: Object :: y.wire.Some? && Consistent(y) && Shortest(y) ==> Agree(x, y)
  {
    WellFormedBounds(Element(x.c.typ, x.c.value, x.wire.value));
    if Shortest(x) {
      forall y: Object | y.wire.Some? && Consistent(y) && Shortest(y)
        ensures Agree(x, y)
      {
        WellFormedBounds(Element(y.c.typ, y.c.value, y.wire.value));
        ShortcutAgrees(x, y);
      }
    } else {
      var y := Object(x.c, Some(WireOf(x.c.typ, x.c.value)));
      MakeElementWellFormed(x.c.typ, x.c.value);
      assert Consistent(y) && Shortest(y);
      LongerFormIsAbove(x.c, x.wire.value);
      MemcmpOfBelow(y.wire.value, x.wire.value);
      LessIsTotalOrder(x.c, x.c, x.c);
      assert !Agree(x, y);
    }
  }

  /** A longer form of a component is octet-wise above its shortest form. */
  lemma LongerFormIsAbove(c: Component, wire: seq<Byte>)
    requires WellFormed(Element(c.typ, c.value, wire)) && wire != WireOf(c.typ, c.value)
    ensures Below(WireOf(c.typ, c.value), wire)
  {
    hide EncodeVarNumber, ReadVarNumber;
    var (t, l) := (EncodeVarNumber(c.typ), EncodeVarNumber(|c.value|));
    var (typ, a) := ReadVarNumber(wire).value;
    VarNumberForms(wire);
    var (length, b) := ReadVarNumber(wire[a..]).value;
    VarNumberForms(wire[a..]);
    ShortestForm(Element(c.typ, c.value, wire));
    Associative(t, l, c.value);
    if a > SizeOfVarNumber(c.typ) {
      assert BelowAt(t + (l + c.value), wire, 0);
    } else {
      SplitAt(wire, a);
      assert BelowAt(l + c.value, wire[a..], 0);
      BelowAfter(t, l + c.value, wire[a..]);
    }
  }

  // ---- the shortcut on any two encodings ----

  /** The number of octets a number at the start of `s` takes. */
  function Width(s: seq<Byte>): nat {
    if ReadVarNumber(s).Some? then ReadVarNumber(s).value.1 else 0
  }

  function TypeWidth(wire: seq<Byte>): nat {
    Width(wire)
  }

  function LengthWidth(wire: seq<Byte>): nat {
    if TypeWidth(wire) <= |wire| then Width(wire[TypeWidth(wire)..]) else 0
  }

  /** Of two forms of numbers, the wider is greater, then the one of the greater number. */
  lemma FormOrder(s: seq<Byte>, t: seq<Byte>)
    requires ReadVarNumber(s).Some? && ReadVarNumber(t).Some?
    ensures var ((m, j), (n, k)) := (ReadVarNumber(s).value, ReadVarNumber(t).value);
      && j <= |s| && k <= |t|
      && (j < k || (j == k && m < n) ==> Below(s[..j], t[..k]))
      && (j == k && m == n ==> s[..j] == t[..k])
  {
    var ((m, j), (n, k)) := (ReadVarNumber(s).value, ReadVarNumber(t).value);
    var (a, b) := (s[..j], t[..k]);
    if j < k || (j == k == 1 && m < n) {
      assert BelowAt(a, b, 0);
    } else if j == k > 1 {
      NumericOrder(s[1..j], t[1..k]);
      assert a == [s[0]] + s[1..j] && b == [t[0]] + t[1..k];
      if m < n {
        BelowAfter([s[0]], s[1..j], t[1..k]);
      }
    }
  }

  lemma WireParts(e: Element)
    requires WellFormed(e)
    ensures var (a, b) := (TypeWidth(e.wire), LengthWidth(e.wire));
      && a <= |e.wire| && b <= |e.wire[a..]|
      && ReadVarNumber(e.wire) == Some((e.typ, a)) && ReadVarNumber(e.wire[a..]) == Some((|e.value|, b))
      && e.wire == e.wire[..a] + (e.wire[a..][..b] + e.value)
  {
    hide ReadVarNumber;
    VarNumberForms(e.wire);
    var a := TypeWidth(e.wire);
    VarNumberForms(e.wire[a..]);
    var b := LengthWidth(e.wire);
    assert e.value == e.wire[a + b..];
    assert e.wire[a..][b..] == e.wire[a + b..];
    SplitAt(e.wire, a);
    SplitAt(e.wire[a..], b);
  }

  /** Octet order of encodings, said of their parts. */
  predicate WireLess(x: Element, y: Element) {
    var (a, b) := (TypeWidth(x.wire), TypeWidth(y.wire));
    var (k, l) := (LengthWidth(x.wire), LengthWidth(y.wire));
    || a < b || (a == b && x.typ < y.typ)
    || (a == b && x.typ == y.typ && (k < l || (k == l && |x.value| < |y.value|)))
    || (a == b && x.typ == y.typ && k == l && |x.value| == |y.value| && Below(x.value, y.value))
  }

  lemma WireLessIsBelow(x: Element, y: Element)
    requires WellFormed(x) && WellFormed(y) && WireLess(x, y)
    ensures Below(x.wire, y.wire)
  {
    hide WellFormed, ReadVarNumber;
    WireParts(x);
    WireParts(y);
    var (a, b) := (TypeWidth(x.wire), TypeWidth(y.wire));
    var (k, l) := (LengthWidth(x.wire), LengthWidth(y.wire));
    FormOrder(x.wire, y.wire);
    FormOrder(x.wire[a..], y.wire[b..]);
    var (p, q) := (x.wire[a..][..k], y.wire[b..][..l]);
    hide TypeWidth, LengthWidth;
    if a < b || (a == b && x.typ < y.typ) {
      BelowExtends(x.wire[..a], y.wire[..b], p + x.value, q + y.value);
    } else {
      if k < l || (k == l && |x.value| < |y.value|) {
        BelowExtends(p, q, x.value, y.value);
      } else {
        BelowAfter(p, x.value, y.value);
      }
      BelowAfter(x.wire[..a], p + x.value, q + y.value);
    }
  }

  /** Where the forms of the types or, for equal types, of the lengths differ in width, the greater component
      has the wider one. */
  predicate FormsComparable(x: Object, y: Object)
    requires x.wire.Some? && y.wire.Some?
  {
    var (a, b) := (TypeWidth(x.wire.value), TypeWidth(y.wire.value));
    var (k, l) := (LengthWidth(x.wire.value), LengthWidth(y.wire.value));
    if a != b then (if a < b then Less(x.c, y.c) else Less(y.c, x.c))
    else if x.c.typ == y.c.typ && k != l then (if k < l then Less(x.c, y.c) else Less(y.c, x.c))
    else true
  }

  function Encoded(x: Object): Element
    requires x.wire.Some?
  {
    Element(x.c.typ, x.c.value, x.wire.value)
  }

  /** The shortcut on any two encodings, shortest or not: right exactly when their forms are comparable. */
  lemma ShortcutPairExact(x: Object, y: Object)
    requires x.wire.Some? && y.wire.Some? && Consistent(x) && Consistent(y)
    ensures Agree(x, y) <==> FormsComparable(x, y)
  {
    hide WellFormed, TypeWidth, LengthWidth, Memcmp;
    var (e, f) := (Encoded(x), Encoded(y));
    LessIsTotalOrder(x.c, y.c, x.c);
    if WireLess(e, f) {
      WireLessIsBelow(e, f);
      MemcmpOfBelow(e.wire, f.wire);
    } else if WireLess(f, e) {
      WireLessIsBelow(f, e);
      MemcmpOfBelow(f.wire, e.wire);
    } else {
      WiresEqual(e, f);
      MemcmpSign(e.wire, f.wire, |e.wire|);
    }
  }

  lemma WiresEqual(x: Element, y: Element)
    requires WellFormed(x) && WellFormed(y) && !WireLess(x, y) && !WireLess(y, x)
    ensures x == y && TypeWidth(x.wire) == TypeWidth(y.wire) && LengthWidth(x.wire) == LengthWidth(y.wire)
  {
    hide WellFormed, ReadVarNumber;
    WireParts(x);
    WireParts(y);
    FormOrder(x.wire, y.wire);
    FormOrder(x.wire[TypeWidth(x.wire)..], y.wire[TypeWidth(y.wire)..]);
    NumericOrder(x.value, y.value);
    NumericOrder(y.value, x.value);
  }

  /** Type 8 in three octets is a readable form of a component without a value. */
  lemma LongFormReads()
    ensures WellFormed(Element(GENERIC, [], [253, 0, 8, 0]))
  {
    var w := [253, 0, 8, 0];
    LongFormType(w);
    assert w[3..] == [0];
    assert ReadVarNumber(w[3..]) == Some((0, 1));
    hide ReadVarNumber, BlockOfSpan;
    ElementOfHeader(w, GENERIC, 3, 0, 1);
    assert w[..4] == w;
    assert w[4..4] == [];
  }

  lemma LongFormType(w: seq<Byte>)
    requires w == [253, 0, 8, 0]
    ensures ReadVarNumber(w) == Some((GENERIC, 3))
  {
    hide BigEndian;
    assert BigEndian([]) == 0 by {
      EmptyIsZero();
    }
    BigEndianSnoc([], 0);
    BigEndianSnoc([0], 8);
    assert [] + [0] == [0];
    assert [0] + [8] == [0, 8];
    assert w[1..3] == [0, 8];
  }

  /** Such a component is below the one of type 9, and compares above it. */
  lemma LongFormMisordered()
    ensures var x := Object(Component(GENERIC, []), Some([253, 0, 8, 0]));
      var y := Object(Component(GENERIC + 1, []), Some([9, 0]));
      && Consistent(x) && Consistent(y) && !Shortest(x) && Shortest(y)
      && Less(x.c, y.c) && Compare(x, y) > 0
  {
    hide WellFormed;
    LongFormReads();
    assert |WireOf(GENERIC, [])| == 2;
    assert WireOf(GENERIC + 1, []) == [9, 0] by {
      assert EncodeVarNumber(9) == [9] && EncodeVarNumber(0) == [0];
    }
    MakeElementWellFormed(GENERIC + 1, []);
  }

  // ---- field by field ----

  /** The sizes differ in a way that survives the conversion to int. */
  predicate SizesComparable(m: nat, n: nat) {
    || m == n
    || (m > n && 0 < (m - n) % TWO_32 < TWO_31)
    || (m < n && TWO_31 <= (m - n) % TWO_32)
  }

  /** The code compares as many octets as the left value has, so it would run past a shorter right value
      when the difference of the sizes is taken for zero. */
  predicate ReadsPast(x: Object, y: Object) {
    && (x.wire.None? || y.wire.None?) && x.c.typ == y.c.typ
    && |x.c.value| > |y.c.value| && (|x.c.value| - |y.c.value|) % TWO_32 == 0
  }

  /** Types, sizes or, where a difference of the sizes is taken for zero, the first octets decide rightly. */
  predicate FieldsComparable(x: Component, y: Component) {
    || x.typ != y.typ
    || SizesComparable(|x.value|, |y.value|)
    || (|x.value| < |y.value| && (|y.value| - |x.value|) % TWO_32 == 0 && Below(x.value, y.value[..|x.value|]))
  }

  /** Field-by-field comparison, for want of an encoding: right exactly for comparable fields, which all
      fields below 2^31 octets are. */
  lemma FieldsAgree(x: Object, y: Object)
    requires (x.wire.None? || y.wire.None?) && Valid(x.c) && Valid(y.c) && !ReadsPast(x, y)
    ensures Agree(x, y) <==> FieldsComparable(x.c, y.c)
    ensures |x.c.value| < TWO_31 && |y.c.value| < TWO_31 ==> FieldsComparable(x.c, y.c)
  {
    hide ToInt32, SizesComparable, Below, Memcmp;
    LessIsTotalOrder(x.c, y.c, x.c);
    var (v, w) := (x.c.value, y.c.value);
    ToInt32OfSmall((x.c.typ as int) - y.c.typ);
    SizeDifference(|v|, |w|);
    if x.c.typ == y.c.typ && |v| <= |w| && (|w| - |v|) % TWO_32 == 0 {
      MemcmpSign(v, w, |v|);
      assert v[..|v|] == v && w[..|w|] == w;
    }
  }

  /** The difference of two sizes as an int. */
  lemma SizeDifference(m: nat, n: nat)
    ensures ToInt32((m as int) - n) == 0 <==> (if m <= n then (n - m) % TWO_32 == 0 else (m - n) % TWO_32 == 0)
    ensures m != n ==> (SizesComparable(m, n) <==> Sign(ToInt32((m as int) - n)) == if m < n then -1 else 1)
    ensures m == n || (m < TWO_31 && n < TWO_31) ==> SizesComparable(m, n)
  {
  }

  /** A value of 2^31 octets compares below the empty value. */
  lemma HugeValueMisordered()
    ensures var x := Object(Component(GENERIC, Zeros(TWO_31)), None);
      var y := Object(Component(GENERIC, []), None);
      Less(y.c, x.c) && Compare(x, y) < 0
  {
  }

  function Zeros(n: nat): (r: seq<Byte>)
    ensures |r| == n
  {
    seq(n, _ => 0)
  }

  /** Both paths, for all components the code can compare: right exactly when the forms or the fields that
      are compared are comparable. */
  lemma CompareExact(x: Object, y: Object)
    requires Valid(x.c) && Valid(y.c) && Consistent(x) && Consistent(y) && !ReadsPast(x, y)
    ensures Agree(x, y) <==>
      if x.wire.Some? && y.wire.Some? then FormsComparable(x, y) else FieldsComparable(x.c, y.c)
  {
    if x.wire.Some? && y.wire.Some? {
      ShortcutPairExact(x, y);
    } else {
      FieldsAgree(x, y);
    }
  }

  /** Packets are far below 2^31 octets; there the two paths agree with canonical order. */
  predicate Ordinary(x: Object) {
    Valid(x.c) && Consistent(x) && Shortest(x) && |x.c.value| < TWO_31
  }

  lemma CompareAgrees(x: Object, y: Object)
    requires Ordinary(x) && Ordinary(y)
    ensures Agree(x, y) && (Compare(x, y) == 0 <==> x.c == y.c)
  {
    LessIsTotalOrder(x.c, y.c, x.c);
    if x.wire.Some? && y.wire.Some? {
      ShortcutAgrees(x, y);
    } else {
      FieldsAgree(x, y);
    }
  }

  // ---- successors ----

  /** One more than `v` as a number of the same width, and whether that overflowed. */
  function Increment(v: seq<Byte>): (r: (bool, seq<Byte>))
    ensures |r.1| == |v|
  {
    if v == [] then (true, [])
    else
      var (rest, last) := (v[..|v| - 1], v[|v| - 1]);
      if last == 255 then (Increment(rest).0, Increment(rest).1 + [0]) else (false, rest + [last + 1])
  }

  lemma {:induction false} IncrementIsNumeric(v: seq<Byte>)
    ensures Increment(v).0 <==> BigEndian(v) == Pow256(|v|) - 1
    ensures !Increment(v).0 ==> BigEndian(Increment(v).1) == BigEndian(v) + 1
    ensures Increment(v).0 ==> BigEndian(Increment(v).1) == 0
  {
    if v != [] {
      var (rest, last) := (v[..|v| - 1], v[|v| - 1]);
      IncrementIsNumeric(rest);
      BigEndianBound(rest);
      if last == 255 {
        BigEndianSnoc(Increment(rest).1, 0);
      } else {
        BigEndianSnoc(rest, last + 1);
      }
    }
  }

  function MinValue(typ: nat): seq<Byte> {
    if typ in {IMPLICIT_DIGEST, PARAMETERS_DIGEST} then Zeros(DIGEST_SIZE) else []
  }

  function Successor(c: Component): Component {
    var (isOverflow, next) := Increment(c.value);
    if !isOverflow then Component(c.typ, next)
    else if c.typ in {IMPLICIT_DIGEST, PARAMETERS_DIGEST} then Component(c.typ + 1, MinValue(c.typ + 1))
    else Component(c.typ, next + [0])
  }

  /** The successor has another type: all octets of a digest are 0xFF. */
  predicate Jumps(c: Component) {
    c.typ in {IMPLICIT_DIGEST, PARAMETERS_DIGEST} && Increment(c.value).0
  }

  /** The successor of a valid component is valid, and the successor of any component is the next one in
      canonical order: of all components, or of the valid ones where it jumps from a valid digest. */
  lemma SuccessorIsNext(c: Component)
    ensures Less(c, Successor(c)) && (Valid(c) ==> Valid(Successor(c)))
    ensures !Jumps(c) ==> forall z :: !(Less(c, z) && Less(z, Successor(c)))
    ensures Valid(c) ==> forall z :: Valid(z) ==> !(Less(c, z) && Less(z, Successor(c)))
  {
    var s := Successor(c);
    IncrementIsNumeric(c.value);
    LessIsNumeric(c, s);
    BigEndianSnoc(Increment(c.value).1, 0);
    BigEndianOfZeros(DIGEST_SIZE);
    forall z | !Jumps(c) || (Valid(c) && Valid(z))
      ensures !(Less(c, z) && Less(z, s))
    {
      LessIsNumeric(c, z);
      LessIsNumeric(z, s);
      BigEndianBound(z.value);
    }
  }

  /** Where it jumps, invalid components lie between: the condition cannot be dropped. */
  lemma JumpSkipsInvalid(c: Component)
    requires Jumps(c)
    ensures var z := Component(c.typ, c.value + [0]);
      Less(c, z) && Less(z, Successor(c)) && (Valid(c) ==> !Valid(z))
  {
  }

  lemma {:induction false} BigEndianOfZeros(n: nat)
    ensures BigEndian(Zeros(n)) == 0
  {
    if n > 0 {
      BigEndianOfZeros(n - 1);
      assert Zeros(n)[..n - 1] == Zeros(n - 1);
    }
  }

  /** ensureValid, in numbers: types are 1 to 65535, and those of digests, 1 and 2, have 32 octets. */
  lemma ValidMeans(c: Component)
    ensures Valid(c) <==> 0 < c.typ < 65536 && (c.typ < 3 ==> |c.value| == 32)
  {
  }

  /** The least valid component: an implicit digest of zeros. */
  lemma LeastComponent(z: Component)
    requires Valid(z)
    ensures !Less(z, Component(IMPLICIT_DIGEST, Zeros(DIGEST_SIZE)))
  {
    LessIsNumeric(z, Component(IMPLICIT_DIGEST, Zeros(DIGEST_SIZE)));
    BigEndianOfZeros(DIGEST_SIZE);
  }

  /** The carry loop of getSuccessorImpl: add one to `v` from its last octet, writing in front. */
  method WriteIncrement(enc: Encoder, v: seq<Byte>) returns (isOverflow: bool)
    requires enc.Valid() && enc.Contents() == []
    modifies enc, enc.buffer
    ensures enc.Valid() && (enc.buffer == old(enc.buffer) || fresh(enc.buffer))
    ensures (isOverflow, enc.Contents()) == Increment(v)
  {
    isOverflow := true;
    var i := |v|;
    assert v[..i] == v && Increment(v).1 + [] == Increment(v).1;
    while isOverflow && i > 0
      invariant 0 <= i <= |v| && enc.Valid() && (enc.buffer == old(enc.buffer) || fresh(enc.buffer))
      invariant Increment(v) ==
        if isOverflow then (Increment(v[..i]).0, Increment(v[..i]).1 + enc.Contents())
        else (false, v[..i] + enc.Contents())
      decreases i
    {
      var newValue := ((v[i - 1] as int) + 1) % 256;
      ghost var t := enc.Contents();
      assert v[..i][..i - 1] == v[..i - 1];
      var _ := enc.PrependRange([newValue]);
      Associative(Increment(v[..i - 1]).1, [0], t);
      Associative(v[..i - 1], [newValue], t);
      isOverflow := newValue == 0;
      i := i - 1;
    }
    assert isOverflow ==> v[..0] == [] && [] + enc.Contents() == enc.Contents();
    var _ := enc.PrependRange(v[..i]);
  }

  /** getSuccessorImpl, into an encoder with room at both ends; a carry out of the first octet makes
      the value one octet longer. */
  method SuccessorImpl(c: Component) returns (isOverflow: bool, wire: seq<Byte>)
    requires c.typ < TWO_64 && |c.value| + 1 < TWO_64
    ensures isOverflow == Increment(c.value).0
    ensures wire == WireOf(c.typ, Increment(c.value).1 + if isOverflow then [0] else [])
  {
    hide EncodeVarNumber, Increment;
    var enc := new Encoder(|WireOf(c.typ, c.value)| + 9, 9);
    isOverflow := WriteIncrement(enc, c.value);
    ghost var value := Increment(c.value).1 + if isOverflow then [0] else [];
    if isOverflow {
      var _ := enc.AppendRange([0]);
    }
    assert enc.Contents() == value;
    var _ := enc.PrependVarNumber(enc.end - enc.begin);
    var _ := enc.PrependVarNumber(c.typ);
    wire := enc.buffer[enc.begin..enc.end];
    Associative(EncodeVarNumber(c.typ), EncodeVarNumber(|value|), value);
  }

  /** Component::getSuccessor. */
  method GetSuccessor(c: Component) returns (r: Component)
    requires Valid(c) && |c.value| + 1 < TWO_64
    ensures r == Successor(c)
  {
    var isOverflow, wire := SuccessorImpl(c);
    if isOverflow && c.typ in {IMPLICIT_DIGEST, PARAMETERS_DIGEST} {
      return Component(c.typ + 1, MinValue(c.typ + 1));
    }
    ghost var value := Increment(c.value).1 + if isOverflow then [0] else [];
    MakeElementWellFormed(c.typ, value);
    var block := BlockOfSpan(wire);
    r := Component(block.value.typ, block.value.value);
    assert Increment(c.value).1 + [] == Increment(c.value).1;
  }
}
