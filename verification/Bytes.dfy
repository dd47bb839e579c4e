/** Octets, network-order numbers and memcmp. */
module Bytes {

  type Byte = b: int | 0 <= b < 256

  const TWO_32: nat := 0x1_0000_0000
  const TWO_63: int := 0x8000_0000_0000_0000
  const TWO_64: nat := 0x1_0000_0000_0000_0000

  datatype Option<+T> = None | Some(value: T)

  datatype Result<+T, +E> = Ok(value: T) | Err(error: E)

  lemma Associative<T>(a: seq<T>, b: seq<T>, c: seq<T>)
    ensures a + (b + c) == (a + b) + c
  {
  }

  /** If `s` continues from `i` with `a` and then `b`, that is where they are. */
  lemma Tails(s: seq<Byte>, i: nat, a: seq<Byte>, b: seq<Byte>)
    requires i <= |s| && s[i..] == a + b
    ensures i + |a| <= |s| && s[i..i + |a|] == a && s[i + |a|..] == b
  {
    assert s[i..i + |a|] == (a + b)[..|a|];
    assert s[i + |a|..] == (a + b)[|a|..];
  }

  lemma Join(s: seq<Byte>, i: nat, j: nat, k: nat)
    requires i <= j <= k <= |s|
    ensures s[i..j] + s[j..k] == s[i..k]
  {
  }

  lemma SplitAt(s: seq<Byte>, i: nat)
    requires i <= |s|
    ensures s == s[..i] + s[i..]
  {
  }

  lemma DropTake(s: seq<Byte>, t: seq<Byte>, a: nat, n: nat)
    requires a <= n <= |s| && n <= |t| && s[..n] == t[..n]
    ensures s[a..][..n - a] == t[a..][..n - a] && s[a..n] == t[a..n]
  {
    assert s[a..][..n - a] == s[..n][a..] && t[a..][..n - a] == t[..n][a..];
    assert s[a..n] == s[..n][a..] && t[a..n] == t[..n][a..];
  }

  function Pow256(n: nat): (r: nat)
    ensures r > 0
  {
    if n == 0 then 1 else 256 * Pow256(n - 1)
  }

  /** The number that a run of octets denotes in network byte order. */
  function BigEndian(s: seq<Byte>): nat {
    if s == [] then 0 else BigEndian(s[..|s| - 1]) * 256 + s[|s| - 1]
  }

  /** `n` in network byte order on `width` octets; higher digits are cut off, as a C cast does. */
  function ToBytes(n: nat, width: nat): (r: seq<Byte>)
    ensures |r| == width
  {
    if width == 0 then [] else ToBytes(n / 256, width - 1) + [n % 256]
  }

  lemma BigEndianSnoc(s: seq<Byte>, b: Byte)
    ensures BigEndian(s + [b]) == BigEndian(s) * 256 + b
  {
    assert (s + [b])[..|s|] == s;
  }

  lemma {:induction false} BigEndianBound(s: seq<Byte>)
    ensures BigEndian(s) < Pow256(|s|)
  {
    if s != [] {
      BigEndianBound(s[..|s| - 1]);
    }
  }

  lemma {:induction false} BigEndianOfToBytes(n: nat, width: nat)
    requires n < Pow256(width)
    ensures BigEndian(ToBytes(n, width)) == n
  {
    if width > 0 {
      BigEndianOfToBytes(n / 256, width - 1);
      BigEndianSnoc(ToBytes(n / 256, width - 1), n % 256);
    }
  }

  lemma {:induction false} ToBytesOfBigEndian(s: seq<Byte>)
    ensures ToBytes(BigEndian(s), |s|) == s
  {
    if s != [] {
      ToBytesOfBigEndian(s[..|s| - 1]);
      assert s == s[..|s| - 1] + [s[|s| - 1]];
    }
  }

  lemma Pow256Values()
    ensures Pow256(1) == 256 && Pow256(2) == 0x1_0000 && Pow256(4) == TWO_32 && Pow256(8) == TWO_64
  {
    assert Pow256(2) == 256 * Pow256(1);
    assert Pow256(4) == 256 * (256 * Pow256(2));
    assert Pow256(6) == 256 * (256 * Pow256(4));
    assert Pow256(8) == 256 * (256 * Pow256(6));
  }

  /** `a` and `b` share the octets before `k` and `a` has the smaller octet at `k`. */
  predicate BelowAt(a: seq<Byte>, b: seq<Byte>, k: nat) {
    k < |a| && k < |b| && a[..k] == b[..k] && a[k] < b[k]
  }

  /** `a` and `b` differ inside their common length, and `a` is smaller there. */
  predicate Below(a: seq<Byte>, b: seq<Byte>) {
    exists k: nat :: k < |a| && BelowAt(a, b, k)
  }

  lemma BelowExtends(a: seq<Byte>, b: seq<Byte>, x: seq<Byte>, y: seq<Byte>)
    requires Below(a, b)
    ensures Below(a + x, b + y)
  {
    var k: nat :| k < |a| && BelowAt(a, b, k);
    assert (a + x)[..k] == a[..k] && (b + y)[..k] == b[..k];
    assert BelowAt(a + x, b + y, k);
  }

  lemma BelowAfter(c: seq<Byte>, a: seq<Byte>, b: seq<Byte>)
    requires Below(a, b)
    ensures Below(c + a, c + b)
  {
    var k: nat :| k < |a| && BelowAt(a, b, k);
    assert (c + a)[..|c| + k] == c + a[..k] && (c + b)[..|c| + k] == c + b[..k];
    assert BelowAt(c + a, c + b, |c| + k);
  }

  lemma BelowAsymmetric(a: seq<Byte>, b: seq<Byte>)
    requires Below(a, b)
    ensures !Below(b, a) && a != b
  {
    var k: nat :| k < |a| && BelowAt(a, b, k);
    assert forall j: nat :: !BelowAt(b, a, j);
  }

  /** On octet strings of one length, the order of the numbers is the order of the octets. */
  lemma {:induction false} NumericOrder(a: seq<Byte>, b: seq<Byte>)
    requires |a| == |b|
    ensures BigEndian(a) < BigEndian(b) <==> Below(a, b)
    ensures BigEndian(a) == BigEndian(b) <==> a == b
    decreases |a|
  {
    if a != [] {
      var n := |a| - 1;
      var (a', b') := (a[..n], b[..n]);
      NumericOrder(a', b');
      assert a == a' + [a[n]] && b == b' + [b[n]];
      if BigEndian(a') < BigEndian(b') {
        BelowExtends(a', b', [a[n]], [b[n]]);
      } else if a' == b' {
        if a[n] < b[n] {
          assert BelowAt(a, b, n);
        }
        assert forall k: nat :: BelowAt(a, b, k) ==> k == n;
      } else {
        NumericOrder(b', a');
        BelowExtends(b', a', [b[n]], [a[n]]);
        BelowAsymmetric(b, a);
      }
    }
  }

  /** C memcmp over the first `n` octets. */
  function Memcmp(a: seq<Byte>, b: seq<Byte>, n: nat): int
    requires n <= |a| && n <= |b|
  {
    if n == 0 then 0
    else if a[0] != b[0] then a[0] - b[0]
    else Memcmp(a[1..], b[1..], n - 1)
  }

  lemma {:induction false} MemcmpSign(a: seq<Byte>, b: seq<Byte>, n: nat)
    requires n <= |a| && n <= |b|
    ensures Memcmp(a, b, n) < 0 <==> Below(a[..n], b[..n])
    ensures Memcmp(a, b, n) == 0 <==> a[..n] == b[..n]
    ensures Memcmp(a, b, n) > 0 <==> Below(b[..n], a[..n])
  {
    if n > 0 {
      var (x, y) := (a[..n], b[..n]);
      if a[0] < b[0] {
        assert BelowAt(x, y, 0);
        BelowAsymmetric(x, y);
      } else if a[0] > b[0] {
        assert BelowAt(y, x, 0);
        BelowAsymmetric(y, x);
      } else {
        MemcmpSign(a[1..], b[1..], n - 1);
        assert x == [a[0]] + a[1..][..n - 1] && y == [a[0]] + b[1..][..n - 1];
        BelowCons(a[0], a[1..][..n - 1], b[1..][..n - 1]);
        BelowCons(a[0], b[1..][..n - 1], a[1..][..n - 1]);
      }
    }
  }

  lemma BelowCons(c: Byte, a: seq<Byte>, b: seq<Byte>)
    ensures Below([c] + a, [c] + b) <==> Below(a, b)
  {
    if Below(a, b) {
      BelowAfter([c], a, b);
    }
    var (x, y) := ([c] + a, [c] + b);
    if Below(x, y) {
      var k: nat :| k < |x| && BelowAt(x, y, k);
      assert x[0] == y[0] && k > 0;
      assert forall j :: 0 <= j < k ==> x[..k][j] == y[..k][j];
      assert a[..k - 1] == x[..k][1..];
      assert b[..k - 1] == y[..k][1..];
      assert BelowAt(a, b, k - 1);
    }
  }
}
