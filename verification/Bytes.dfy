/** Machine integers, byte strings, the big-endian integer layout, and the
    lexicographic key order in which both databases iterate. */
module Bytes {
  const TWO_64: int := 0x1_0000_0000_0000_0000

  type byte = x: int | 0 <= x < 256
  type uint64 = x: int | 0 <= x < TWO_64

  datatype Option<+T> = None | Some(value: T)

  /** The bytes of an ASCII literal. */
  function Ascii(s: string): (b: seq<byte>)
    ensures |b| == |s|
  {
    seq(|s|, i requires 0 <= i < |s| => (s[i] as int) % 256)
  }

  // ---------- Big-endian integers ----------

  function Pow256(n: nat): (p: nat)
    ensures p > 0
  {
    if n == 0 then 1 else 256 * Pow256(n - 1)
  }

  lemma Pow256Eight()
    ensures Pow256(8) == TWO_64
  {
    assert Pow256(2) == 0x1_0000;
    assert Pow256(4) == 0x1_0000_0000;
    assert Pow256(6) == 0x1_0000_0000_0000;
  }

  function BigEndian(v: nat, n: nat): (b: seq<byte>)
    ensures |b| == n
  {
    if n == 0 then [] else BigEndian(v / 256, n - 1) + [v % 256]
  }

  function BigEndianValue(b: seq<byte>): nat {
    if b == [] then 0 else 256 * BigEndianValue(b[..|b| - 1]) + b[|b| - 1]
  }

  lemma {:induction false} BigEndianRoundTrip(v: nat, n: nat)
    requires v < Pow256(n)
    ensures BigEndianValue(BigEndian(v, n)) == v
  {
    if n > 0 {
      BigEndianRoundTrip(v / 256, n - 1);
      assert BigEndian(v, n)[..n - 1] == BigEndian(v / 256, n - 1);
    }
  }

  lemma {:induction false} BigEndianValueRoundTrip(b: seq<byte>)
    ensures BigEndianValue(b) < Pow256(|b|)
    ensures BigEndian(BigEndianValue(b), |b|) == b
  {
    if b != [] {
      BigEndianValueRoundTrip(b[..|b| - 1]);
      assert BigEndianValue(b) / 256 == BigEndianValue(b[..|b| - 1]);
      assert b == b[..|b| - 1] + [b[|b| - 1]];
    }
  }

  function Uint64Bytes(v: uint64): (b: seq<byte>)
    ensures |b| == 8
  {
    BigEndian(v, 8)
  }

  /** The first eight bytes as an unsigned integer; the caller checks the length. */
  function Uint64Of(b: seq<byte>): (v: uint64)
    requires |b| >= 8
  {
    BigEndianValueRoundTrip(b[..8]);
    Pow256Eight();
    BigEndianValue(b[..8])
  }

  lemma Uint64RoundTrip(v: uint64)
    ensures Uint64Of(Uint64Bytes(v)) == v
  {
    Pow256Eight();
    BigEndianRoundTrip(v, 8);
    assert Uint64Bytes(v)[..8] == Uint64Bytes(v);
  }

  // ---------- Lexicographic order ----------

  predicate LexLess(a: seq<byte>, b: seq<byte>) {
    b != [] && (a == [] || a[0] < b[0] || (a[0] == b[0] && LexLess(a[1..], b[1..])))
  }

  predicate HasPrefix(k: seq<byte>, p: seq<byte>) {
    |p| <= |k| && k[..|p|] == p
  }

  lemma {:induction false} LexIrreflexive(a: seq<byte>)
    ensures !LexLess(a, a)
  {
    if a != [] { LexIrreflexive(a[1..]); }
  }

  lemma {:induction false} LexTransitive(a: seq<byte>, b: seq<byte>, c: seq<byte>)
    requires LexLess(a, b) && LexLess(b, c)
    ensures LexLess(a, c)
  {
    if a != [] && a[0] == b[0] && b[0] == c[0] {
      LexTransitive(a[1..], b[1..], c[1..]);
    }
  }

  lemma {:induction false} LexTotal(a: seq<byte>, b: seq<byte>)
    ensures LexLess(a, b) || LexLess(b, a) || a == b
  {
    if a != [] && b != [] && a[0] == b[0] {
      LexTotal(a[1..], b[1..]);
      assert a == [a[0]] + a[1..] && b == [b[0]] + b[1..];
    }
  }

  /** Keys that share a prefix are ordered by what follows it. */
  lemma {:induction false} LexCommonPrefix(p: seq<byte>, a: seq<byte>, b: seq<byte>)
    ensures LexLess(p + a, p + b) <==> LexLess(a, b)
  {
    if p == [] {
      assert p + a == a && p + b == b;
    } else {
      LexCommonPrefix(p[1..], a, b);
      assert (p + a)[1..] == p[1..] + a && (p + b)[1..] == p[1..] + b;
    }
  }

  lemma PrefixStep(k: seq<byte>, p: seq<byte>)
    requires p != [] && k != []
    ensures HasPrefix(k, p) <==> k[0] == p[0] && HasPrefix(k[1..], p[1..])
  {
    if |p| <= |k| {
      assert k[..|p|] == [k[0]] + k[1..][..|p| - 1];
      assert p == [p[0]] + p[1..];
    }
  }

  /** The keys with a given prefix are contiguous: past the first later key
      without it there are no more of them. */
  lemma {:induction false} PrefixContiguous(p: seq<byte>, y: seq<byte>, z: seq<byte>)
    requires !LexLess(y, p) && !HasPrefix(y, p) && LexLess(y, z)
    ensures !HasPrefix(z, p)
  {
    if p != [] && y != [] {
      PrefixStep(y, p);
      PrefixStep(z, p);
      if y[0] == z[0] && p[0] == y[0] {
        PrefixContiguous(p[1..], y[1..], z[1..]);
      }
    }
  }

  lemma PrefixNotLess(p: seq<byte>, k: seq<byte>)
    requires HasPrefix(k, p)
    ensures !LexLess(k, p)
  {
    var rest := k[|p|..];
    assert k == p + rest;
    LexCommonPrefix(p, rest, []);
    assert p + [] == p;
  }

  lemma {:induction false} LexAppendOne(a: seq<byte>, x: byte, b: seq<byte>, y: byte)
    requires |a| == |b|
    ensures LexLess(a + [x], b + [y]) <==> LexLess(a, b) || (a == b && x < y)
  {
    if a == [] {
      assert a + [x] == [x] && b + [y] == [y];
    } else {
      LexAppendOne(a[1..], x, b[1..], y);
      assert (a + [x])[1..] == a[1..] + [x] && (b + [y])[1..] == b[1..] + [y];
      if a[0] == b[0] {
        assert a == [a[0]] + a[1..] && b == [b[0]] + b[1..];
      }
    }
  }

  lemma DigitOrder(i: nat, j: nat)
    ensures i < j <==> i / 256 < j / 256 || (i / 256 == j / 256 && i % 256 < j % 256)
  {
  }

  /** Big-endian byte order is numeric order. */
  lemma {:induction false} BigEndianOrder(i: nat, j: nat, n: nat)
    requires i < Pow256(n) && j < Pow256(n)
    ensures LexLess(BigEndian(i, n), BigEndian(j, n)) <==> i < j
  {
    if n > 0 {
      BigEndianOrder(i / 256, j / 256, n - 1);
      BigEndianRoundTrip(i / 256, n - 1);
      BigEndianRoundTrip(j / 256, n - 1);
      DigitOrder(i, j);
      hide LexLess;
      LexAppendOne(BigEndian(i / 256, n - 1), i % 256, BigEndian(j / 256, n - 1), j % 256);
    }
  }

  // ---------- Ordered enumeration of a finite key set ----------

  ghost predicate StrictlySorted(ks: seq<seq<byte>>) {
    forall i, j :: 0 <= i < j < |ks| ==> LexLess(ks[i], ks[j])
  }

  ghost predicate IsLeast(k: seq<byte>, s: set<seq<byte>>) {
    k in s && forall x :: x in s ==> x == k || LexLess(k, x)
  }

  lemma {:induction false} LeastExists(s: set<seq<byte>>)
    requires s != {}
    ensures exists k :: IsLeast(k, s)
  {
    var k :| k in s;
    if s == {k} {
      assert IsLeast(k, s);
    } else {
      LeastExists(s - {k});
      var m :| IsLeast(m, s - {k});
      LexTotal(k, m);
      if LexLess(k, m) {
        forall x | x in s ensures x == k || LexLess(k, x) {
          if x != k && x != m { LexTransitive(k, m, x); }
        }
        assert IsLeast(k, s);
      } else {
        assert IsLeast(m, s);
      }
    }
  }

  ghost function Least(s: set<seq<byte>>): (k: seq<byte>)
    requires s != {}
    ensures IsLeast(k, s)
  {
    LeastExists(s);
    var k :| IsLeast(k, s);
    k
  }

  /** The keys in database iteration order. */
  ghost function SortedKeys(s: set<seq<byte>>): (ks: seq<seq<byte>>)
    ensures StrictlySorted(ks)
    ensures forall k :: k in ks <==> k in s
  {
    if s == {} then [] else [Least(s)] + SortedKeys(s - {Least(s)})
  }

  /** A strictly sorted listing of a set is the only one. */
  lemma {:induction false} SortedUnique(ks: seq<seq<byte>>, s: set<seq<byte>>)
    requires StrictlySorted(ks)
    requires forall k :: k in ks <==> k in s
    ensures ks == SortedKeys(s)
  {
    if ks == [] {
      assert s == {};
    } else {
      assert ks[0] in s;
      var k := Least(s);
      var i :| 0 <= i < |ks| && ks[i] == k;
      assert i == 0 by {
        LexIrreflexive(k);
        if LexLess(ks[0], k) && LexLess(k, ks[0]) { LexTransitive(k, ks[0], k); }
      }
      forall x ensures x in ks[1..] <==> x in s - {k} {
        LexIrreflexive(k);
        if x in s - {k} {
          var j :| 0 <= j < |ks| && ks[j] == x;
          assert ks[1..][j - 1] == x;
        }
      }
      SortedUnique(ks[1..], s - {k});
    }
  }

  function KeysFrom(db: map<seq<byte>, seq<byte>>, start: seq<byte>): set<seq<byte>> {
    set k | k in db && !LexLess(k, start)
  }

  /** A database iterator positioned at `start`: every key not below it, in order. */
  method OpenIterator(db: map<seq<byte>, seq<byte>>, start: seq<byte>) returns (ks: seq<seq<byte>>)
    ensures ks == SortedKeys(KeysFrom(db, start))
  {
    var left := KeysFrom(db, start);
    ghost var all := left;
    ks := [];
    while left != {}
      invariant left <= all && StrictlySorted(ks)
      invariant forall k :: k in ks <==> k in all - left
      invariant forall i, k :: 0 <= i < |ks| && k in left ==> LexLess(ks[i], k)
      decreases left
    {
      LeastExists(left);
      var k :| k in left && forall x :: x in left ==> x == k || LexLess(k, x);
      ks := ks + [k];
      left := left - {k};
    }
    SortedUnique(ks, all);
  }
}
