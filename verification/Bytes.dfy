/** Byte strings, their order, and numbers in them. */
module Bytes {

  type byte = x: int | 0 <= x < 256

  type Bytes = seq<byte>

  // ---------- the order of byte strings ----------

  /** Lexicographic order, the order of keys in the database. */
  predicate Less(a: Bytes, b: Bytes)
  {
    b != [] && (a == [] || a[0] < b[0] || (a[0] == b[0] && Less(a[1..], b[1..])))
  }

  predicate AtMost(a: Bytes, b: Bytes)
  {
    a == b || Less(a, b)
  }

  lemma {:induction false} LessTotal(a: Bytes, b: Bytes)
    ensures Less(a, b) || a == b || Less(b, a)
  {
    if a != [] && b != [] && a[0] == b[0] {
      LessTotal(a[1..], b[1..]);
      assert a == [a[0]] + a[1..] && b == [b[0]] + b[1..];
    }
  }

  lemma {:induction false} LessIrreflexive(a: Bytes)
    ensures !Less(a, a)
  {
    if a != [] {
      LessIrreflexive(a[1..]);
    }
  }

  lemma {:induction false} LessTransitive(a: Bytes, b: Bytes, c: Bytes)
    requires Less(a, b) && Less(b, c)
    ensures Less(a, c)
  {
    if a != [] && a[0] == b[0] == c[0] {
      LessTransitive(a[1..], b[1..], c[1..]);
    }
  }

  lemma AtMostTransitive(a: Bytes, b: Bytes, c: Bytes)
    requires AtMost(a, b) && AtMost(b, c)
    ensures AtMost(a, c)
    ensures Less(a, b) || Less(b, c) ==> Less(a, c)
  {
    if Less(a, b) && Less(b, c) {
      LessTransitive(a, b, c);
    }
  }

  lemma NotBoth(a: Bytes, b: Bytes)
    requires Less(a, b)
    ensures !AtMost(b, a)
  {
    LessIrreflexive(a);
    if Less(b, a) {
      LessTransitive(a, b, a);
    }
  }

  /** Strings that start with equally long parts compare by those parts first. */
  lemma {:induction false} LessConcat(a: Bytes, a': Bytes, b: Bytes, b': Bytes)
    requires |a| == |b|
    ensures Less(a + a', b + b') <==> Less(a, b) || (a == b && Less(a', b'))
  {
    if a == [] {
      assert a + a' == a' && b + b' == b';
    } else {
      LessConcat(a[1..], a', b[1..], b');
      assert (a + a')[1..] == a[1..] + a' && (b + b')[1..] == b[1..] + b';
      if a[0] == b[0] {
        assert a == [a[0]] + a[1..] && b == [b[0]] + b[1..];
      }
    }
  }

  /** A string against one no longer than it: only the common length counts. */
  lemma LessPrefix(k: Bytes, p: Bytes)
    requires |p| <= |k|
    ensures Less(k, p) <==> Less(k[..|p|], p)
    ensures AtMost(p, k) <==> AtMost(p, k[..|p|])
  {
    assert k == k[..|p|] + k[|p|..] && p == p + [];
    LessConcat(k[..|p|], k[|p|..], p, []);
    LessConcat(p, [], k[..|p|], k[|p|..]);
    LessTotal(p, k);
    LessTotal(p, k[..|p|]);
    if Less(p, k) { NotBoth(p, k); }
    if Less(p, k[..|p|]) { NotBoth(p, k[..|p|]); }
  }

  // ---------- numbers ----------

  function Pow256(w: nat): (r: nat)
    ensures r > 0
  {
    if w == 0 then 1 else 256 * Pow256(w - 1)
  }

  /** The low w bytes of n, least significant first: the serializer's form. */
  function LittleEndian(n: nat, w: nat): (r: Bytes)
    ensures |r| == w
  {
    if w == 0 then [] else [n % 256] + LittleEndian(n / 256, w - 1)
  }

  /** The same bytes, most significant first: the form in keys. */
  function BigEndian(n: nat, w: nat): (r: Bytes)
    ensures |r| == w
  {
    if w == 0 then [] else BigEndian(n / 256, w - 1) + [n % 256]
  }

  function Number(b: Bytes): nat
  {
    if b == [] then 0 else Number(b[..|b| - 1]) * 256 + b[|b| - 1]
  }

  function Reverse(b: Bytes): (r: Bytes)
    ensures |r| == |b|
  {
    if b == [] then [] else Reverse(b[1..]) + [b[0]]
  }

  lemma {:induction false} ReverseLittleEndian(n: nat, w: nat)
    ensures Reverse(LittleEndian(n, w)) == BigEndian(n, w)
  {
    if w > 0 {
      ReverseLittleEndian(n / 256, w - 1);
      assert LittleEndian(n, w)[1..] == LittleEndian(n / 256, w - 1);
    }
  }

  lemma {:induction false} NumberBigEndian(n: nat, w: nat)
    requires n < Pow256(w)
    ensures Number(BigEndian(n, w)) == n
  {
    if w > 0 {
      NumberBigEndian(n / 256, w - 1);
      assert BigEndian(n, w)[..w - 1] == BigEndian(n / 256, w - 1);
    }
  }

  lemma {:induction false} NumberBound(b: Bytes)
    ensures Number(b) < Pow256(|b|)
  {
    if b != [] {
      NumberBound(b[..|b| - 1]);
    }
  }

  lemma {:induction false} BigEndianNumber(b: Bytes)
    ensures BigEndian(Number(b), |b|) == b
  {
    if b != [] {
      BigEndianNumber(b[..|b| - 1]);
      assert b == b[..|b| - 1] + [b[|b| - 1]];
    }
  }

  /** Byte order of big-endian numbers is the order of the numbers. */
  lemma {:induction false} NumberOrder(a: Bytes, b: Bytes)
    requires |a| == |b|
    ensures Less(a, b) <==> Number(a) < Number(b)
  {
    if a == [] {
    } else {
      var n := |a| - 1;
      NumberOrder(a[..n], b[..n]);
      assert a == a[..n] + [a[n]] && b == b[..n] + [b[n]];
      LessConcat(a[..n], [a[n]], b[..n], [b[n]]);
      NumberInjective(a[..n], b[..n]);
      assert Less([a[n]], [b[n]]) <==> a[n] < b[n];
    }
  }

  lemma NumberInjective(a: Bytes, b: Bytes)
    requires |a| == |b|
    ensures Number(a) == Number(b) <==> a == b
  {
    BigEndianNumber(a);
    BigEndianNumber(b);
  }
}
