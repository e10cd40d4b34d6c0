/** The number theory behind the Miller-Rabin test: Euclid's lemma, the
    square roots of 1 modulo a prime and Fermat's little theorem. */
module Primality {
  import opened Arith

  ghost predicate IsPrime(p: int) {
    p >= 2 && forall k :: 2 <= k < p ==> p % k != 0
  }

  /** Euclid's lemma for a factor already reduced below p, by descent on a:
      p = q*a + r with 0 < r < a, and p divides r*b as well. */
  lemma {:induction false} EuclidReduced(p: int, a: int, b: int)
    requires IsPrime(p) && 0 < a < p && (a * b) % p == 0
    ensures b % p == 0
    decreases a
  {
    if a > 1 {
      var q, r := p / a, p % a;
      assert r != 0;
      var t := (a * b) / p;
      assert a * b == p * t;
      calc {
        r * b;
        (p - a * q) * b;
        p * b - q * (a * b);
        p * b - q * (p * t);
        p * (b - q * t);
      }
      ModOfMultiple(p, b - q * t, 0);
      EuclidReduced(p, r, b);
    }
  }

  /** Euclid's lemma: a prime dividing a product divides one of its factors. */
  lemma Euclid(p: int, a: int, b: int)
    requires IsPrime(p) && (a * b) % p == 0
    ensures a % p == 0 || b % p == 0
  {
    if a % p != 0 {
      ModMul(a, b, p);
      ModMul(a % p, b, p);
      ModIdempotent(a, p);
      EuclidReduced(p, a % p, b);
    }
  }

  /** Modulo a prime, 1 has no square roots other than 1 and p - 1. */
  lemma SquareRootOfOne(p: int, x: int)
    requires IsPrime(p) && 0 <= x < p && (x * x) % p == 1
    ensures x == 1 || x == p - 1
  {
    var q := (x * x) / p;
    assert x * x == p * q + 1;
    assert x != 0;
    assert (x - 1) * (x + 1) == p * q;
    ModOfMultiple(p, q, 0);
    Euclid(p, x - 1, x + 1);
    DivModUnique(x - 1, p, 0, x - 1);
    if x + 1 < p {
      DivModUnique(x + 1, p, 0, x + 1);
    }
  }

  // ---------------------------------------------------------------------
  // Fermat's little theorem, by the permutation argument: multiplying the
  // residues 1..p-1 by a unit permutes them, so their product picks up a
  // factor a^(p-1) that must be congruent to 1.

  function Prod(s: seq<int>): (r: int) {
    if s == [] then 1 else s[0] * Prod(s[1..])
  }

  lemma {:induction false} ProdAppend(s: seq<int>, t: seq<int>)
    ensures Prod(s + t) == Prod(s) * Prod(t)
  {
    if s != [] {
      assert (s + t)[0] == s[0] && (s + t)[1..] == s[1..] + t;
      ProdAppend(s[1..], t);
      calc {
        Prod(s + t);
        s[0] * Prod(s[1..] + t);
        s[0] * (Prod(s[1..]) * Prod(t));
        (s[0] * Prod(s[1..])) * Prod(t);
      }
    } else {
      assert s + t == t;
    }
  }

  /** Taking one element out of a sequence divides it out of the product. */
  lemma ProdRemove(t: seq<int>, i: int)
    requires 0 <= i < |t|
    ensures Prod(t) == t[i] * Prod(t[..i] + t[i + 1..])
  {
    var x, left, right := t[i], t[..i], t[i + 1..];
    assert t == (left + [x]) + right;
    ProdAppend(left + [x], right);
    ProdAppend(left, [x]);
    ProdAppend(left, right);
    assert Prod([x]) == x;
    var pl, pr := Prod(left), Prod(right);
    assert Prod(t) == (pl * x) * pr;
    MulRotate(pl, x, pr);
  }

  lemma MultisetRemove(t: seq<int>, i: int)
    requires 0 <= i < |t|
    ensures multiset(t[..i] + t[i + 1..]) == multiset(t) - multiset{t[i]}
  {
    assert t == t[..i] + [t[i]] + t[i + 1..];
  }

  /** Reordering a sequence does not change its product. */
  lemma {:induction false} ProdPermutation(s: seq<int>, t: seq<int>)
    requires multiset(s) == multiset(t)
    ensures Prod(s) == Prod(t)
    decreases |s|
  {
    if s != [] {
      var x := s[0];
      assert x in multiset(t);
      var i :| 0 <= i < |t| && t[i] == x;
      var rest := t[..i] + t[i + 1..];
      MultisetRemove(t, i);
      MultisetRemove(s, 0);
      ProdPermutation(s[1..], rest);
      ProdRemove(t, i);
    }
  }

  /** A product of values none of which p divides is not divisible by p. */
  lemma {:induction false} ProdNotMultiple(p: int, s: seq<int>)
    requires IsPrime(p)
    requires forall i :: 0 <= i < |s| ==> s[i] % p != 0
    ensures Prod(s) % p != 0
  {
    if s != [] {
      ProdNotMultiple(p, s[1..]);
      if (s[0] * Prod(s[1..])) % p == 0 {
        Euclid(p, s[0], Prod(s[1..]));
      }
    }
  }

  /** The residues 1, 2, ..., p-1. */
  function Units(p: int): (u: seq<int>)
    requires p >= 1
    ensures |u| == p - 1
  {
    seq(p - 1, i => i + 1)
  }

  /** Each element of s multiplied by a and reduced modulo p. */
  function Scaled(a: int, s: seq<int>, p: int): (r: seq<int>)
    requires p > 0
    ensures |r| == |s|
  {
    seq(|s|, i requires 0 <= i < |s| => (a * s[i]) % p)
  }

  lemma {:induction false} ScaledProd(a: int, s: seq<int>, p: int)
    requires p > 0
    ensures Prod(Scaled(a, s, p)) % p == (Pow(a, |s|) * Prod(s)) % p
  {
    if s != [] {
      var t := Scaled(a, s, p);
      assert t[1..] == Scaled(a, s[1..], p);
      ScaledProd(a, s[1..], p);
      var x, y := (a * s[0]) % p, Prod(t[1..]);
      var u := Pow(a, |s| - 1) * Prod(s[1..]);
      assert y % p == u % p;
      ModMul(x, y, p);
      ModMul(a * s[0], u, p);
      ModIdempotent(a * s[0], p);
      assert Prod(t) % p == ((a * s[0]) * u) % p;
      assert (a * s[0]) * u == Pow(a, |s|) * Prod(s);
    }
  }

  ghost predicate Distinct(s: seq<int>) {
    forall i, j :: 0 <= i < j < |s| ==> s[i] != s[j]
  }

  lemma {:induction false} DistinctCard(s: seq<int>)
    requires Distinct(s)
    ensures |set x | x in s| == |s|
  {
    if s != [] {
      DistinctCard(s[1..]);
      assert (set x | x in s) == {s[0]} + (set x | x in s[1..]);
      assert s[0] !in (set x | x in s[1..]);
    }
  }

  lemma {:induction false} DistinctMultiplicity(s: seq<int>, x: int)
    requires Distinct(s)
    ensures multiset(s)[x] == if x in s then 1 else 0
  {
    if s != [] {
      assert s == [s[0]] + s[1..];
      DistinctMultiplicity(s[1..], x);
    }
  }

  lemma SubsetSameCard(a: set<int>, b: set<int>)
    requires a <= b && |a| == |b|
    ensures a == b
  {
    assert b * a == a;
    assert |b - a| == |b| - |a|;
  }

  /** Two sequences without repetitions over the same set of values are
      permutations of each other. */
  lemma DistinctSameSet(s: seq<int>, t: seq<int>)
    requires Distinct(s) && Distinct(t)
    requires forall x :: x in s <==> x in t
    ensures multiset(s) == multiset(t)
  {
    forall x ensures multiset(s)[x] == multiset(t)[x] {
      DistinctMultiplicity(s, x);
      DistinctMultiplicity(t, x);
    }
  }

  /** a*i mod p is a non-zero residue for every unit i. */
  lemma ScaledUnitNonZero(p: int, a: int, i: int)
    requires IsPrime(p) && a % p != 0 && 1 <= i < p
    ensures 1 <= (a * i) % p < p
  {
    if (a * i) % p == 0 {
      Euclid(p, a, i);
      DivModUnique(i, p, 0, i);
    }
  }

  /** Multiplication by a unit is injective on the units. */
  lemma ScaledUnitInjective(p: int, a: int, i: int, j: int)
    requires IsPrime(p) && a % p != 0 && 1 <= i < j < p
    ensures (a * i) % p != (a * j) % p
  {
    if (a * i) % p == (a * j) % p {
      ModEqual(a * j, a * i, p);
      assert a * j - a * i == a * (j - i);
      Euclid(p, a, j - i);
      DivModUnique(j - i, p, 0, j - i);
    }
  }

  /** Multiplying by a unit modulo a prime permutes the non-zero residues. */
  lemma ScaledUnitsPermutation(p: int, a: int)
    requires IsPrime(p) && a % p != 0
    ensures multiset(Scaled(a, Units(p), p)) == multiset(Units(p))
  {
    var u, t := Units(p), Scaled(a, Units(p), p);
    forall i | 0 <= i < |t| ensures t[i] in u {
      ScaledUnitNonZero(p, a, i + 1);
      assert u[t[i] - 1] == t[i];
    }
    forall i, j | 0 <= i < j < |t| ensures t[i] != t[j] {
      ScaledUnitInjective(p, a, i + 1, j + 1);
    }
    var st, su := set x | x in t, set x | x in u;
    DistinctCard(t);
    DistinctCard(u);
    SubsetSameCard(st, su);
    assert forall x :: x in t <==> x in u by {
      forall x ensures x in t <==> x in u {
        assert x in t <==> x in st;
        assert x in u <==> x in su;
      }
    }
    DistinctSameSet(t, u);
  }

  /** Multiplying the units by a multiplies their product by a^(p-1). */
  lemma UnitsProductScales(p: int, a: int)
    requires IsPrime(p) && a % p != 0
    ensures (Pow(a, p - 1) * Prod(Units(p))) % p == Prod(Units(p)) % p
  {
    var u := Units(p);
    ScaledUnitsPermutation(p, a);
    ProdPermutation(Scaled(a, u, p), u);
    ScaledProd(a, u, p);
  }

  /** The product of the units is not divisible by p. */
  lemma UnitsProductNonZero(p: int)
    requires IsPrime(p)
    ensures Prod(Units(p)) % p != 0
  {
    var u := Units(p);
    forall i | 0 <= i < |u| ensures u[i] % p != 0 {
      DivModUnique(u[i], p, 0, u[i]);
    }
    ProdNotMultiple(p, u);
  }

  /** A factor not divisible by p can be cancelled from a congruence. */
  lemma CancelFactor(p: int, f: int, c: int)
    requires IsPrime(p) && c % p != 0 && (f * c) % p == c % p
    ensures f % p == 1
  {
    ModEqual(f * c, c, p);
    assert f * c - c == (f - 1) * c;
    Euclid(p, f - 1, c);
    ModEqual(f, 1, p);
    DivModUnique(1, p, 0, 1);
  }

  /** Fermat's little theorem. */
  lemma Fermat(p: int, a: int)
    requires IsPrime(p) && a % p != 0
    ensures Pow(a, p - 1) % p == 1
  {
    UnitsProductScales(p, a);
    UnitsProductNonZero(p);
    CancelFactor(p, Pow(a, p - 1), Prod(Units(p)));
  }
}
