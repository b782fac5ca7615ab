/** The order of names in a listing, and numbers written with a fixed number of digits. */
module Lexicographic {

  predicate Less(a: seq<nat>, b: seq<nat>) {
    if b == [] then false
    else if a == [] then true
    else a[0] < b[0] || (a[0] == b[0] && Less(a[1..], b[1..]))
  }

  lemma {:induction false} LessIsStrict(a: seq<nat>, b: seq<nat>)
    ensures !(Less(a, b) && Less(b, a)) && !Less(a, a)
    ensures a != b ==> Less(a, b) || Less(b, a)
  {
    if a != [] && b != [] {
      LessIsStrict(a[1..], b[1..]);
      assert a == [a[0]] + a[1..] && b == [b[0]] + b[1..];
    }
    if a != [] {
      LessIsStrict(a[1..], a[1..]);
    }
  }

  lemma {:induction false} LessIsTransitive(a: seq<nat>, b: seq<nat>, c: seq<nat>)
    requires Less(a, b) && Less(b, c)
    ensures Less(a, c)
  {
    if a != [] && a[0] == b[0] == c[0] {
      LessIsTransitive(a[1..], b[1..], c[1..]);
    }
  }

  lemma {:induction false} SamePrefix(p: seq<nat>, a: seq<nat>, b: seq<nat>)
    ensures Less(p + a, p + b) == Less(a, b)
  {
    if p == [] {
      assert p + a == a && p + b == b;
    } else {
      assert (p + a)[1..] == p[1..] + a && (p + b)[1..] == p[1..] + b;
      SamePrefix(p[1..], a, b);
    }
  }

  /** A difference decides, whatever follows. */
  lemma {:induction false} EarlierDecides(a: seq<nat>, b: seq<nat>, x: seq<nat>, y: seq<nat>)
    requires |a| == |b| && Less(a, b)
    ensures Less(a + x, b + y)
  {
    if a[0] == b[0] {
      EarlierDecides(a[1..], b[1..], x, y);
    }
    assert (a + x)[1..] == a[1..] + x && (b + y)[1..] == b[1..] + y;
  }

  // ----- Digits -----

  ghost predicate AreDigits(d: seq<nat>, base: nat) {
    forall k | 0 <= k < |d| :: d[k] < base
  }

  function Value(d: seq<nat>, base: nat): nat {
    if d == [] then 0 else Value(d[..|d| - 1], base) * base + d[|d| - 1]
  }

  function Quot(n: nat, base: nat): nat
    requires base > 0
  {
    n / base
  }

  function Rem(n: nat, base: nat): (r: nat)
    requires base > 0
    ensures r < base
  {
    n % base
  }

  lemma QuotRem(n: nat, base: nat)
    requires base > 0
    ensures n == Quot(n, base) * base + Rem(n, base)
  {
  }

  /** The last `k` digits of a number. */
  function Digits(n: nat, k: nat, base: nat): (d: seq<nat>)
    requires base > 0
    ensures |d| == k && AreDigits(d, base)
    decreases k
  {
    if k == 0 then [] else Digits(Quot(n, base), k - 1, base) + [Rem(n, base)]
  }

  function Pow(base: nat, k: nat): nat {
    if k == 0 then 1 else Pow(base, k - 1) * base
  }

  lemma {:induction false} ValueOfDigits(n: nat, k: nat, base: nat)
    requires base > 0 && n < Pow(base, k)
    ensures Value(Digits(n, k, base), base) == n
    decreases k
  {
    if k > 0 {
      hide Quot;
      hide Rem;
      QuotRem(n, base);
      Carry(Pow(base, k - 1), Quot(n, base), 0, Rem(n, base), base);
      if Quot(n, base) == Pow(base, k - 1) {
        assert false;
      }
      ValueOfDigits(Quot(n, base), k - 1, base);
      assert Digits(n, k, base)[..k - 1] == Digits(Quot(n, base), k - 1, base);
    }
  }

  lemma Carry(v: nat, w: nat, x: nat, y: nat, base: nat)
    requires x < base && y < base
    ensures v < w ==> v * base + x < w * base + y
  {
    if v < w {
      assert (v + 1) * base <= w * base;
    }
  }

  lemma {:induction false} SameValue(a: seq<nat>, b: seq<nat>, base: nat)
    requires |a| == |b| && AreDigits(a, base) && AreDigits(b, base) && Value(a, base) == Value(b, base)
    ensures a == b
  {
    if a != [] {
      var n := |a| - 1;
      Carry(Value(a[..n], base), Value(b[..n], base), a[n], b[n], base);
      Carry(Value(b[..n], base), Value(a[..n], base), b[n], a[n], base);
      SameValue(a[..n], b[..n], base);
      assert a == a[..n] + [a[n]] && b == b[..n] + [b[n]];
    }
  }

  /** With equally many digits the order of the names is the order of the numbers. */
  lemma {:induction false} ValueOrder(a: seq<nat>, b: seq<nat>, base: nat)
    requires |a| == |b| && AreDigits(a, base) && AreDigits(b, base) && Value(a, base) < Value(b, base)
    ensures Less(a, b)
  {
    if a != [] {
      var n := |a| - 1;
      var v, w := Value(a[..n], base), Value(b[..n], base);
      Carry(w, v, b[n], a[n], base);
      assert a == a[..n] + [a[n]] && b == b[..n] + [b[n]];
      if v < w {
        ValueOrder(a[..n], b[..n], base);
        EarlierDecides(a[..n], b[..n], [a[n]], [b[n]]);
      } else {
        SameValue(a[..n], b[..n], base);
        SamePrefix(a[..n], [a[n]], [b[n]]);
      }
    }
  }

  lemma DigitsOrder(m: nat, n: nat, k: nat, base: nat)
    requires base > 0 && m < n < Pow(base, k)
    ensures Less(Digits(m, k, base), Digits(n, k, base))
  {
    ValueOfDigits(m, k, base);
    ValueOfDigits(n, k, base);
    ValueOrder(Digits(m, k, base), Digits(n, k, base), base);
  }

  lemma {:induction false} DigitsSplit(n: nat, j: nat, k: nat, base: nat)
    requires base > 0
    ensures Pow(base, k) > 0 && Digits(n, j + k, base) == Digits(Quot(n, Pow(base, k)), j, base) + Digits(n, k, base)
    decreases k
  {
    if k == 0 {
      assert Quot(n, Pow(base, 0)) == n;
    } else {
      hide Quot;
      hide Rem;
      DigitsSplit(Quot(n, base), j, k - 1, base);
      QuotQuot(n, base, Pow(base, k - 1));
    }
  }

  lemma QuotQuot(n: nat, a: nat, b: nat)
    requires a > 0 && b > 0
    ensures b * a > 0 && Quot(Quot(n, a), b) == Quot(n, b * a)
  {
    hide Quot;
    hide Rem;
    var q, r := Quot(n, a), Rem(n, a);
    var u, v := Quot(q, b), Rem(q, b);
    QuotRem(n, a);
    QuotRem(q, b);
    Distribute(u, b, v, a, r);
    Carry(v, b, r, 0, a);
    QuotUnique(n, b * a, u, v * a + r);
  }

  lemma Distribute(u: nat, b: nat, v: nat, a: nat, r: nat)
    ensures (u * b + v) * a + r == u * (b * a) + (v * a + r)
  {
    assert u * b * a == u * (b * a);
  }

  lemma QuotUnique(n: nat, d: nat, q: nat, r: nat)
    requires r < d && n == q * d + r
    ensures Quot(n, d) == q
  {
    hide Quot;
    hide Rem;
    QuotRem(n, d);
    Carry(Quot(n, d), q, Rem(n, d), r, d);
    Carry(q, Quot(n, d), r, Rem(n, d), d);
  }
}
