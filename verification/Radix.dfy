/**
  Positional numerals of any base, most significant digit first, and the change of base that keeps leading
  zeros as leading zeros (section 4 of draft-msporny-base58).
*/
module Radix {
  function Pow(b: nat, n: nat): (p: nat) {
    if n == 0 then 1 else b * Pow(b, n - 1)
  }

  predicate AreDigits(s: seq<nat>, base: nat) {
    forall i :: 0 <= i < |s| ==> s[i] < base
  }

  function Value(s: seq<nat>, base: nat): nat {
    if s == [] then 0 else Value(s[..|s| - 1], base) * base + s[|s| - 1]
  }

  function Zeros(n: nat): (z: seq<nat>)
    ensures |z| == n
  {
    seq(n, _ => 0)
  }

  /** The shortest numeral of a value; zero has no digits. */
  function Numeral(v: nat, base: nat): seq<nat>
    requires base >= 2
  {
    if v == 0 then [] else Numeral(v / base, base) + [v % base]
  }

  function LeadingZeros(s: seq<nat>): (z: nat)
    ensures z <= |s| && (forall i :: 0 <= i < z ==> s[i] == 0) && (z < |s| ==> s[z] != 0)
  {
    if s == [] || s[0] != 0 then 0 else 1 + LeadingZeros(s[1..])
  }

  /** The same number in another base, with as many leading zeros as before. */
  function Convert(s: seq<nat>, from: nat, to: nat): seq<nat>
    requires to >= 2
  {
    Zeros(LeadingZeros(s)) + Numeral(Value(s, from), to)
  }

  // ---------------------------------------------------------------- powers

  lemma MulMonotone(a: nat, b: nat, c: nat)
    requires a <= b
    ensures a * c <= b * c
  {
  }

  lemma MulAssociates(a: nat, b: nat, c: nat)
    ensures a * (b * c) == (a * b) * c
  {
  }

  lemma {:induction false} PowAdd(b: nat, m: nat, n: nat)
    ensures Pow(b, m + n) == Pow(b, m) * Pow(b, n)
  {
    if m > 0 {
      PowAdd(b, m - 1, n);
      assert m - 1 + n == m + n - 1;
      MulAssociates(b, Pow(b, m - 1), Pow(b, n));
    }
  }

  lemma {:induction false} PowGrows(b: nat, m: nat, n: nat)
    requires b >= 1 && m <= n
    ensures 1 <= Pow(b, m) <= Pow(b, n)
  {
    if n > m {
      PowGrows(b, m, n - 1);
      MulMonotone(1, b, Pow(b, n - 1));
    } else if m > 0 {
      PowGrows(b, m - 1, m - 1);
      MulMonotone(1, b, Pow(b, m - 1));
    }
  }

  // ---------------------------------------------------------------- values

  lemma ValueSnoc(s: seq<nat>, d: nat, base: nat)
    ensures Value(s + [d], base) == Value(s, base) * base + d
  {
    assert (s + [d])[..|s|] == s;
  }

  lemma Regroup(a: nat, p: nat, w: nat, base: nat)
    ensures (a * p + w) * base == a * (base * p) + w * base
  {
    MulAssociates(a, base, p);
  }

  lemma {:induction false} ValueConcat(s: seq<nat>, t: seq<nat>, base: nat)
    ensures Value(s + t, base) == Value(s, base) * Pow(base, |t|) + Value(t, base)
    decreases |t|
  {
    if t == [] {
      assert s + t == s;
    } else {
      var u := t[..|t| - 1];
      assert (s + t)[..|s + t| - 1] == s + u;
      ValueConcat(s, u, base);
      Regroup(Value(s, base), Pow(base, |u|), Value(u, base), base);
    }
  }

  lemma {:induction false} ValueOfZeros(s: seq<nat>, base: nat)
    requires forall i :: 0 <= i < |s| ==> s[i] == 0
    ensures Value(s, base) == 0
  {
    if s != [] { ValueOfZeros(s[..|s| - 1], base); }
  }

  lemma ValueSkipsZeros(s: seq<nat>, k: nat, base: nat)
    requires k <= |s| && forall i :: 0 <= i < k ==> s[i] == 0
    ensures Value(s[k..], base) == Value(s, base)
  {
    ValueOfZeros(s[..k], base);
    ValueConcat(s[..k], s[k..], base);
    assert s[..k] + s[k..] == s;
  }

  lemma DigitBelow(v: nat, d: nat, p: nat, base: nat)
    requires v < p && d < base
    ensures v * base + d < base * p
  {
    MulMonotone(v + 1, p, base);
  }

  lemma {:induction false} ValueBelow(s: seq<nat>, base: nat)
    requires AreDigits(s, base)
    ensures Value(s, base) < Pow(base, |s|)
  {
    if s != [] {
      ValueBelow(s[..|s| - 1], base);
      DigitBelow(Value(s[..|s| - 1], base), s[|s| - 1], Pow(base, |s| - 1), base);
    }
  }

  lemma ValueAtLeast(s: seq<nat>, base: nat)
    requires AreDigits(s, base) && s != [] && s[0] != 0
    ensures Pow(base, |s| - 1) <= Value(s, base)
  {
    ValueConcat([s[0]], s[1..], base);
    assert [s[0]] + s[1..] == s;
    ValueSnoc([], s[0], base);
    MulMonotone(1, s[0], Pow(base, |s| - 1));
  }

  // ---------------------------------------------------------------- numerals

  lemma QuotientIsUnique(q: nat, d: nat, p: nat, e: nat, base: nat)
    requires d < base && e < base && q * base + d == p * base + e
    ensures q == p && d == e
  {
    if q < p { MulMonotone(q + 1, p, base); }
    if p < q { MulMonotone(p + 1, q, base); }
  }

  /** One more digit at the end of a numeral that means q. */
  lemma DigitAdded(n: seq<nat>, q: nat, d: nat, v: nat, base: nat)
    requires d < base && q * base + d == v > 0
    requires Value(n, base) == q && AreDigits(n, base) && (q > 0 ==> n != [] && n[0] != 0) && (q == 0 ==> n == [])
    ensures Value(n + [d], base) == v && AreDigits(n + [d], base) && (n + [d])[0] != 0
  {
    ValueSnoc(n, d, base);
  }

  lemma Euclid(v: nat, base: nat)
    requires base > 0
    ensures v / base * base + v % base == v
  {
  }

  lemma {:induction false} NumeralMeaning(v: nat, base: nat)
    requires base >= 2
    ensures Value(Numeral(v, base), base) == v
    ensures AreDigits(Numeral(v, base), base)
    ensures v > 0 ==> Numeral(v, base) != [] && Numeral(v, base)[0] != 0
  {
    if v > 0 {
      NumeralMeaning(v / base, base);
      Euclid(v, base);
      DigitAdded(Numeral(v / base, base), v / base, v % base, v, base);
    }
  }

  lemma DivideStep(v: nat, d: nat, base: nat)
    requires d < base
    ensures (v * base + d) / base == v && (v * base + d) % base == d
  {
    var n := v * base + d;
    assert n == n / base * base + n % base;
    QuotientIsUnique(v, d, n / base, n % base, base);
  }

  /** A digit sequence without leading zeros is the only one of its value. */
  lemma {:induction false} NumeralIsUnique(s: seq<nat>, base: nat)
    requires base >= 2 && AreDigits(s, base) && (s != [] ==> s[0] != 0)
    ensures Numeral(Value(s, base), base) == s
  {
    if s != [] {
      var t, d := s[..|s| - 1], s[|s| - 1];
      assert Value(s, base) > 0 by {
        ValueAtLeast(s, base);
        PowGrows(base, 0, |s| - 1);
      }
      NumeralIsUnique(t, base);
      DivideStep(Value(t, base), d, base);
      assert s == t + [d];
    }
  }

  lemma LeadingZerosOf(z: nat, n: seq<nat>)
    requires n != [] ==> n[0] != 0
    ensures LeadingZeros(Zeros(z) + n) == z
  {
    var t := Zeros(z) + n;
    assert forall i :: 0 <= i < z ==> t[i] == 0;
    assert n != [] ==> t[z] == n[0];
  }

  /** Changing the base and changing it back gives every digit sequence again, leading zeros and all. */
  lemma ConvertBack(s: seq<nat>, from: nat, to: nat)
    requires from >= 2 && to >= 2 && AreDigits(s, from)
    ensures AreDigits(Convert(s, from, to), to)
    ensures Convert(Convert(s, from, to), to, from) == s
  {
    var z, v := LeadingZeros(s), Value(s, from);
    var t := Convert(s, from, to);
    NumeralMeaning(v, to);
    LeadingZerosOf(z, Numeral(v, to));
    assert Value(t, to) == v by {
      ValueSkipsZeros(t, z, to);
      assert t[z..] == Numeral(v, to);
    }
    assert Numeral(v, from) == s[z..] by {
      ValueSkipsZeros(s, z, from);
      NumeralIsUnique(s[z..], from);
    }
    assert s == Zeros(z) + s[z..];
  }
}
