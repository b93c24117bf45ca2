/** Little-endian limb sequences in an arbitrary base, and the numbers they denote. */
module Limbs {
  import opened Arithmetic

  ghost predicate Digits(b: nat, s: seq<nat>) {
    forall i :: 0 <= i < |s| ==> s[i] < b
  }

  lemma DigitsTake(b: nat, s: seq<nat>, i: nat)
    requires Digits(b, s) && i <= |s|
    ensures Digits(b, s[..i])
  {}

  /** The number a limb sequence denotes, limb 0 least significant. */
  ghost function Val(b: nat, s: seq<nat>): nat {
    if s == [] then 0 else Val(b, s[..|s| - 1]) + s[|s| - 1] * Pow(b, |s| - 1)
  }

  lemma ValSnoc(b: nat, s: seq<nat>, d: nat)
    ensures Val(b, s + [d]) == Val(b, s) + d * Pow(b, |s|)
  {
    assert (s + [d])[..|s|] == s;
  }

  lemma ValTake(b: nat, s: seq<nat>, i: nat)
    requires i < |s|
    ensures Val(b, s[..i + 1]) == Val(b, s[..i]) + s[i] * Pow(b, i)
  {
    assert s[..i + 1] == s[..i] + [s[i]];
    ValSnoc(b, s[..i], s[i]);
  }

  lemma {:induction false} ValBound(b: nat, s: seq<nat>)
    requires Digits(b, s)
    ensures Val(b, s) < Pow(b, |s|)
  {
    if s == [] {
    } else {
      var n := |s| - 1;
      ValBound(b, s[..n]);
      DigitStep(Val(b, s[..n]), s[n], b, Pow(b, n));
    }
  }

  lemma WeightStep(v: int, d: int, p: int, q: int, qp: int)
    requires qp == q * p
    ensures (v + d * p) * q == v * q + d * qp
  {
    MulAssoc(d, p, q);
  }

  lemma ConsStep(v: int, w: int, d: int, p: int, b: int, bp: int)
    requires w == v + d * p && bp == b * p
    ensures b * v + d * bp == b * w
  {
    WeightStep(v, d, p, b, bp);
    assert b * w == (v + d * p) * b;
  }

  lemma {:induction false} ValCons(b: nat, d: nat, s: seq<nat>)
    ensures Val(b, [d] + s) == d + b * Val(b, s)
  {
    if s == [] {
      assert [d] + s == [] + [d];
      ValSnoc(b, [], d);
    } else {
      hide Val, Pow;
      var n := |s| - 1;
      ValCons(b, d, s[..n]);
      PowStep(b, n);
      assert s == s[..n] + [s[n]];
      ValSnoc(b, s[..n], s[n]);
      assert [d] + s == ([d] + s[..n]) + [s[n]];
      ValSnoc(b, [d] + s[..n], s[n]);
      ConsStep(Val(b, s[..n]), Val(b, s), s[n], Pow(b, n), b, Pow(b, n + 1));
    }
  }

  lemma {:induction false} ValZeros(b: nat, s: seq<nat>)
    requires forall i :: 0 <= i < |s| ==> s[i] == 0
    ensures Val(b, s) == 0
  {
    if s == [] {
    } else {
      ValZeros(b, s[..|s| - 1]);
    }
  }

  /** A split number: the high part is weighted by the base to the split position. */
  lemma {:induction false} ValConcat(b: nat, low: seq<nat>, high: seq<nat>)
    ensures Val(b, low + high) == Val(b, low) + Val(b, high) * Pow(b, |low|)
  {
    if high == [] {
      assert low + high == low;
    } else {
      hide Val, Pow;
      var n := |high| - 1;
      assert high == high[..n] + [high[n]];
      ValSnoc(b, high[..n], high[n]);
      ValConcat(b, low, high[..n]);
      assert low + high == (low + high[..n]) + [high[n]];
      ValSnoc(b, low + high[..n], high[n]);
      PowAdd(b, |low|, n);
      WeightStep(Val(b, high[..n]), high[n], Pow(b, n), Pow(b, |low|), Pow(b, |low| + n));
    }
  }

  lemma DigitAt(v: nat, low: nat, d: nat, h: nat, b: nat, p: nat)
    requires low < p && d < b && v == low + (d + b * h) * p
    ensures v / p % b == d
  {
    DivModUnique(v, p, d + b * h, low);
    DivModUnique(d + b * h, b, h, d);
  }

  /** Position i of a number is its i-th base-b digit. */
  lemma ValDigit(b: nat, s: seq<nat>, i: nat)
    requires b > 0 && Digits(b, s) && i < |s|
    ensures Val(b, s) / Pow(b, i) % b == s[i]
  {
    hide Val, Pow;
    var low, rest := s[..i], s[i + 1..];
    assert s == low + ([s[i]] + rest);
    ValConcat(b, low, [s[i]] + rest);
    ValCons(b, s[i], rest);
    ValBound(b, low);
    DigitAt(Val(b, s), Val(b, low), s[i], Val(b, rest), b, Pow(b, i));
  }

  /** Equal-width canonical limb sequences are equal when the numbers are. */
  lemma ValInjective(b: nat, s: seq<nat>, t: seq<nat>)
    requires b > 0 && Digits(b, s) && Digits(b, t) && |s| == |t| && Val(b, s) == Val(b, t)
    ensures s == t
  {
    forall i | 0 <= i < |s|
      ensures s[i] == t[i]
    {
      ValDigit(b, s, i);
      ValDigit(b, t, i);
    }
  }

  lemma ValZeroIff(b: nat, s: seq<nat>)
    requires b > 0 && Digits(b, s)
    ensures Val(b, s) == 0 <==> forall i :: 0 <= i < |s| ==> s[i] == 0
  {
    if Val(b, s) == 0 {
      var zeros := seq(|s|, _ => 0);
      ValZeros(b, zeros);
      ValInjective(b, s, zeros);
    }
    if forall i :: 0 <= i < |s| ==> s[i] == 0 {
      ValZeros(b, s);
    }
  }

  lemma LeadStep(low: nat, d: nat, e: nat, p: nat)
    requires low < p && d < e
    ensures low + d * p < e * p
  {
    MulMonotone(d + 1, e, p);
    assert (d + 1) * p == d * p + p;
  }

  lemma ValSplit(b: nat, s: seq<nat>, i: nat)
    requires i < |s|
    ensures Val(b, s) == Val(b, s[..i]) + s[i] * Pow(b, i) + Val(b, s[i + 1..]) * Pow(b, i + 1)
  {
    hide Val, Pow;
    ValTake(b, s, i);
    assert s == s[..i + 1] + s[i + 1..];
    ValConcat(b, s[..i + 1], s[i + 1..]);
  }

  /** The most significant differing limb decides the order. */
  lemma ValOrder(b: nat, s: seq<nat>, t: seq<nat>, i: nat)
    requires Digits(b, s) && Digits(b, t) && |s| == |t| && i < |s|
    requires s[i] < t[i] && s[i + 1..] == t[i + 1..]
    ensures Val(b, s) < Val(b, t)
  {
    ValSplit(b, s, i);
    ValSplit(b, t, i);
    ValBound(b, s[..i]);
    LeadStep(Val(b, s[..i]), s[i], t[i], Pow(b, i));
  }

  lemma DivDiv(v: nat, a: nat, c: nat)
    requires a > 0 && c > 0
    ensures a * c > 0 && v / (a * c) == v / a / c
  {
    MulMonotone(1, a, c);
    var q, r := v / a, v % a;
    var t, u := q / c, q % c;
    assert v == q * a + r && q == t * c + u;
    assert v == t * (a * c) + (u * a + r) by {
      assert (t * c + u) * a == t * (a * c) + u * a;
    }
    MulMonotone(u, c - 1, a);
    assert u * a + r < a * c;
    DivModUnique(v, a * c, t, u * a + r);
  }

  /** Shifting d + h * 2^w by j < w leaves the low bit of d shifted by j. */
  lemma ShiftedBit(x: nat, d: nat, h: nat, w: nat, j: nat)
    requires j < w && x == d + h * Pow(2, w)
    ensures x / Pow(2, j) % 2 == d / Pow(2, j) % 2
  {
    hide Pow;
    var p, k := Pow(2, j), Pow(2, w - j - 1);
    PowAdd(2, j + 1, w - j - 1);
    PowStep(2, j);
    assert Pow(2, w) == 2 * p * k;
    var q, r := d / p, d % p;
    assert d == q * p + r;
    assert h * (2 * p * k) == 2 * (h * k) * p;
    assert x == (q + 2 * (h * k)) * p + r by {
      assert (q + 2 * (h * k)) * p == q * p + 2 * (h * k) * p;
    }
    DivModUnique(x, p, q + 2 * (h * k), r);
  }

  /** Bit w*i + j of a number in base 2^w is bit j of limb i. */
  lemma ValBit(w: nat, s: seq<nat>, i: nat, j: nat)
    requires j < w && i < |s| && Digits(Pow(2, w), s) && w * i >= 0
    ensures Val(Pow(2, w), s) / Pow(2, w * i + j) % 2 == s[i] / Pow(2, j) % 2
  {
    hide Val, Pow, Digits;
    var b, v := Pow(2, w), Val(Pow(2, w), s);
    ValDigit(b, s, i);
    var x := v / Pow(b, i);
    assert x == s[i] + (x / b) * b;
    ShiftedBit(x, s[i], x / b, w, j);
    PowMul(2, w, i);
    PowAdd(2, w * i, j);
    DivDiv(v, Pow(b, i), Pow(2, j));
  }
}
