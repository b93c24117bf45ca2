/** Carry and borrow chains over equal-width limb arrays, in place when the arrays alias. */
module WordChains {
  import opened Arithmetic
  import opened Limbs
  import opened Montgomery

  ghost predicate SumInv(b: nat, done: seq<nat>, carry: nat, x: seq<nat>, y: seq<nat>)
    requires |done| <= |x| && |done| <= |y|
  {
    Val(b, done) + carry * Pow(b, |done|) == Val(b, x[..|done|]) + Val(b, y[..|done|])
  }

  ghost predicate DifferenceInv(b: nat, done: seq<nat>, borrow: nat, x: seq<nat>, y: seq<nat>)
    requires |done| <= |x| && |done| <= |y|
  {
    Val(b, done) + Val(b, y[..|done|]) == Val(b, x[..|done|]) + borrow * Pow(b, |done|)
  }

  /** One limb of either chain, weighted by p. */
  lemma ChainAlgebra(p: int, b: int, bp: int, low: int, out: int, rest: int, carry: int)
    requires bp == b * p && low + out * b == rest + carry
    ensures low * p + out * bp == rest * p + carry * p
  {
    Distribute(low, out * b, p);
    Distribute(rest, carry, p);
    assert out * b * p == out * bp;
  }

  lemma SumStep(b: nat, done: seq<nat>, carry: nat, x: seq<nat>, y: seq<nat>, low: nat, out: nat)
    requires |done| < |x| && |done| < |y| && SumInv(b, done, carry, x, y)
    requires low + out * b == x[|done|] + y[|done|] + carry
    ensures SumInv(b, done + [low], out, x, y)
  {
    hide Val, Pow;
    var i := |done|;
    ValSnoc(b, done, low);
    ValTake(b, x, i);
    ValTake(b, y, i);
    PowStep(b, i);
    ChainAlgebra(Pow(b, i), b, Pow(b, i + 1), low, out, x[i] + y[i], carry);
    Distribute(x[i], y[i], Pow(b, i));
  }

  lemma DifferenceStep(b: nat, done: seq<nat>, borrow: nat, x: seq<nat>, y: seq<nat>, low: nat, out: nat)
    requires |done| < |x| && |done| < |y| && DifferenceInv(b, done, borrow, x, y)
    requires low + y[|done|] + borrow == x[|done|] + out * b
    ensures DifferenceInv(b, done + [low], out, x, y)
  {
    hide Val, Pow;
    var i := |done|;
    ValSnoc(b, done, low);
    ValTake(b, x, i);
    ValTake(b, y, i);
    PowStep(b, i);
    ChainAlgebra(Pow(b, i), b, Pow(b, i + 1), x[i], out, low + y[i], borrow);
    Distribute(low, y[i], Pow(b, i));
  }

  lemma ChainStart(b: nat, x: seq<nat>, y: seq<nat>)
    ensures SumInv(b, [], 0, x, y) && DifferenceInv(b, [], 0, x, y)
  {
  }

  lemma ChainEnd(b: nat, done: seq<nat>, carry: nat, x: seq<nat>, y: seq<nat>)
    requires |done| == |x| == |y|
    ensures SumInv(b, done, carry, x, y) ==>
              Val(b, done) + carry * Pow(b, |x|) == Val(b, x) + Val(b, y)
    ensures DifferenceInv(b, done, carry, x, y) ==>
              Val(b, done) + Val(b, y) == Val(b, x) + carry * Pow(b, |x|)
  {
    hide Val, Pow;
    assert x[..|x|] == x && y[..|y|] == y;
  }

  /** Difference of two words and a borrow bit as one word and the borrow bit that leaves it. */
  method SubtractWithBorrow(b: nat, borrowIn: nat, x: nat, y: nat) returns (borrowOut: nat, difference: nat)
    requires x < b && y < b && borrowIn <= 1
    ensures difference < b && borrowOut <= 1
    ensures difference + y + borrowIn == x + borrowOut * b
  {
    if x >= y + borrowIn {
      borrowOut, difference := 0, x - y - borrowIn;
    } else {
      borrowOut, difference := 1, x + b - y - borrowIn;
    }
  }

  /** Adds two values as plain words; the sum may alias either input. */
  method AddWords(b: nat, augend: array<nat>, addend: array<nat>, sum: array<nat>) returns (carry: nat)
    requires augend.Length == addend.Length == sum.Length
    requires Digits(b, augend[..]) && Digits(b, addend[..])
    modifies sum
    ensures carry <= 1 && Digits(b, sum[..])
    ensures Val(b, sum[..]) + carry * Pow(b, sum.Length) ==
            old(Val(b, augend[..])) + old(Val(b, addend[..]))
  {
    hide Val, Pow, SumInv;
    ghost var x, y := augend[..], addend[..];
    carry := 0;
    ChainStart(b, x, y);
    assert sum[..0] == [];
    for index := 0 to sum.Length
      invariant carry <= 1 && Digits(b, sum[..index])
      invariant forall k :: index <= k < sum.Length ==> augend[k] == x[k] && addend[k] == y[k]
      invariant SumInv(b, sum[..index], carry, x, y)
    {
      ghost var done, carried := sum[..index], carry;
      var total: nat;
      carry, total := AddWithCarry(b, carry, augend[index], addend[index]);
      SumStep(b, done, carried, x, y, total, carry);
      sum[index] := total;
      assert sum[..index + 1] == done + [total];
    }
    assert sum[..sum.Length] == sum[..];
    ChainEnd(b, sum[..], carry, x, y);
  }

  /** Subtracts as plain words; the difference may alias either input. */
  method SubtractWords(b: nat, minuend: array<nat>, subtrahend: array<nat>, difference: array<nat>)
    returns (borrow: nat)
    requires minuend.Length == subtrahend.Length == difference.Length
    requires Digits(b, minuend[..]) && Digits(b, subtrahend[..])
    modifies difference
    ensures borrow <= 1 && Digits(b, difference[..])
    ensures Val(b, difference[..]) + old(Val(b, subtrahend[..])) ==
            old(Val(b, minuend[..])) + borrow * Pow(b, difference.Length)
  {
    hide Val, Pow, DifferenceInv;
    ghost var x, y := minuend[..], subtrahend[..];
    borrow := 0;
    ChainStart(b, x, y);
    assert difference[..0] == [];
    for index := 0 to difference.Length
      invariant borrow <= 1 && Digits(b, difference[..index])
      invariant forall k :: index <= k < difference.Length ==> minuend[k] == x[k] && subtrahend[k] == y[k]
      invariant DifferenceInv(b, difference[..index], borrow, x, y)
    {
      ghost var done, borrowed := difference[..index], borrow;
      var total: nat;
      borrow, total := SubtractWithBorrow(b, borrow, minuend[index], subtrahend[index]);
      DifferenceStep(b, done, borrowed, x, y, total, borrow);
      difference[index] := total;
      assert difference[..index + 1] == done + [total];
    }
    assert difference[..difference.Length] == difference[..];
    ChainEnd(b, difference[..], borrow, x, y);
  }
}
