/** The secp224r1 point code: doubling, addition, conversion, curve check and the scalar ladder. */
module CurveP224 {
  import opened Arithmetic
  import opened Limbs
  import opened NumberTheory
  import opened FieldP224
  import opened AffineP224
  import opened JacobianP224
  import opened GroupP224

  /** One point in Jacobian coordinates, as three Montgomery values updated in place. */
  datatype Jacobian = Jacobian(x: array<nat>, y: array<nat>, z: array<nat>) {
    ghost predicate Storage() {
      x.Length == WORDS && y.Length == WORDS && z.Length == WORDS && x != y && x != z && y != z
    }

    ghost predicate Valid()
      reads x, y, z
    {
      Storage() && IsField(x) && IsField(y) && IsField(z)
    }

    ghost function Elems(): Triple
      reads x, y, z
    {
      Triple(Elem(x), Elem(y), Elem(z))
    }
  }

  method NewField() returns (a: array<nat>)
    ensures fresh(a) && a.Length == WORDS
  {
    a := new nat[WORDS];
  }

  lemma FieldLength(a: array<nat>)
    requires IsField(a)
    ensures a.Length == WORDS
  {}

  method CopyField(source: array<nat>, output: array<nat>)
    requires IsField(source) && output.Length == WORDS
    modifies output
    ensures IsField(output) && Elem(output) == old(Elem(source)) && Num(output) == old(Num(source))
  {
    Select(true, source, source, output);
  }

  /** Stores a result whose arrays are apart from the output's. */
  method CopyJacobian(source: Jacobian, output: Jacobian)
    requires source.Valid() && output.Storage()
    requires source == output || {source.x, source.y, source.z} !! {output.x, output.y, output.z}
    modifies output.x, output.y, output.z
    ensures output.Valid() && output.Elems() == old(source.Elems())
  {
    hide Elem, IsField, Num;
    CopyField(source.x, output.x);
    CopyField(source.y, output.y);
    CopyField(source.z, output.z);
  }

  /** First block of the doubling: delta = Z^2, gamma = Y^2, beta = X gamma. */
  method DoublingProducts(point: Jacobian) returns (delta: array<nat>, gamma: array<nat>, beta: array<nat>)
    requires point.Valid()
    ensures fresh(delta) && fresh(gamma) && fresh(beta)
    ensures IsField(delta) && IsField(gamma) && IsField(beta)
    ensures Elem(delta) == FMul(Elem(point.z), Elem(point.z))
    ensures Elem(gamma) == FMul(Elem(point.y), Elem(point.y))
    ensures Elem(beta) == FMul(Elem(point.x), Elem(gamma))
  {
    hide Elem, IsField, Num, FMul, FAdd, FSub;
    delta := NewField();
    gamma := NewField();
    beta := NewField();
    MontgomeryMultiply(point.z, point.z, delta);
    MontgomeryMultiply(point.y, point.y, gamma);
    MontgomeryMultiply(point.x, gamma, beta);
  }

  /** Rest of the first block: alpha = 3 (X - delta)(X + delta). */
  method TangentTerm(x: array<nat>, delta: array<nat>) returns (alpha: array<nat>)
    requires IsField(x) && IsField(delta)
    ensures fresh(alpha) && IsField(alpha)
    ensures var third := FMul(FSub(Elem(x), Elem(delta)), FAdd(Elem(x), Elem(delta)));
            Elem(alpha) == FAdd(FAdd(third, third), third)
  {
    hide Elem, IsField, Num, FMul, FAdd, FSub;
    var first := NewField();
    var second := NewField();
    var third := NewField();
    alpha := NewField();
    FieldSubtract(x, delta, first);
    FieldAdd(x, delta, second);
    MontgomeryMultiply(first, second, third);
    FieldAdd(third, third, alpha);
    FieldAdd(alpha, third, alpha);
  }

  /** Second block: X = alpha^2 - 8 beta, keeping 4 beta for the last block. */
  method DoubledAbscissa(alpha: array<nat>, beta: array<nat>) returns (beta4: array<nat>, x: array<nat>)
    requires IsField(alpha) && IsField(beta)
    ensures fresh(beta4) && fresh(x) && beta4 != x && IsField(beta4) && IsField(x)
    ensures var beta2 := FAdd(Elem(beta), Elem(beta)); Elem(beta4) == FAdd(beta2, beta2)
    ensures Elem(x) == FSub(FMul(Elem(alpha), Elem(alpha)), FAdd(Elem(beta4), Elem(beta4)))
  {
    hide Elem, IsField, Num, FMul, FAdd, FSub;
    var first := NewField();
    beta4 := NewField();
    var third := NewField();
    x := NewField();
    MontgomeryMultiply(alpha, alpha, first);
    FieldAdd(beta, beta, beta4);
    FieldAdd(beta4, beta4, beta4);
    FieldAdd(beta4, beta4, third);
    FieldSubtract(first, third, x);
  }

  /** (left + right)^2 - leftSquare - rightSquare, which both Z formulas start from. */
  method CrossTerm(left: array<nat>, right: array<nat>, first: array<nat>, second: array<nat>)
    returns (cross: array<nat>)
    requires IsField(left) && IsField(right) && IsField(first) && IsField(second)
    ensures fresh(cross) && IsField(cross)
    ensures var sum := FAdd(Elem(left), Elem(right));
            Elem(cross) == FSub(FSub(FMul(sum, sum), Elem(first)), Elem(second))
  {
    hide Elem, IsField, Num, FMul, FAdd, FSub;
    cross := NewField();
    FieldAdd(left, right, cross);
    MontgomeryMultiply(cross, cross, cross);
    FieldSubtract(cross, first, cross);
    FieldSubtract(cross, second, cross);
  }

  /** Last block: Y = alpha (4 beta - X) - 8 gamma^2. */
  method DoubledOrdinate(alpha: array<nat>, beta4: array<nat>, x: array<nat>, gamma: array<nat>)
    returns (y: array<nat>)
    requires IsField(alpha) && IsField(beta4) && IsField(x) && IsField(gamma)
    ensures fresh(y) && IsField(y)
    ensures var square := FMul(Elem(gamma), Elem(gamma));
            var square2 := FAdd(square, square);
            var square4 := FAdd(square2, square2);
            Elem(y) == FSub(FMul(Elem(alpha), FSub(Elem(beta4), Elem(x))), FAdd(square4, square4))
  {
    hide Elem, IsField, Num, FMul, FAdd, FSub;
    var first := NewField();
    var third := NewField();
    y := NewField();
    FieldSubtract(beta4, x, first);
    MontgomeryMultiply(alpha, first, first);
    MontgomeryMultiply(gamma, gamma, third);
    FieldAdd(third, third, third);
    FieldAdd(third, third, third);
    FieldAdd(third, third, third);
    FieldSubtract(first, third, y);
  }

  /** All four blocks, into fresh storage. */
  method DoubledPoint(point: Jacobian) returns (result: Jacobian)
    requires point.Valid()
    ensures result.Valid() && fresh(result.x) && fresh(result.y) && fresh(result.z)
    ensures result.Elems() == DoubleSteps(point.Elems())
  {
    hide Elem, IsField, Num, FMul, FAdd, FSub;
    var delta, gamma, beta := DoublingProducts(point);
    var alpha := TangentTerm(point.x, delta);
    var beta4, x := DoubledAbscissa(alpha, beta);
    var z := CrossTerm(point.y, point.z, gamma, delta);
    var y := DoubledOrdinate(alpha, beta4, x, gamma);
    FieldLength(x);
    FieldLength(y);
    FieldLength(z);
    result := Jacobian(x, y, z);
  }

  /** Doubles one point; the output may be the input. */
  method JacobianDouble(point: Jacobian, output: Jacobian)
    requires point.Valid() && output.Storage()
    modifies output.x, output.y, output.z
    ensures output.Valid() && output.Elems() == DoubleSteps(old(point.Elems()))
  {
    hide Elem, IsField, Num, FMul, FAdd, FSub, DoubleSteps;
    var result := DoubledPoint(point);
    CopyJacobian(result, output);
  }

  // ---- addition ----------------------------------------------------------------------------

  /** Scales one point by the other's z: square = Z^2, scaled = X Z^2, line = Y Z^3. */
  method ScaleBy(point: Jacobian, z: array<nat>) returns (square: array<nat>, scaled: array<nat>, line: array<nat>)
    requires point.Valid() && IsField(z)
    ensures fresh(square) && fresh(scaled) && fresh(line)
    ensures IsField(square) && IsField(scaled) && IsField(line)
    ensures Elem(square) == FMul(Elem(z), Elem(z))
    ensures Elem(scaled) == ScaledX(Elem(point.x), Elem(z))
    ensures Elem(line) == ScaledY(Elem(point.y), Elem(z))
  {
    hide Elem, IsField, Num, FMul;
    square := NewField();
    scaled := NewField();
    line := NewField();
    MontgomeryMultiply(z, z, square);
    MontgomeryMultiply(point.x, square, scaled);
    MontgomeryMultiply(z, square, line);
    MontgomeryMultiply(point.y, line, line);
  }

  /** square = (2 difference)^2, cube = difference * square, scaled = leftScaled * square. */
  method ChordProducts(difference: array<nat>, leftScaled: array<nat>)
    returns (cube: array<nat>, scaled: array<nat>)
    requires IsField(difference) && IsField(leftScaled)
    ensures fresh(cube) && fresh(scaled) && IsField(cube) && IsField(scaled)
    ensures var twice := FAdd(Elem(difference), Elem(difference));
            var square := FMul(twice, twice);
            && Elem(cube) == FMul(Elem(difference), square)
            && Elem(scaled) == FMul(Elem(leftScaled), square)
  {
    hide Elem, IsField, Num, FMul, FAdd;
    var square := NewField();
    cube := NewField();
    scaled := NewField();
    FieldAdd(difference, difference, square);
    MontgomeryMultiply(square, square, square);
    MontgomeryMultiply(difference, square, cube);
    MontgomeryMultiply(leftScaled, square, scaled);
  }

  /** X = slope^2 - cube - 2 scaled. */
  method ChordAbscissa(slope: array<nat>, cube: array<nat>, scaled: array<nat>) returns (x: array<nat>)
    requires IsField(slope) && IsField(cube) && IsField(scaled)
    ensures fresh(x) && IsField(x)
    ensures Elem(x) == FSub(FSub(FMul(Elem(slope), Elem(slope)), Elem(cube)), FAdd(Elem(scaled), Elem(scaled)))
  {
    hide Elem, IsField, Num, FMul, FAdd, FSub;
    var first := NewField();
    var second := NewField();
    x := NewField();
    MontgomeryMultiply(slope, slope, first);
    FieldSubtract(first, cube, first);
    FieldAdd(scaled, scaled, second);
    FieldSubtract(first, second, x);
  }

  /** Y = slope (scaled - X) - 2 line cube. */
  method ChordOrdinate(slope: array<nat>, cube: array<nat>, scaled: array<nat>, line: array<nat>, x: array<nat>)
    returns (y: array<nat>)
    requires IsField(slope) && IsField(cube) && IsField(scaled) && IsField(line) && IsField(x)
    ensures fresh(y) && IsField(y)
    ensures var product := FMul(Elem(line), Elem(cube));
            Elem(y) == FSub(FMul(Elem(slope), FSub(Elem(scaled), Elem(x))), FAdd(product, product))
  {
    hide Elem, IsField, Num, FMul, FAdd, FSub;
    var first := NewField();
    var second := NewField();
    y := NewField();
    FieldSubtract(scaled, x, first);
    MontgomeryMultiply(slope, first, first);
    MontgomeryMultiply(line, cube, second);
    FieldAdd(second, second, second);
    FieldSubtract(first, second, y);
  }

  /** Z = ((Z1 + Z2)^2 - Z1^2 - Z2^2) difference. */
  method ChordApplicate(leftZ: array<nat>, rightZ: array<nat>, leftSquare: array<nat>,
                        rightSquare: array<nat>, difference: array<nat>) returns (z: array<nat>)
    requires IsField(leftZ) && IsField(rightZ) && IsField(leftSquare) && IsField(rightSquare)
    requires IsField(difference)
    ensures fresh(z) && IsField(z)
    ensures var sum := FAdd(Elem(leftZ), Elem(rightZ));
            Elem(z) == FMul(FSub(FSub(FMul(sum, sum), Elem(leftSquare)), Elem(rightSquare)), Elem(difference))
  {
    hide Elem, IsField, Num, FMul, FAdd, FSub;
    z := CrossTerm(leftZ, rightZ, leftSquare, rightSquare);
    FieldLength(z);
    MontgomeryMultiply(z, difference, z);
  }

  /** The general case, into fresh storage. */
  method ChordPoint(leftZ: array<nat>, rightZ: array<nat>, leftSquare: array<nat>, rightSquare: array<nat>,
                    leftScaled: array<nat>, leftLine: array<nat>, difference: array<nat>, slope: array<nat>)
    returns (result: Jacobian)
    requires IsField(leftZ) && IsField(rightZ) && IsField(leftSquare) && IsField(rightSquare)
    requires IsField(leftScaled) && IsField(leftLine) && IsField(difference) && IsField(slope)
    requires Elem(leftSquare) == FMul(Elem(leftZ), Elem(leftZ))
    requires Elem(rightSquare) == FMul(Elem(rightZ), Elem(rightZ))
    ensures result.Valid() && fresh(result.x) && fresh(result.y) && fresh(result.z)
    ensures result.Elems() == ChordSteps(Elem(leftZ), Elem(rightZ), Elem(leftScaled), Elem(leftLine),
                                         Elem(difference), Elem(slope))
  {
    hide Elem, IsField, Num, FMul, FAdd, FSub;
    var doubled := NewField();
    FieldAdd(slope, slope, doubled);
    var cube, scaled := ChordProducts(difference, leftScaled);
    var x := ChordAbscissa(doubled, cube, scaled);
    var y := ChordOrdinate(doubled, cube, scaled, leftLine, x);
    var z := ChordApplicate(leftZ, rightZ, leftSquare, rightSquare, difference);
    FieldLength(x);
    FieldLength(y);
    FieldLength(z);
    result := Jacobian(x, y, z);
  }

  method Difference(minuend: array<nat>, subtrahend: array<nat>) returns (difference: array<nat>)
    requires IsField(minuend) && IsField(subtrahend)
    ensures fresh(difference) && IsField(difference)
    ensures Elem(difference) == FSub(Elem(minuend), Elem(subtrahend))
  {
    hide Elem, IsField, Num, FSub;
    difference := NewField();
    FieldSubtract(minuend, subtrahend, difference);
  }

  /** Both points finite: equal, opposite, or on a chord. */
  method AddFinite(left: Jacobian, right: Jacobian, output: Jacobian)
    requires left.Valid() && right.Valid() && output.Storage()
    requires left.Elems().z != 0 && right.Elems().z != 0
    modifies output.x, output.y, output.z
    ensures output.Valid() && output.Elems() == AddSteps(old(left.Elems()), old(right.Elems()))
  {
    hide Elem, IsField, Num, FMul, FAdd, FSub, ScaledX, ScaledY, DoubleSteps, ChordSteps;
    var rightSquare, leftScaled, leftLine := ScaleBy(left, right.z);
    var leftSquare, rightScaled, rightLine := ScaleBy(right, left.z);
    var difference := Difference(rightScaled, leftScaled);
    var slope := Difference(rightLine, leftLine);
    var same := ZeroElement(difference);
    if same {
      var equal := ZeroElement(slope);
      if equal {
        JacobianDouble(left, output);
      } else {
        ClearPoint(output);
      }
      return;
    }
    var result := ChordPoint(left.z, right.z, leftSquare, rightSquare, leftScaled, leftLine, difference, slope);
    CopyJacobian(result, output);
  }

  method ZeroElement(value: array<nat>) returns (zero: bool)
    requires IsField(value)
    ensures zero <==> Elem(value) == 0
  {
    zero := IsZero(value);
  }

  /** The all-zero point, which is infinity. */
  method ClearPoint(output: Jacobian)
    requires output.Storage()
    modifies output.x, output.y, output.z
    ensures output.Valid() && output.Elems() == Triple(0, 0, 0)
  {
    hide Elem, IsField, Num;
    ClearField(output.x);
    ClearField(output.y);
    ClearField(output.z);
  }

  method ClearField(output: array<nat>)
    requires output.Length == WORDS
    modifies output
    ensures IsField(output) && Elem(output) == 0
  {
    hide Decode;
    forall i | 0 <= i < WORDS {
      output[i] := 0;
    }
    ValZeros(WORD, output[..]);
    DecodeZero(0);
  }

  /** Adds two points; the output may be either input. */
  method JacobianAdd(left: Jacobian, right: Jacobian, output: Jacobian)
    requires left.Valid() && right.Valid() && output.Storage()
    requires right == output || {right.x, right.y, right.z} !! {output.x, output.y, output.z}
    requires left == output || {left.x, left.y, left.z} !! {output.x, output.y, output.z}
    modifies output.x, output.y, output.z
    ensures output.Valid() && output.Elems() == AddSteps(old(left.Elems()), old(right.Elems()))
  {
    hide Elem, IsField, Num, FMul, FSub, ScaledX, ScaledY, DoubleSteps, ChordSteps;
    var leftInfinite := ZeroElement(left.z);
    if leftInfinite {
      CopyJacobian(right, output);
      return;
    }
    var rightInfinite := ZeroElement(right.z);
    if rightInfinite {
      CopyJacobian(left, output);
      return;
    }
    AddFinite(left, right, output);
  }

  // ---- entry points ------------------------------------------------------------------------

  /** Plain affine coordinates of a point. */
  method ToAffine(point: Jacobian, x: array<nat>, y: array<nat>)
    requires point.Valid() && x.Length == WORDS && y.Length == WORDS && x != y
    requires {x, y} !! {point.x, point.y, point.z}
    modifies x, y
    ensures IsField(x) && IsField(y)
    ensures Affine(Num(x), Num(y)) == AffineSteps(point.Elems())
  {
    hide Elem, IsField, Num, FMul, FPow;
    var inverse := NewField();
    var square := NewField();
    var cube := NewField();
    var value := NewField();
    MontgomeryInverse(point.z, inverse);
    MontgomeryMultiply(inverse, inverse, square);
    MontgomeryMultiply(square, inverse, cube);
    MontgomeryMultiply(point.x, square, value);
    FromMontgomery(value, x);
    MontgomeryMultiply(point.y, cube, value);
    FromMontgomery(value, y);
  }

  lemma CoefficientWords()
    ensures Digits(WORD, COEFFICIENT_B) && Val(WORD, COEFFICIENT_B) == B < P
  {
    hide Val;
    PrimeValue();
    CoefficientValue();
  }

  /** Word-for-word equality of canonical values is equality of elements. */
  method SameField(left: array<nat>, right: array<nat>) returns (same: bool)
    requires IsField(left) && IsField(right)
    ensures same <==> Elem(left) == Elem(right)
  {
    hide Val, Decode;
    same := left[..] == right[..];
    if Elem(left) == Elem(right) {
      DecodeInjective(Num(left), Num(right));
      ValInjective(WORD, left[..], right[..]);
    }
  }

  /** Both sides of the curve equation, as the check computes them. */
  method CurveSides(px: array<nat>, py: array<nat>) returns (left: array<nat>, right: array<nat>)
    requires IsField(px) && IsField(py)
    ensures IsField(left) && IsField(right)
    ensures var x, y := Num(px), Num(py);
            && Elem(left) == FMul(y, y)
            && Elem(right) == FAdd(FSub(FMul(FMul(x, x), x), FAdd(FAdd(x, x), x)), B)
  {
    hide Elem, IsField, Num, FMul, FAdd, FSub;
    var x := NewField();
    var y := NewField();
    ToMontgomery(px, x);
    ToMontgomery(py, y);
    left := NewField();
    right := NewField();
    var term := NewField();
    MontgomeryMultiply(y, y, left);
    MontgomeryMultiply(x, x, right);
    MontgomeryMultiply(right, x, right);
    FieldAdd(x, x, term);
    FieldAdd(term, x, term);
    FieldSubtract(right, term, right);
    CoefficientTerm(term);
    FieldAdd(right, term, right);
  }

  method CoefficientTerm(term: array<nat>)
    requires term.Length == WORDS
    modifies term
    ensures IsField(term) && Elem(term) == B
  {
    hide Elem, Val, Digits;
    CoefficientWords();
    var coefficient := Table(COEFFICIENT_B);
    ToMontgomery(coefficient, term);
  }

  /** Comparing the reduced sides decides the curve equation, whatever the modulus. */
  lemma SidesDecide(x: int, y: int, b: int, m: int, square: int, cube: int, two: int, three: int, difference: int)
    requires m > 0 && square == x * x % m && cube == square * x % m
    requires two == (x + x) % m && three == (two + x) % m && difference == (cube - three) % m
    ensures y * y % m == (difference + b) % m <==> CurveModulo(x, y, b, m)
  {
    hide Cong;
    CongIntro(x, x, m, 0);
    CongIntro(b, b, m, 0);
    CongMod(x * x, m);
    CongMul(square, x * x, x, x, m);
    CongMod(square * x, m);
    CongTrans(cube, square * x, x * x * x, m);
    CongMod(x + x, m);
    CongAdd(two, x + x, x, x, m);
    CongMod(two + x, m);
    CongTrans(three, two + x, x + x + x, m);
    CongAdd(cube, x * x * x, three, x + x + x, m);
    CongMod(cube - three, m);
    CongTrans(difference, cube - three, x * x * x - (x + x + x), m);
    CongAdd(difference, x * x * x - (x + x + x), b, b, m);
    assert x * x * x - (x + x + x) + b == x * x * x - 3 * x + b;
    CongIffModEqual(y * y, x * x * x - 3 * x + b, m);
    CongIffModEqual(difference + b, x * x * x - 3 * x + b, m);
  }

  lemma SidesAgree(x: nat, y: nat)
    ensures FMul(y, y) == FAdd(FSub(FMul(FMul(x, x), x), FAdd(FAdd(x, x), x)), B) <==> CurveEquation(x, y)
  {
    hide Val, CurveModulo;
    var square, two := FMul(x, x), FAdd(x, x);
    var cube, three := FMul(square, x), FAdd(two, x);
    SidesDecide(x, y, B, P, square, cube, two, three, FSub(cube, three));
  }

  /** A point may be multiplied when both coordinates are below p and on the curve. */
  method PointOnCurve(x: array<nat>, y: array<nat>) returns (on: bool)
    requires IsWords(x) && IsWords(y)
    ensures on <==> OnCurve(Affine(Num(x), Num(y)))
  {
    hide Val, Digits, Decode, CurveModulo, FMul, FAdd, FSub;
    ConstantValues();
    var prime := Table(PRIME);
    var xBelow := LessThan(x, prime);
    var yBelow := LessThan(y, prime);
    if !xBelow || !yBelow {
      return false;
    }
    var left, right := CurveSides(x, y);
    SidesAgree(Num(x), Num(y));
    on := SameField(left, right);
  }

  /** A private key must be in 1 to n - 1. */
  method ValidScalar(scalar: array<nat>) returns (valid: bool)
    requires IsWords(scalar)
    ensures valid <==> 0 < Num(scalar) < Val(WORD, ORDER)
  {
    hide Val;
    var zero := IsZero(scalar);
    var order := Table(ORDER);
    var below := LessThan(scalar, order);
    valid := !zero && below;
  }

  /** One ladder step: double, add the base, and keep one of the two. */
  method LadderStep(accumulator: Jacobian, base: Jacobian, take: bool)
    requires accumulator.Valid() && base.Valid()
    requires {accumulator.x, accumulator.y, accumulator.z} !! {base.x, base.y, base.z}
    modifies accumulator.x, accumulator.y, accumulator.z
    ensures accumulator.Valid()
    ensures var doubled := DoubleSteps(old(accumulator.Elems()));
            accumulator.Elems() == if take then AddSteps(doubled, base.Elems()) else doubled
  {
    hide Elem, IsField, Num, DoubleSteps, AddSteps;
    var doubled := ZeroPoint();
    JacobianDouble(accumulator, doubled);
    var summed := ZeroPoint();
    JacobianAdd(doubled, base, summed);
    PickField(take, summed.x, doubled.x, accumulator.x);
    PickField(take, summed.y, doubled.y, accumulator.y);
    PickField(take, summed.z, doubled.z, accumulator.z);
  }

  method PickField(take: bool, first: array<nat>, second: array<nat>, output: array<nat>)
    requires IsField(first) && IsField(second) && output.Length == WORDS
    modifies output
    ensures IsField(output) && Elem(output) == old(if take then Elem(first) else Elem(second))
  {
    Select(take, first, second, output);
  }

  method ZeroPoint() returns (point: Jacobian)
    ensures point.Valid() && fresh(point.x) && fresh(point.y) && fresh(point.z)
    ensures point.Elems() == Triple(0, 0, 0)
  {
    hide Elem, IsField, Num;
    var x := new nat[WORDS];
    var y := new nat[WORDS];
    var z := new nat[WORDS];
    point := Jacobian(x, y, z);
    ClearPoint(point);
  }

  /** The base point of a ladder: plain coordinates moved into the domain, z one. */
  method BasePoint(x: array<nat>, y: array<nat>) returns (base: Jacobian)
    requires IsField(x) && IsField(y)
    ensures base.Valid() && fresh(base.x) && fresh(base.y) && fresh(base.z)
    ensures base.Elems() == Triple(Num(x), Num(y), 1)
  {
    hide Elem, Val, Digits, Decode;
    base := ZeroPoint();
    ToMontgomery(x, base.x);
    ToMontgomery(y, base.y);
    OneInto(base.z);
  }

  method OneInto(output: array<nat>)
    requires output.Length == WORDS
    modifies output
    ensures IsField(output) && Elem(output) == 1
  {
    hide Val, Digits, Decode;
    ConstantValues();
    MontgomeryOne();
    var one := Table(MONTGOMERY_ONE);
    Select(true, one, one, output);
  }

  /** The ladder over all 224 scalar bits, most significant first. */
  method RunLadder(scalar: array<nat>, base: Jacobian) returns (accumulator: Jacobian)
    requires IsWords(scalar) && base.Valid()
    ensures accumulator.Valid() && fresh(accumulator.x) && fresh(accumulator.y) && fresh(accumulator.z)
    ensures accumulator.Elems() == Ladder(Num(scalar), 0, base.Elems())
  {
    hide Elem, Val, Digits, Above, BitSet, DoubleSteps, AddSteps;
    accumulator := ZeroPoint();
    var index := WORDS;
    while index > 0
      invariant 0 <= index <= WORDS && accumulator.Valid()
      invariant accumulator.Elems() == Ladder(Num(scalar), WORD_BITS * index, base.Elems())
    {
      index := index - 1;
      var bit := WORD_BITS;
      while bit > 0
        invariant 0 <= bit <= WORD_BITS && accumulator.Valid()
        invariant accumulator.Elems() == Ladder(Num(scalar), WORD_BITS * index + bit, base.Elems())
      {
        bit := bit - 1;
        AboveStep(scalar[..], index, bit);
        LadderStep(accumulator, base, BitSet(scalar[index], bit));
      }
    }
  }

  lemma BaseRepresents(x: nat, y: nat)
    requires x < P && y < P
    ensures Represents(Triple(x, y, 1), Affine(x, y))
  {
    assert Square(1) == 1 && Cube(1) == 1;
    Same(x);
    Same(y);
  }

  /** Multiplies a point by a scalar; false exactly when the product is infinite. */
  method Multiply(scalar: array<nat>, x: array<nat>, y: array<nat>, outX: array<nat>, outY: array<nat>)
    returns (finite: bool)
    requires IsWords(scalar) && IsField(x) && IsField(y)
    requires outX.Length == WORDS && outY.Length == WORDS && outX != outY
    modifies outX, outY
    ensures !finite ==> outX[..] == old(outX[..]) && outY[..] == old(outY[..])
    ensures finite ==> IsField(outX) && IsField(outY)
    ensures Prime(P) && Associative() && OnCurve(Affine(old(Num(x)), old(Num(y)))) ==>
              var product := Times(old(Num(scalar)), Affine(old(Num(x)), old(Num(y))));
              && (finite <==> product.Affine?)
              && (finite ==> Affine(Num(outX), Num(outY)) == product && OnCurve(product))
  {
    hide Elem, IsField, Num, Prime, Associative, OnCurve, Times, Ladder, AffineSteps;
    ghost var e, p := Num(scalar), Affine(Num(x), Num(y));
    var base := BasePoint(x, y);
    FieldBound(x);
    FieldBound(y);
    WordsFit(scalar);
    var accumulator := RunLadder(scalar, base);
    if Prime(P) && Associative() && OnCurve(p) {
      BaseRepresents(p.x, p.y);
      LadderCorrect(e, Triple(p.x, p.y, 1), p);
    }
    var infinite := ZeroElement(accumulator.z);
    if infinite {
      return false;
    }
    ToAffine(accumulator, outX, outY);
    return true;
  }

  lemma FieldBound(a: array<nat>)
    requires IsField(a)
    ensures Num(a) < P && a.Length == WORDS
  {}
}
