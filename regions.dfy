/**
 * KenKen regions (Lab 4, the regions package).  A region has a number, a target and
 * the values written into its cells; it is correct when folding its values with
 * its operator gives the target.  The four operator subclasses of the source
 * are one class here with the operator as a constant field.
 *
 * The folds run on Java `int`s, so every step wraps around modulo 2^32 and
 * division truncates toward zero; both are written out.
 */
module Regions {
  import opened Wrappers
  import opened Decimal

  const TWO_32: int := 0x1_0000_0000
  const INT_MIN: int := -0x8000_0000
  const INT_MAX: int := 0x7fff_ffff

  predicate IsInt32(x: int) {
    INT_MIN <= x <= INT_MAX
  }

  /** The Java `int` holding x after wrap-around: the one in range that differs from x by a multiple of 2^32. */
  function Wrap32(x: int): (w: int)
    ensures IsInt32(w) && (x - w) % TWO_32 == 0
    ensures IsInt32(x) ==> w == x
  {
    (x - INT_MIN) % TWO_32 + INT_MIN
  }

  /** Adding a multiple of 2^32 does not change the wrapped value. */
  lemma WrapShift(x: int, t: int)
    ensures Wrap32(x + t * TWO_32) == Wrap32(x)
  {
    assert (x + t * TWO_32 - INT_MIN) % TWO_32 == (x - INT_MIN) % TWO_32;
  }

  /** Wrapping after every addition is wrapping once at the end. */
  lemma WrapAdd(a: int, b: int)
    ensures Wrap32(Wrap32(a) + b) == Wrap32(a + b)
  {
    var t := (a - Wrap32(a)) / TWO_32;
    assert Wrap32(a) + b == a + b - t * TWO_32;
    WrapShift(a + b, -t);
  }

  /** Wrapping after every multiplication is wrapping once at the end. */
  lemma WrapMul(a: int, b: int)
    ensures Wrap32(Wrap32(a) * b) == Wrap32(a * b)
  {
    var t := (a - Wrap32(a)) / TWO_32;
    assert a == Wrap32(a) + t * TWO_32;
    assert Wrap32(a) * b == a * b - (t * b) * TWO_32;
    WrapShift(a * b, -(t * b));
  }

  /** Java's `/` on `int`: the quotient truncated toward zero. */
  function TruncDiv(a: int, b: int): int
    requires b != 0
  {
    if a >= 0 && b > 0 then a / b
    else if a >= 0 then -(a / -b)
    else if b > 0 then -(-a / b)
    else -a / -b
  }

  // ---------------------------------------------------------------------------
  // The folds, as mathematics
  // ---------------------------------------------------------------------------

  function Sum(s: seq<int>): int {
    if s == [] then 0 else Sum(s[..|s| - 1]) + s[|s| - 1]
  }

  function Product(s: seq<int>): int {
    if s == [] then 1 else Product(s[..|s| - 1]) * s[|s| - 1]
  }

  /** The largest value, as `Collections.max` finds it. */
  function Max(s: seq<int>): (m: int)
    requires |s| > 0
    ensures m in s && forall i :: 0 <= i < |s| ==> s[i] <= m
  {
    if |s| == 1 then s[0]
    else
      var m := Max(s[..|s| - 1]);
      assert forall i :: 0 <= i < |s| - 1 ==> s[i] == s[..|s| - 1][i];
      if s[|s| - 1] > m then s[|s| - 1] else m
  }

  /** The sum of the values different from m. */
  function SumExcept(s: seq<int>, m: int): int {
    if s == [] then 0
    else SumExcept(s[..|s| - 1], m) + (if s[|s| - 1] != m then s[|s| - 1] else 0)
  }

  /** The product of the values different from m. */
  function ProductExcept(s: seq<int>, m: int): int {
    if s == [] then 1
    else ProductExcept(s[..|s| - 1], m) * (if s[|s| - 1] != m then s[|s| - 1] else 1)
  }

  /** No value different from m is zero, so dividing by each of them is defined. */
  predicate NoZeroDivisor(s: seq<int>, m: int) {
    forall i :: 0 <= i < |s| ==> s[i] != m ==> s[i] != 0
  }

  /** m divided in turn, in `int` arithmetic, by each value different from m. */
  function QuotientOf(s: seq<int>, m: int): int
    requires NoZeroDivisor(s, m)
  {
    if s == [] then m
    else
      var q := QuotientOf(s[..|s| - 1], m);
      var v := s[|s| - 1];
      if v != m then Wrap32(TruncDiv(q, v)) else q
  }

  /** Dividing by b and then by c is dividing by b * c, for non-negative numbers. */
  lemma DivDiv(a: nat, b: nat, c: nat)
    requires b > 0 && c > 0
    ensures a / b / c == a / (b * c)
  {
    var q, r := a / b, a % b;
    var q2, r2 := q / c, q % c;
    assert a == b * q + r;
    assert q == c * q2 + r2;
    assert b * q == (b * c) * q2 + b * r2 by {
      assert b * (c * q2 + r2) == b * (c * q2) + b * r2;
    }
    assert b * r2 <= b * (c - 1) by {
      MulLe(b, r2, c - 1);
    }
    assert b * (c - 1) == b * c - b;
    DivUnique(a, b * c, q2, b * r2 + r);
  }

  lemma MulLe(b: nat, x: int, y: int)
    requires x <= y
    ensures b * x <= b * y
  {
    assert b * y - b * x == b * (y - x);
  }

  /** The quotient is the only q with a == d * q + r and 0 <= r < d. */
  lemma DivUnique(a: int, d: int, q: int, r: int)
    requires d > 0 && a == d * q + r && 0 <= r < d
    ensures a / d == q
  {
    var q0, r0 := a / d, a % d;
    assert a == d * q0 + r0;
    assert d * (q - q0) == r0 - r by {
      assert d * (q - q0) == d * q - d * q0;
    }
    if q > q0 {
      MulLe(d, 1, q - q0);
      assert false;
    } else if q < q0 {
      MulLe(d, 1, q0 - q);
      assert false;
    }
  }

  /**
   * With positive values and a non-negative start, dividing in turn is dividing
   * once by the product of the divisors: the order of the values does not matter.
   */
  lemma {:induction false} QuotientIsDivisionByProduct(s: seq<int>, m: int)
    requires 0 <= m <= INT_MAX && forall i :: 0 <= i < |s| ==> s[i] > 0
    ensures ProductExcept(s, m) > 0
    ensures QuotientOf(s, m) == m / ProductExcept(s, m)
  {
    if s != [] {
      var p := s[..|s| - 1];
      var v := s[|s| - 1];
      assert forall i :: 0 <= i < |p| ==> p[i] == s[i];
      QuotientIsDivisionByProduct(p, m);
      var q := QuotientOf(p, m);
      var pp := ProductExcept(p, m);
      if v != m {
        QuotientStep(m, pp, v);
        assert ProductExcept(s, m) == pp * v;
      } else {
        assert ProductExcept(s, m) == pp;
      }
    }
  }

  /** One division step of a positive fold stays within the Java range and divides by one more factor. */
  lemma QuotientStep(m: int, pp: int, v: int)
    requires 0 <= m <= INT_MAX && pp > 0 && v > 0
    ensures pp * v > 0 && Wrap32(TruncDiv(m / pp, v)) == m / (pp * v)
  {
    MulLe(pp, 1, v);
    DivAtMost(m, pp);
    DivAtMost(m / pp, v);
    DivDiv(m, pp, v);
  }

  lemma DivAtMost(a: nat, b: nat)
    requires b > 0
    ensures a / b <= a
  {
    MulLe(a / b, 1, b);
    assert a == b * (a / b) + a % b;
  }

  /** What verify throws: NoSuchElementException from the maximum of no values, ArithmeticException from a division by zero. */
  datatype RegionError = EmptyRegion | DivisionByZero

  /** The verdict a region with operator op, target and values reaches, or the exception its check throws. */
  function Verdict(op: Op, values: seq<int>, target: int): Result<bool, RegionError> {
    match op
    case Add => Ok(Wrap32(Sum(values)) == target)
    case Multiply => Ok(Wrap32(Product(values)) == target)
    case Subtract =>
      if values == [] then Err(EmptyRegion)
      else Ok(Wrap32(Max(values) - SumExcept(values, Max(values))) == target)
    case Divide =>
      if values == [] then Err(EmptyRegion)
      else if !NoZeroDivisor(values, Max(values)) then Err(DivisionByZero)
      else Ok(QuotientOf(values, Max(values)) == target)
  }

  /**
   * An empty addition region holds exactly when its target is 0, an empty
   * product region when it is 1; an empty subtraction or division region has
   * no largest value.
   */
  lemma EmptyRegions(target: int)
    ensures Verdict(Add, [], target) == Ok(target == 0)
    ensures Verdict(Multiply, [], target) == Ok(target == 1)
    ensures Verdict(Subtract, [], target) == Err(EmptyRegion) && Verdict(Divide, [], target) == Err(EmptyRegion)
  {
  }

  /** A zero among the values other than the largest makes a division region throw. */
  lemma ZeroDivisor(values: seq<int>, target: int, i: int)
    requires 0 <= i < |values| && values[i] == 0 && values[i] != Max(values)
    ensures Verdict(Divide, values, target) == Err(DivisionByZero)
  {
  }

  /** A zero anywhere makes the product 0. */
  lemma {:induction false} ZeroProduct(s: seq<int>)
    requires exists i :: 0 <= i < |s| && s[i] == 0
    ensures Product(s) == 0
  {
    var p := s[..|s| - 1];
    if s[|s| - 1] != 0 {
      var i :| 0 <= i < |s| && s[i] == 0;
      assert p[i] == 0;
      ZeroProduct(p);
    }
  }

  /**
   * A subtraction region of two different values holds exactly when the
   * target is their distance as a Java `int` holds it: the distance itself
   * when it fits, and wrapped past INT_MAX otherwise.
   */
  lemma SubtractTwo(a: int, b: int, target: int)
    requires IsInt32(a) && IsInt32(b) && a != b
    ensures Verdict(Subtract, [a, b], target) == Ok(Wrap32(if a > b then a - b else b - a) == target)
    ensures (if a > b then a - b else b - a) <= INT_MAX ==>
      Verdict(Subtract, [a, b], target) == Ok((if a > b then a - b else b - a) == target)
  {
    var s, m := [a, b], if a > b then a else b;
    assert s[..1] == [a] && [a][..0] == [];
    assert Max(s) == m;
    assert SumExcept([a], m) == if a > b then 0 else a;
    assert SumExcept(s, m) == if a > b then b else a;
  }

  /** The distance from -1 to INT_MAX does not fit in an `int`: it wraps to INT_MIN. */
  lemma SubtractWraps()
    ensures Verdict(Subtract, [INT_MAX, -1], INT_MIN) == Ok(true)
  {
    SubtractTwo(INT_MAX, -1, INT_MIN);
  }

  /** Every copy of the largest value is skipped: a region of equal values folds to that value. */
  lemma {:induction false} SkipsEveryMax(s: seq<int>, m: int)
    requires forall i :: 0 <= i < |s| ==> s[i] == m
    ensures SumExcept(s, m) == 0 && ProductExcept(s, m) == 1 && QuotientOf(s, m) == m
  {
    if s != [] {
      SkipsEveryMax(s[..|s| - 1], m);
    }
  }

  /** A division region of two different positive values holds exactly when the target is the larger divided by the smaller. */
  lemma DivideTwo(a: int, b: int, target: int)
    requires 0 < a <= INT_MAX && 0 < b <= INT_MAX && a != b
    ensures Verdict(Divide, [a, b], target) == Ok((if a > b then a / b else b / a) == target)
  {
    var s, m := [a, b], if a > b then a else b;
    assert s[..1] == [a] && [a][..0] == [];
    assert Max(s) == m;
    if a > b {
      assert QuotientOf([a], m) == a;
      assert a / b <= a by { DivAtMost(a, b); }
    } else {
      assert b / a <= b by { DivAtMost(b, a); }
      assert QuotientOf([a], m) == b / a;
    }
  }

  // ---------------------------------------------------------------------------
  // The values string
  // ---------------------------------------------------------------------------

  /** The values joined by ", ". */
  function Join(s: seq<int>): string {
    if s == [] then ""
    else if |s| == 1 then IntToString(s[0])
    else IntToString(s[0]) + ", " + Join(s[1..])
  }

  /** Every value followed by ", ". */
  function Terms(s: seq<int>): string {
    if s == [] then "" else Terms(s[..|s| - 1]) + IntToString(s[|s| - 1]) + ", "
  }

  /** Joining ends with the last value, not with a separator; it is empty only for no values. */
  lemma {:induction false} JoinLast(s: seq<int>, v: int)
    ensures Join(s + [v]) == Terms(s) + IntToString(v)
    ensures Join(s + [v]) != ""
    decreases |s|
  {
    if s != [] {
      var t := s[1..];
      assert (s + [v])[1..] == t + [v];
      JoinLast(t, v);
      TermsFront(s);
    }
  }

  lemma {:induction false} TermsFront(s: seq<int>)
    requires s != []
    ensures Terms(s) == IntToString(s[0]) + ", " + Terms(s[1..])
    decreases |s|
  {
    if |s| > 1 {
      var p := s[..|s| - 1];
      TermsFront(p);
      TermsOfTail(s);
      var f, m, v := IntToString(s[0]) + ", ", Terms(p[1..]), IntToString(s[|s| - 1]);
      calc {
        Terms(s);
        Terms(p) + v + ", ";
        f + m + v + ", ";
        { ConcatAssoc(f, m, v, ", "); }
        f + (m + v + ", ");
        f + Terms(s[1..]);
      }
    }
  }

  lemma ConcatAssoc(a: string, b: string, c: string, d: string)
    ensures a + b + c + d == a + (b + c + d)
  {
  }

  /** Dropping the first value and then the last is dropping the last and then the first. */
  lemma TermsOfTail(s: seq<int>)
    requires |s| > 1
    ensures Terms(s[1..]) == Terms(s[..|s| - 1][1..]) + IntToString(s[|s| - 1]) + ", "
  {
    var t := s[1..];
    assert t[..|t| - 1] == s[..|s| - 1][1..];
  }

  // ---------------------------------------------------------------------------
  // Regions
  // ---------------------------------------------------------------------------

  /** The operator of a region: the subclass of the source it stands for. */
  datatype Op = Add | Subtract | Multiply | Divide {
    function Symbol(): char {
      match this
      case Add => '+'
      case Subtract => '-'
      case Multiply => '*'
      case Divide => '/'
    }
  }

  class Region {
    /** the region number */
    var number: int
    /** the target value of the region */
    var target: int
    /** the values in the region's cells, in the order they were added */
    var values: seq<int>
    /** the operator */
    const op: Op

    /** Every field holds a Java int. */
    ghost predicate Valid()
      reads this
    {
      IsInt32(number) && IsInt32(target) && forall i :: 0 <= i < |values| ==> IsInt32(values[i])
    }

    /** A region with no values yet. */
    constructor (op: Op, number: int, target: int)
      requires IsInt32(number) && IsInt32(target)
      ensures Valid() && this.op == op && this.number == number && this.target == target && values == []
    {
      this.op := op;
      this.number := number;
      this.target := target;
      this.values := [];
    }

    /** Appends a value; the number and the target stay. */
    method AddValue(value: int)
      requires Valid() && IsInt32(value)
      modifies this`values
      ensures Valid() && values == old(values) + [value]
    {
      values := values + [value];
    }

    method GetNumber() returns (n: int)
      ensures n == number
    {
      return number;
    }

    /** The values separated by ", ", with no separator after the last. */
    method GetValuesString() returns (str: string)
      ensures str == Join(values)
    {
      str := "";
      for i := 0 to |values|
        invariant i < |values| ==> str == Terms(values[..i])
        invariant i == |values| ==> str == Join(values)
      {
        var last := i == |values| - 1;
        if last {
          assert values[..i] + [values[i]] == values;
          JoinLast(values[..i], values[i]);
        } else {
          assert values[..i + 1][..i] == values[..i];
        }
        str := str + IntToString(values[i]) + (if last then "" else ", ");
      }
    }

    /** Whether the values add up to the target (AddRegion). */
    method VerifyAdd() returns (ok: bool)
      ensures Verdict(Add, values, target) == Ok(ok)
    {
      var sum := 0;
      for i := 0 to |values|
        invariant sum == Wrap32(Sum(values[..i]))
      {
        assert values[..i + 1][..i] == values[..i];
        WrapAdd(Sum(values[..i]), values[i]);
        sum := Wrap32(sum + values[i]);
      }
      assert values[..|values|] == values;
      return sum == target;
    }

    /**
     * Whether the largest value minus every value different from it gives the
     * target (SubtractRegion); there is no largest of no values.
     */
    method VerifySubtract() returns (r: Result<bool, RegionError>)
      requires Valid()
      ensures r == Verdict(Subtract, values, target)
    {
      if values == [] {
        return Err(EmptyRegion);
      }
      var max := Max(values);
      var difference := max;
      for i := 0 to |values|
        invariant difference == Wrap32(max - SumExcept(values[..i], max))
      {
        assert values[..i + 1][..i] == values[..i];
        if values[i] != max {
          WrapAdd(max - SumExcept(values[..i], max), -values[i]);
          difference := Wrap32(difference - values[i]);
        }
      }
      assert values[..|values|] == values;
      return Ok(difference == target);
    }

    /** Whether the values multiply to the target (MultiplyRegion). */
    method VerifyMultiply() returns (ok: bool)
      ensures Verdict(Multiply, values, target) == Ok(ok)
    {
      var product := 1;
      for i := 0 to |values|
        invariant product == Wrap32(Product(values[..i]))
      {
        assert values[..i + 1][..i] == values[..i];
        WrapMul(Product(values[..i]), values[i]);
        product := Wrap32(product * values[i]);
      }
      assert values[..|values|] == values;
      return product == target;
    }

    /**
     * Whether the largest value divided in turn by every value different from
     * it gives the target (DivideRegion); a zero divisor throws on the way.
     */
    method VerifyDivide() returns (r: Result<bool, RegionError>)
      ensures r == Verdict(Divide, values, target)
    {
      if values == [] {
        return Err(EmptyRegion);
      }
      var max := Max(values);
      var quotient := max;
      for i := 0 to |values|
        invariant NoZeroDivisor(values[..i], max)
        invariant quotient == QuotientOf(values[..i], max)
      {
        assert values[..i + 1][..i] == values[..i];
        if values[i] != max {
          if values[i] == 0 {
            return Err(DivisionByZero);
          }
          quotient := Wrap32(TruncDiv(quotient, values[i]));
        }
      }
      assert values[..|values|] == values;
      return Ok(quotient == target);
    }

    /** Whether the region is correct, by the check of its operator. */
    method Verify() returns (r: Result<bool, RegionError>)
      requires Valid()
      ensures r == Verdict(op, values, target)
    {
      match op
      case Add =>
        var ok := VerifyAdd();
        r := Ok(ok);
      case Subtract => r := VerifySubtract();
      case Multiply =>
        var ok := VerifyMultiply();
        r := Ok(ok);
      case Divide => r := VerifyDivide();
    }

    /** The region as text: number, target, values, operator and verdict; the exception of the check propagates. */
    method ToString() returns (r: Result<string, RegionError>)
      requires Valid()
      ensures Verdict(op, values, target).Err? ==> r == Err(Verdict(op, values, target).error)
      ensures Verdict(op, values, target).Ok? ==>
        r == Ok("Region " + IntToString(number) + ": {target: " + IntToString(target) +
                ", values: " + Join(values) + " op: " + [op.Symbol()] + ", " +
                (if Verdict(op, values, target).value then "true" else "false") + "}")
    {
      var vs := GetValuesString();
      var ok :- Verify();
      r := Ok("Region " + IntToString(number) + ": {target: " + IntToString(target) +
              ", values: " + vs + " op: " + [op.Symbol()] + ", " + (if ok then "true" else "false") + "}");
    }
  }
}
