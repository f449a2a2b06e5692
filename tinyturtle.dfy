/**
 * Tiny Turtle macro expansion (Lab 1, tinyturtle.py).  A polygon command
 * "P<n> <len>" becomes the iteration "I<n> F<len> L<360 div n> @", and every
 * iteration "I<n> <body>@ " becomes its body written n times, innermost first.
 * Python's string operations (find, slicing, repetition, rstrip, int of one
 * character) are written out, and so are the exceptions they raise.
 */
module TinyTurtle {
  import opened Wrappers
  import opened Decimal

  /** What the expansion raises. */
  datatype TurtleError =
    | NotADigit        // ValueError from int()
    | DivisionByZero   // ZeroDivisionError from 360 / 0
    | IndexOutOfRange  // IndexError from s[start + 1]
    | OutOfFuel        // the expansion ran longer than the bound it was given

  // ---------------------------------------------------------------------------
  // Python string operations
  // ---------------------------------------------------------------------------

  /** str.find(c, from): the first index at or after from holding c, or -1. */
  function Find(s: string, c: char, from: nat): (r: int)
    ensures r == -1 || (from <= r < |s| && s[r] == c)
    decreases |s| - from
  {
    if from >= |s| then -1 else if s[from] == c then from else Find(s, c, from + 1)
  }

  /** Find misses no c: none lies between from and the index found, or after from when none is found. */
  lemma {:induction false} FindFirst(s: string, c: char, from: nat)
    ensures forall k :: from <= k < |s| && (Find(s, c, from) == -1 || k < Find(s, c, from)) ==> s[k] != c
    decreases |s| - from
  {
    if from < |s| && s[from] != c {
      FindFirst(s, c, from + 1);
    }
  }

  /** str.index with one argument: the first c in s, which must hold one. */
  function IndexOf(s: string, c: char): (r: nat)
    requires c in s
    ensures r < |s| && s[r] == c && r == Find(s, c, 0)
  {
    FindFirst(s, c, 0);
    Find(s, c, 0)
  }

  /** A Python slice bound: negative counts from the end, and out-of-range bounds are clamped. */
  function Bound(i: int, n: nat): (b: nat)
    ensures b <= n
  {
    if i < 0 then (if i + n < 0 then 0 else i + n) else if i > n then n else i
  }

  /** s[a:b] in Python. */
  function Slice(s: string, a: int, b: int): string {
    var lo, hi := Bound(a, |s|), Bound(b, |s|);
    if lo < hi then s[lo..hi] else []
  }

  /** Python slicing agrees with Dafny's in range, and is clamped at the end. */
  lemma SliceIs(s: string, a: int, b: int)
    ensures 0 <= a <= b <= |s| ==> Slice(s, a, b) == s[a..b]
    ensures a >= 0 && b >= |s| ==> Slice(s, a, b) == s[if a < |s| then a else |s|..]
  {
  }

  /** t * n in Python. */
  function Repeat(t: string, n: nat): string {
    if n == 0 then [] else Repeat(t, n - 1) + t
  }

  /** t written n times is n times as long and holds only characters of t. */
  lemma {:induction false} RepeatChars(t: string, n: nat)
    ensures |Repeat(t, n)| == n * |t|
    ensures forall i :: 0 <= i < |Repeat(t, n)| ==> Repeat(t, n)[i] in t
  {
    if n > 0 {
      RepeatChars(t, n - 1);
      var r := Repeat(t, n - 1);
      assert Repeat(t, n) == r + t;
      forall i | 0 <= i < |Repeat(t, n)| ensures Repeat(t, n)[i] in t {
        if i >= |r| {
          assert Repeat(t, n)[i] == t[i - |r|];
        }
      }
    }
  }

  /** Whether Python's str.isspace holds for the character. */
  predicate IsSpace(c: char) {
    var n := c as int;
    (9 <= n <= 13) || (28 <= n <= 32) || n == 0x85 || n == 0xA0 || n == 0x1680 ||
    (0x2000 <= n <= 0x200A) || n == 0x2028 || n == 0x2029 || n == 0x202F || n == 0x205F || n == 0x3000
  }

  /** str.rstrip(): s without its trailing whitespace. */
  function RStrip(s: string): string {
    if s != [] && IsSpace(s[|s| - 1]) then RStrip(s[..|s| - 1]) else s
  }

  /** rstrip keeps a prefix that ends in no whitespace and removes only whitespace. */
  lemma {:induction false} RStripIs(s: string)
    ensures |RStrip(s)| <= |s| && RStrip(s) == s[..|RStrip(s)|]
    ensures RStrip(s) == [] || !IsSpace(RStrip(s)[|RStrip(s)| - 1])
    ensures forall k :: |RStrip(s)| <= k < |s| ==> IsSpace(s[k])
  {
    if s != [] && IsSpace(s[|s| - 1]) {
      var p := s[..|s| - 1];
      RStripIs(p);
      assert p[..|RStrip(p)|] == s[..|RStrip(p)|];
    }
  }

  // ---------------------------------------------------------------------------
  // Polygons
  // ---------------------------------------------------------------------------

  /**
   * The text with the polygon command at index, of the given number of sides,
   * replaced by the equivalent iteration.
   */
  function PolygonText(s: string, index: nat, sides: nat): string
    requires index < |s| && s[index] == 'P' && 1 <= sides <= 9
  {
    var head := "I" + NatToString(sides) + " F";
    var tail := " L" + NatToString(360 / sides) + " @";
    Slice(s, 0, index) + head + Slice(s, index + 3, index + 6) + tail + Slice(s, index + 6, |s|)
  }

  /** The rewritten text holds fewer 'P's. */
  lemma PolygonTextFewerP(s: string, index: nat, sides: nat)
    requires index < |s| && s[index] == 'P' && 1 <= sides <= 9
    ensures multiset(PolygonText(s, index, sides))['P'] < multiset(s)['P']
  {
    var head := "I" + NatToString(sides) + " F";
    var tail := " L" + NatToString(360 / sides) + " @";
    FewerP(s, index, head, tail);
  }

  /** Replacing the 'P' at index and the two characters after it by text without 'P' removes a 'P'. */
  lemma FewerP(s: string, index: nat, head: string, tail: string)
    requires index < |s| && s[index] == 'P' && 'P' !in head && 'P' !in tail
    ensures multiset(Slice(s, 0, index) + head + Slice(s, index + 3, index + 6) + tail + Slice(s, index + 6, |s|))['P'] < multiset(s)['P']
  {
    var m := if index + 3 < |s| then index + 3 else |s|;
    var pre, length, rest := Slice(s, 0, index), Slice(s, index + 3, index + 6), Slice(s, index + 6, |s|);
    PolygonSlices(s, index, m);
    CountSplit(s, index, m);
    CountOfParts(pre, head, length, tail, rest);
    NoneCounted(head, 'P');
    NoneCounted(tail, 'P');
  }

  /** Before the command is s[..index]; the length and the rest together are what follows "P<n> ". */
  lemma PolygonSlices(s: string, index: nat, m: nat)
    requires index < |s| && m == if index + 3 < |s| then index + 3 else |s|
    ensures Slice(s, 0, index) == s[..index]
    ensures Slice(s, index + 3, index + 6) + Slice(s, index + 6, |s|) == s[m..]
  {
    SliceIs(s, 0, index);
    SliceIs(s, index + 3, index + 6);
    SliceIs(s, index + 6, |s|);
    if index + 6 <= |s| {
      assert s[m..] == s[index + 3..index + 6] + s[index + 6..];
    }
  }

  /** Cutting s at index and m splits its count of 'P', the middle part holding the 'P' at index. */
  lemma CountSplit(s: string, index: nat, m: nat)
    requires index < m <= |s| && s[index] == 'P'
    ensures multiset(s)['P'] == multiset(s[..index])['P'] + multiset(s[index..m])['P'] + multiset(s[m..])['P']
    ensures multiset(s[index..m])['P'] >= 1
  {
    assert s == s[..index] + s[index..m] + s[m..];
    assert s[index..m][0] == 'P';
  }

  /** Counts add up over a concatenation of five parts. */
  lemma CountOfParts(a: string, b: string, c: string, d: string, e: string)
    ensures multiset(a + b + c + d + e)['P'] == multiset(a)['P'] + multiset(b)['P'] + multiset(c + e)['P'] + multiset(d)['P']
  {
  }

  /** A character absent from t is counted zero times. */
  lemma NoneCounted(t: string, c: char)
    requires c !in t
    ensures multiset(t)[c] == 0
  {
  }

  /**
   * Rewrites the first polygon command: its one-digit side count must be a
   * digit other than 0.
   */
  function PolygonStep(s: string): Result<string, TurtleError>
    requires 'P' in s
  {
    var index := IndexOf(s, 'P');
    var digits := Slice(s, index + 1, index + 2);
    if |digits| == 0 || !IsDigit(digits[0]) then Err(NotADigit)
    else if DigitValue(digits[0]) == 0 then Err(DivisionByZero)
    else Ok(PolygonText(s, index, DigitValue(digits[0])))
  }

  /** A successful rewrite removes a 'P'. */
  lemma PolygonStepFewerP(s: string)
    requires 'P' in s
    ensures PolygonStep(s).Ok? ==> multiset(PolygonStep(s).value)['P'] < multiset(s)['P']
  {
    if PolygonStep(s).Ok? {
      var i := IndexOf(s, 'P');
      PolygonStepOk(s, i);
      PolygonTextFewerP(s, i, DigitValue(s[i + 1]));
    }
  }

  /** A successful rewrite read a non-zero digit just after the first 'P'. */
  lemma PolygonStepOk(s: string, i: nat)
    requires 'P' in s && i == IndexOf(s, 'P') && PolygonStep(s).Ok?
    ensures i + 1 < |s| && IsDigit(s[i + 1]) && 1 <= DigitValue(s[i + 1]) <= 9
    ensures PolygonStep(s).value == PolygonText(s, i, DigitValue(s[i + 1]))
  {
    SliceIs(s, i + 1, i + 2);
  }

  /** Rewrites polygon commands, first one first, until none is left. */
  function ExpandPolygons(s: string): (r: Result<string, TurtleError>)
    ensures r.Ok? ==> 'P' !in r.value
    ensures 'P' !in s ==> r == Ok(s)
    decreases multiset(s)['P']
  {
    if 'P' !in s then Ok(s)
    else
      PolygonStepFewerP(s);
      match PolygonStep(s)
      case Err(e) => Err(e)
      case Ok(t) => ExpandPolygons(t)
  }

  /** expand_polygon: the loop that rewrites polygon commands until no 'P' is left. */
  method ExpandPolygon(s0: string) returns (r: Result<string, TurtleError>)
    ensures r == ExpandPolygons(s0)
  {
    var s := s0;
    while 'P' in s
      invariant ExpandPolygons(s) == ExpandPolygons(s0)
      decreases multiset(s)['P']
    {
      var step := PolygonStep(s);
      var index := IndexOf(s, 'P');
      var digits := Slice(s, index + 1, index + 2);
      if |digits| == 0 || !IsDigit(digits[0]) {
        return Err(NotADigit);
      }
      var sides := DigitValue(digits[0]);
      if sides == 0 {
        return Err(DivisionByZero);
      }
      PolygonStepFewerP(s);
      s := PolygonText(s, index, sides);
      assert step == Ok(s);
    }
    return Ok(s);
  }

  /** Find returns the index it should: the first c at or after from. */
  lemma FindIs(s: string, c: char, from: nat, i: nat)
    requires from <= i < |s| && s[i] == c
    requires forall k :: from <= k < i ==> s[k] != c
    ensures Find(s, c, from) == i
  {
    FindFirst(s, c, from);
  }

  /**
   * "P<n> <len>" with n a non-zero digit and len three characters becomes
   * "I<n> F<len> L<360 div n> @", and nothing before or after it changes.
   */
  lemma PolygonShape(pre: string, d: char, sep: char, len: string, rest: string)
    requires 'P' !in pre && IsDigit(d) && d != '0' && |len| == 3
    ensures PolygonStep(pre + ['P', d, sep] + len + rest) ==
      Ok(pre + ("I" + [d] + " F") + len + (" L" + NatToString(360 / DigitValue(d)) + " @") + rest)
  {
    var s := pre + ['P', d, sep] + len + rest;
    var i := |pre|;
    FindIs(s, 'P', 0, i);
    PolygonAt(s, i, d);
    PolygonPieces(s, pre, d, sep, len, rest);
    assert NatToString(DigitValue(d)) == [d];
  }

  lemma PolygonAt(s: string, i: nat, d: char)
    requires i + 1 < |s| && s[i] == 'P' && s[i + 1] == d && IsDigit(d) && d != '0'
    requires Find(s, 'P', 0) == i
    ensures PolygonStep(s) == Ok(PolygonText(s, i, DigitValue(d)))
  {
    PolygonStepSucceeds(s, i, d);
    PolygonStepOk(s, i);
  }

  lemma PolygonStepSucceeds(s: string, i: nat, d: char)
    requires i + 1 < |s| && s[i] == 'P' && s[i + 1] == d && IsDigit(d) && d != '0'
    requires Find(s, 'P', 0) == i
    ensures PolygonStep(s).Ok?
  {
    assert 'P' in s;
    assert IndexOf(s, 'P') == i;
    SliceIs(s, i + 1, i + 2);
    assert Slice(s, i + 1, i + 2) == [d];
    assert DigitValue(d) == d as int - '0' as int != 0;
  }

  lemma PolygonPieces(s: string, pre: string, d: char, sep: char, len: string, rest: string)
    requires s == pre + ['P', d, sep] + len + rest && |len| == 3
    ensures Slice(s, 0, |pre|) == pre && Slice(s, |pre| + 3, |pre| + 6) == len && Slice(s, |pre| + 6, |s|) == rest
  {
    var i := |pre|;
    SliceIs(s, 0, i);
    SliceIs(s, i + 3, i + 6);
    SliceIs(s, i + 6, |s|);
    assert s == (pre + ['P', d, sep]) + len + rest;
  }

  /** A side count of 0 divides by zero; a missing or non-digit side count is a ValueError. */
  lemma PolygonErrors(pre: string, c: char, rest: string)
    requires 'P' !in pre
    ensures c == '0' ==> PolygonStep(pre + ['P', c] + rest) == Err(DivisionByZero)
    ensures !IsDigit(c) ==> PolygonStep(pre + ['P', c] + rest) == Err(NotADigit)
    ensures PolygonStep(pre + ['P']) == Err(NotADigit)
  {
    var s := pre + ['P', c] + rest;
    FindIs(s, 'P', 0, |pre|);
    SliceIs(s, |pre| + 1, |pre| + 2);
    assert Slice(s, |pre| + 1, |pre| + 2) == [c];
    FindIs(pre + ['P'], 'P', 0, |pre|);
  }

  // ---------------------------------------------------------------------------
  // Iterations
  // ---------------------------------------------------------------------------

  /**
   * The inner loop of expand_iterate: from an 'I', moves to the next 'I' as
   * long as one comes before the end mark.
   */
  function InnerStart(s: string, start: nat, end: int): nat
    requires start < |s| && s[start] == 'I'
    decreases |s| - start
  {
    var next := Find(s, 'I', start + 1);
    if next < end && next != -1 then InnerStart(s, next, end) else start
  }

  /** The inner loop ends on an 'I' at or after the one it starts from. */
  lemma {:induction false} InnerStartIsI(s: string, start: nat, end: int)
    requires start < |s| && s[start] == 'I'
    ensures start <= InnerStart(s, start, end) < |s| && s[InnerStart(s, start, end)] == 'I'
    decreases |s| - start
  {
    var next := Find(s, 'I', start + 1);
    if next < end && next != -1 {
      InnerStartIsI(s, next, end);
    }
  }

  /**
   * The iteration expanded is the innermost one: the last 'I' before the
   * first '@' when an 'I' comes before it, and otherwise the first 'I'.
   */
  lemma {:induction false} InnermostFirst(s: string, start: nat, end: int)
    requires start < |s| && s[start] == 'I'
    ensures start < end ==> InnerStart(s, start, end) < end
    ensures start < end ==> forall k :: InnerStart(s, start, end) < k < end && k < |s| ==> s[k] != 'I'
    ensures start >= end ==> InnerStart(s, start, end) == start
    decreases |s| - start
  {
    var next := Find(s, 'I', start + 1);
    FindFirst(s, 'I', start + 1);
    if next < end && next != -1 {
      InnermostFirst(s, next, end);
    }
  }

  /** Expands the innermost iteration "I<n> <body>@ " into its body written n times. */
  function IterateStep(s: string): Result<string, TurtleError>
    requires 'I' in s
  {
    var end := Find(s, '@', 0);
    var start := InnerStart(s, IndexOf(s, 'I'), end);
    if start + 1 >= |s| then Err(IndexOutOfRange)
    else if !IsDigit(s[start + 1]) then Err(NotADigit)
    else Ok(Unrolled(s, start, end, DigitValue(s[start + 1])))
  }

  lemma IterateStepIs(s: string, start: nat, n: nat)
    requires 'I' in s && start + 1 < |s| && IsDigit(s[start + 1]) && n == DigitValue(s[start + 1])
    requires start == InnerStart(s, IndexOf(s, 'I'), Find(s, '@', 0))
    ensures IterateStep(s) == Ok(Unrolled(s, start, Find(s, '@', 0), n))
  {
    var end := Find(s, '@', 0);
    assert IterateStep(s).Ok?;
    assert IterateStep(s).value == Unrolled(s, start, end, n);
  }

  lemma IterateStepErrors(s: string, start: nat)
    requires 'I' in s && start == InnerStart(s, IndexOf(s, 'I'), Find(s, '@', 0))
    ensures start + 1 >= |s| ==> IterateStep(s) == Err(IndexOutOfRange)
    ensures start + 1 < |s| && !IsDigit(s[start + 1]) ==> IterateStep(s) == Err(NotADigit)
  {
  }

  /**
   * With a single 'I' in the text, reading its count past the end of the
   * text is an IndexError, and a count that is not a digit is a ValueError.
   */
  lemma IterateErrors(pre: string, c: char, rest: string)
    requires 'I' !in pre
    ensures IterateStep(pre + ['I']) == Err(IndexOutOfRange)
    ensures c != 'I' && 'I' !in rest && !IsDigit(c) ==> IterateStep(pre + ['I', c] + rest) == Err(NotADigit)
  {
    var s := pre + ['I'];
    FindIs(s, 'I', 0, |pre|);
    assert InnerStart(s, |pre|, Find(s, '@', 0)) == |pre|;
    if c != 'I' && 'I' !in rest {
      var s2 := pre + ['I', c] + rest;
      FindIs(s2, 'I', 0, |pre|);
      assert forall k :: |pre| < k < |s2| ==> s2[k] != 'I' by {
        forall k | |pre| < k < |s2| ensures s2[k] != 'I' {
          if k > |pre| + 1 {
            assert s2[k] == rest[k - |pre| - 2];
          }
        }
      }
      assert Find(s2, 'I', |pre| + 1) == -1;
      assert InnerStart(s2, |pre|, Find(s2, '@', 0)) == |pre|;
    }
  }

  /** The text with the iteration from start to end replaced by n copies of its body. */
  function Unrolled(s: string, start: nat, end: int, n: nat): string {
    Slice(s, 0, start) + Repeat(Slice(s, start + 3, end), n) + Slice(s, end + 2, |s|)
  }

  /**
   * Expands iterations until none is left, then strips trailing whitespace.
   * The source's loop need not end (an iteration without '@' can copy 'I's),
   * so at most fuel steps are taken.
   */
  function ExpandIterations(s: string, fuel: nat): Result<string, TurtleError>
    decreases fuel
  {
    if 'I' !in s then Ok(RStrip(s))
    else if fuel == 0 then Err(OutOfFuel)
    else
      match IterateStep(s)
      case Err(e) => Err(e)
      case Ok(t) => ExpandIterations(t, fuel - 1)
  }

  /**
   * An iteration whose '@' comes before it rewrites the text to itself, so
   * the source's loop never ends on "@ I2 F1 ".
   */
  lemma EndlessStep()
    ensures IterateStep("@ I2 F1 ") == Ok("@ I2 F1 ")
  {
    var s := "@ I2 F1 ";
    FindIs(s, 'I', 0, 2);
    FindIs(s, '@', 0, 0);
    assert Find(s, 'I', 3) == -1;
    assert InnerStart(s, 2, 0) == 2;
    SliceIs(s, 0, 2);
    SliceIs(s, 2, |s|);
    assert Unrolled(s, 2, 0, 2) == s;
  }

  /** Text that one step rewrites to itself is never finished, whatever the bound on the steps. */
  lemma {:induction false} FixedPointEndless(s: string, fuel: nat)
    requires 'I' in s && IterateStep(s) == Ok(s)
    ensures ExpandIterations(s, fuel) == Err(OutOfFuel)
    decreases fuel
  {
    if fuel > 0 {
      FixedPointEndless(s, fuel - 1);
      assert ExpandIterations(s, fuel) == ExpandIterations(s, fuel - 1);
    }
  }

  /** No bound on the number of steps is enough for "@ I2 F1 ". */
  lemma EndlessExpansion(fuel: nat)
    ensures ExpandIterations("@ I2 F1 ", fuel) == Err(OutOfFuel)
  {
    var s := "@ I2 F1 ";
    assert s[2] == 'I';
    EndlessStep();
    FixedPointEndless(s, fuel);
  }

  /** No iteration command is left and no whitespace ends the text. */
  predicate Finished(t: string) {
    (forall i :: 0 <= i < |t| ==> t[i] != 'I') && (t == [] || !IsSpace(t[|t| - 1]))
  }

  /** Text without iterations, once stripped, is finished. */
  lemma StrippedIsFinished(s: string)
    requires 'I' !in s
    ensures Finished(RStrip(s))
  {
    RStripIs(s);
    var t := RStrip(s);
    assert forall i :: 0 <= i < |t| ==> t[i] == s[i];
  }

  /** expand_iterate, with at most fuel expansions. */
  method ExpandIterate(s0: string, fuel: nat) returns (r: Result<string, TurtleError>)
    ensures r == ExpandIterations(s0, fuel)
    ensures r.Ok? ==> Finished(r.value)
    ensures 'I' !in s0 ==> r == Ok(RStrip(s0))
  {
    var s := s0;
    var f := fuel;
    while 'I' in s
      invariant ExpandIterations(s, f) == ExpandIterations(s0, fuel)
      decreases f
    {
      if f == 0 {
        return Err(OutOfFuel);
      }
      var step := ExpandInnermost(s);
      match step
      case Err(e) =>
        return Err(e);
      case Ok(t) =>
        s, f := t, f - 1;
    }
    StrippedIsFinished(s);
    return Ok(RStrip(s));
  }

  /** One pass of the outer loop of expand_iterate: finds the innermost iteration and unrolls it. */
  method ExpandInnermost(s: string) returns (r: Result<string, TurtleError>)
    requires 'I' in s
    ensures r == IterateStep(s)
  {
    var end := Find(s, '@', 0);
    var start := InnermostIteration(s, IndexOf(s, 'I'), end);
    IterateStepErrors(s, start);
    if start + 1 >= |s| {
      return Err(IndexOutOfRange);
    }
    if !IsDigit(s[start + 1]) {
      return Err(NotADigit);
    }
    var iterations := DigitValue(s[start + 1]);
    IterateStepIs(s, start, iterations);
    r := Ok(Unrolled(s, start, end, iterations));
  }

  /** The inner loop of expand_iterate, as a loop: the 'I' whose iteration is expanded. */
  method InnermostIteration(s: string, first: nat, end: int) returns (start: nat)
    requires first < |s| && s[first] == 'I'
    ensures start == InnerStart(s, first, end)
  {
    start := first;
    while Find(s, 'I', start + 1) < end && Find(s, 'I', start + 1) != -1
      invariant start < |s| && s[start] == 'I'
      invariant InnerStart(s, start, end) == InnerStart(s, first, end)
      decreases |s| - start
    {
      start := Find(s, 'I', start + 1);  // s.index('I', start + 1)
    }
  }

  /**
   * An iteration "I<n> <body>@ " with no command in its body and no '@'
   * before it becomes its body written n times, with the text before and
   * after it unchanged; the text before it may open other iterations.
   */
  lemma IterateShape(s: string, pre: string, d: char, body: string, rest: string)
    requires s == pre + ['I', d, ' '] + body + ['@', ' '] + rest
    requires '@' !in pre && 'I' !in body && '@' !in body && IsDigit(d)
    ensures IterateStep(s) == Ok(pre + Repeat(body, DigitValue(d)) + rest)
  {
    var n := DigitValue(d);
    FlatIterationFacts(s, pre, d, body, rest);
    FlatIterationUnrolled(s, pre, d, body, rest, n);
    IterateAt(s, |pre|, |pre| + 3 + |body|, n);
  }

  /** Nested iterations expand innermost first: "I2 I3 F1 @ @ " becomes "I2 F1 F1 F1 @ ". */
  lemma NestedStep()
    ensures IterateStep("I2 I3 F1 @ @ ") == Ok("I2 F1 F1 F1 @ ")
  {
    var pre, body, rest := "I2 ", "F1 ", "@ ";
    NestedText(pre, body, rest);
    NestedResult(pre, body, rest);
    IterateShape("I2 I3 F1 @ @ ", pre, '3', body, rest);
  }

  /** The nested example split around its inner iteration. */
  lemma NestedText(pre: string, body: string, rest: string)
    requires pre == "I2 " && body == "F1 " && rest == "@ "
    ensures "I2 I3 F1 @ @ " == pre + ['I', '3', ' '] + body + ['@', ' '] + rest
    ensures '@' !in pre && 'I' !in body && '@' !in body
  {
  }

  /** The inner body written three times, between the text around it. */
  lemma NestedResult(pre: string, body: string, rest: string)
    requires pre == "I2 " && body == "F1 " && rest == "@ "
    ensures pre + Repeat(body, 3) + rest == "I2 F1 F1 F1 @ "
  {
    RepeatThree(body);
  }

  /** A body written three times. */
  lemma RepeatThree(t: string)
    ensures Repeat(t, 3) == t + t + t
  {
    assert Repeat(t, 1) == t;
  }

  lemma IterateAt(s: string, i: nat, e: int, n: nat)
    requires 'I' in s && i + 1 < |s| && IsDigit(s[i + 1]) && n == DigitValue(s[i + 1])
    requires Find(s, '@', 0) == e && InnerStart(s, IndexOf(s, 'I'), e) == i
    ensures IterateStep(s) == Ok(Unrolled(s, i, e, n))
  {
    IterateStepIs(s, i, n);
  }

  /** Where the loops of expand_iterate stop on an iteration with a flat body. */
  lemma FlatIterationFacts(s: string, pre: string, d: char, body: string, rest: string)
    requires s == pre + ['I', d, ' '] + body + ['@', ' '] + rest
    requires '@' !in pre && 'I' !in body && '@' !in body && IsDigit(d)
    ensures 'I' in s && |pre| + 1 < |s| && s[|pre| + 1] == d
    ensures Find(s, '@', 0) == |pre| + 3 + |body|
    ensures InnerStart(s, IndexOf(s, 'I'), |pre| + 3 + |body|) == |pre|
  {
    FlatIterationHead(s, pre, d, body, rest);
    FlatIterationEnd(s, pre, d, body, rest);
    FlatIterationInner(s, pre, d, body, rest);
  }

  lemma FlatIterationHead(s: string, pre: string, d: char, body: string, rest: string)
    requires s == pre + ['I', d, ' '] + body + ['@', ' '] + rest
    ensures 'I' in s && |pre| + 1 < |s| && s[|pre| + 1] == d
  {
    assert s[|pre|] == 'I';
  }

  lemma FlatIterationEnd(s: string, pre: string, d: char, body: string, rest: string)
    requires s == pre + ['I', d, ' '] + body + ['@', ' '] + rest
    requires '@' !in pre && '@' !in body && IsDigit(d)
    ensures Find(s, '@', 0) == |pre| + 3 + |body|
  {
    var e := |pre| + 3 + |body|;
    forall k | 0 <= k < e ensures s[k] != '@' {
      if k >= |pre| + 3 {
        assert s[k] == body[k - |pre| - 3];
      }
    }
    FindIs(s, '@', 0, e);
  }

  /** From the first 'I', the inner loop moves on to the last 'I' before the '@': the one at the end of pre. */
  lemma FlatIterationInner(s: string, pre: string, d: char, body: string, rest: string)
    requires s == pre + ['I', d, ' '] + body + ['@', ' '] + rest
    requires 'I' !in body && IsDigit(d)
    ensures 'I' in s && InnerStart(s, IndexOf(s, 'I'), |pre| + 3 + |body|) == |pre|
  {
    var e := |pre| + 3 + |body|;
    assert s[|pre|] == 'I';
    forall k | |pre| < k < e ensures s[k] != 'I' {
      if k >= |pre| + 3 {
        assert s[k] == body[k - |pre| - 3];
      }
    }
    FindFirst(s, 'I', 0);
    InnerStartReaches(s, IndexOf(s, 'I'), |pre|, e);
  }

  /** Starting from an 'I' at or before i, the inner loop stops at i when i is the last 'I' before end. */
  lemma InnerStartReaches(s: string, first: nat, i: nat, end: int)
    requires first <= i < end && i < |s| && s[first] == 'I' && s[i] == 'I'
    requires forall k :: i < k < end && k < |s| ==> s[k] != 'I'
    ensures InnerStart(s, first, end) == i
  {
    InnermostFirst(s, first, end);
    InnerStartIsI(s, first, end);
  }

  lemma FlatIterationUnrolled(s: string, pre: string, d: char, body: string, rest: string, n: nat)
    requires s == pre + ['I', d, ' '] + body + ['@', ' '] + rest
    ensures Unrolled(s, |pre|, |pre| + 3 + |body|, n) == pre + Repeat(body, n) + rest
  {
    var e := |pre| + 3 + |body|;
    FlatIterationPieces(s, pre, d, body, rest);
    SliceIs(s, 0, |pre|);
    SliceIs(s, |pre| + 3, e);
    SliceIs(s, e + 2, |s|);
  }

  lemma FlatIterationPieces(s: string, pre: string, d: char, body: string, rest: string)
    requires s == pre + ['I', d, ' '] + body + ['@', ' '] + rest
    ensures s[..|pre|] == pre && s[|pre| + 3..|pre| + 3 + |body|] == body && s[|pre| + 5 + |body|..] == rest
  {
    var i := |pre|;
    var e := i + 3 + |body|;
    assert s == (pre + ['I', d, ' ']) + body + (['@', ' '] + rest);
  }
}
