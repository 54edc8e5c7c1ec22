/**
  Stepping the fullscreen viewer through the filtered images. The viewer
  remembers the image, not its position: each step looks the image up with
  `indexOf` and moves cyclically with JavaScript's truncating `%`.
 */
module Fullscreen {
  import opened Results

  datatype Direction = Left | Right

  /** `xs.indexOf(x)`: the first position holding `x`, or -1 when there is none. */
  function IndexOf<T(==)>(xs: seq<T>, x: T): (i: int)
    ensures -1 <= i < |xs|
    ensures i >= 0 ==> xs[i] == x && forall j :: 0 <= j < i ==> xs[j] != x
    ensures i == -1 <==> x !in xs
  {
    if |xs| == 0 then -1
    else if xs[0] == x then 0
    else
      var j := IndexOf(xs[1..], x);
      if j == -1 then -1 else j + 1
  }

  /** The quotient JavaScript's `%` goes with: `Math.trunc(a / n)`. */
  function TruncDiv(a: int, n: int): int
    requires n > 0
  {
    if a >= 0 then a / n else -((-a) / n)
  }

  /**
    JavaScript's `a % n` for a positive divisor: it truncates toward zero, so
    the remainder has the sign of `a` (Dafny's `%` never goes negative), and
    it is what is left of `a` after the truncated quotient.
   */
  function JsRem(a: int, n: int): (r: int)
    requires n > 0
    ensures -n < r < n
    ensures a >= 0 ==> r >= 0
    ensures a < 0 ==> r <= 0
    ensures a == n * TruncDiv(a, n) + r
    ensures a >= 0 ==> r == a % n
  {
    if a >= 0 then a % n
    else
      var q, m := (-a) / n, (-a) % n;
      assert -a == n * q + m;
      assert n * (-q) == -(n * q);
      -m
  }

  /** Dafny's `%` leaves a number below the divisor alone. */
  lemma ModBelow(a: int, n: int)
    requires 0 <= a < n
    ensures a % n == a
  {
  }

  /** Dafny's `%` takes the divisor once off a number between it and its double. */
  lemma ModOnce(a: int, n: int)
    requires n <= a < 2 * n
    ensures a % n == a - n
  {
    assert a == n * 1 + (a - n);
  }

  predicate Distinct<T(==)>(xs: seq<T>) {
    forall i, j :: 0 <= i < j < |xs| ==> xs[i] != xs[j]
  }

  /** The position `navigateFullscreen` moves to from position `i` (-1: the image is not in the list). */
  function StepIndex(i: int, n: nat, dir: Direction): (k: nat)
    requires n > 0
    requires -1 <= i < n
    ensures k < n
    ensures i >= 0 ==> k == if dir == Right then (i + 1) % n else (i - 1 + n) % n
    ensures i == -1 ==> k == if dir == Right || n == 1 then 0 else n - 2
  {
    ModBelow(0, n);
    ModBelow(if n > 1 then n - 2 else 0, n);
    var k := if dir == Left then JsRem(i - 1 + n, n) else JsRem(i + 1, n);
    assert i >= 0 && dir == Right ==> k == (i + 1) % n;
    assert i >= 0 && dir == Left ==> k == (i - 1 + n) % n;
    assert i == -1 && dir == Right ==> k == 0;
    assert i == -1 && dir == Left && n > 1 ==> k == n - 2;
    assert i == -1 && dir == Left && n == 1 ==> k == 0;
    assert k >= 0;
    // the only negative dividend is -1 (n == 1, i == -1); its remainder -0 indexes position 0
    k
  }

  /**
    `navigateFullscreen(direction)` over the filtered list: the image after
    (Right) or before (Left) the first occurrence of the current one,
    wrapping around. An empty list leaves `undefined`, which closes the
    viewer. A current image no longer in the list counts as position -1.
   */
  function Step(filtered: seq<string>, current: Option<string>, dir: Direction): (r: Option<string>)
    ensures r.None? <==> |filtered| == 0
    ensures r.Some? ==> r.value in filtered
    ensures current.Some? && current.value in filtered ==>
      var i, n := IndexOf(filtered, current.value), |filtered|;
      r == Some(filtered[if dir == Right then (i + 1) % n else (i - 1 + n) % n])
    ensures |filtered| > 0 && (current.None? || current.value !in filtered) ==>
      r == Some(filtered[if dir == Right || |filtered| == 1 then 0 else |filtered| - 2])
  {
    var n := |filtered|;
    var i := match current case Some(x) => IndexOf(filtered, x) case None => -1;
    if n == 0 then None
    else Some(filtered[StepIndex(i, n, dir)])
  }

  /**
    On a list without repeats, a step left undoes a step right and a step
    right undoes a step left, from any image in the list.
   */
  lemma StepsUndo(filtered: seq<string>, x: string)
    requires Distinct(filtered)
    requires x in filtered
    ensures Step(filtered, Step(filtered, Some(x), Right), Left) == Some(x)
    ensures Step(filtered, Step(filtered, Some(x), Left), Right) == Some(x)
  {
    LeftUndoesRight(filtered, x);
    RightUndoesLeft(filtered, x);
  }

  /**
    With repeats, the first occurrence decides: when the image right after
    the first occurrence of `x` is `x` again, a step right shows `x` again,
    so repeated steps right never move past that pair.
   */
  lemma StepRightRepeats(filtered: seq<string>, x: string)
    requires x in filtered
    requires IndexOf(filtered, x) + 1 < |filtered| && filtered[IndexOf(filtered, x) + 1] == x
    ensures Step(filtered, Some(x), Right) == Some(x)
    ensures Step(filtered, Step(filtered, Some(x), Right), Right) == Some(x)
  {
    var i := IndexOf(filtered, x);
    ModBelow(i + 1, |filtered|);
  }

  lemma LeftUndoesRight(filtered: seq<string>, x: string)
    requires Distinct(filtered)
    requires x in filtered
    ensures Step(filtered, Step(filtered, Some(x), Right), Left) == Some(x)
  {
    var n := |filtered|;
    var i := IndexOf(filtered, x);
    var r := if i + 1 < n then i + 1 else 0;
    if i + 1 < n { ModBelow(i + 1, n); ModOnce(r - 1 + n, n); } else { ModOnce(i + 1, n); ModBelow(r - 1 + n, n); }
    assert Step(filtered, Some(x), Right) == Some(filtered[r]);
    IndexOfDistinct(filtered, r);
    assert Step(filtered, Some(filtered[r]), Left) == Some(filtered[i]);
  }

  lemma RightUndoesLeft(filtered: seq<string>, x: string)
    requires Distinct(filtered)
    requires x in filtered
    ensures Step(filtered, Step(filtered, Some(x), Left), Right) == Some(x)
  {
    var n := |filtered|;
    var i := IndexOf(filtered, x);
    var l := if i > 0 then i - 1 else n - 1;
    if i > 0 { ModOnce(i - 1 + n, n); ModBelow(l + 1, n); } else { ModBelow(i - 1 + n, n); ModOnce(l + 1, n); }
    assert Step(filtered, Some(x), Left) == Some(filtered[l]);
    IndexOfDistinct(filtered, l);
    assert Step(filtered, Some(filtered[l]), Right) == Some(filtered[i]);
  }

  /** Without repeats, `indexOf` finds every element at its own position. */
  lemma IndexOfDistinct(xs: seq<string>, k: nat)
    requires Distinct(xs)
    requires k < |xs|
    ensures IndexOf(xs, xs[k]) == k
  {
  }
}
