/**
  The few JavaScript string and array built-ins the gallery and the extraction
  function rely on, with the ECMAScript semantics they have for the arguments
  used there: `split` and `join` with a one-character separator, `trim`,
  `slice` with non-negative bounds, ASCII lower-casing and decimal rendering
  of a status code.
 */
module Js {

  /** Code points `String.prototype.trim` strips: ECMAScript WhiteSpace and LineTerminator. */
  predicate IsTrimSpace(c: char) {
    var n := c as int;
    || n == 0x09 || n == 0x0A || n == 0x0B || n == 0x0C || n == 0x0D || n == 0x20
    || n == 0xA0 || n == 0x1680 || (0x2000 <= n <= 0x200A) || n == 0x2028 || n == 0x2029
    || n == 0x202F || n == 0x205F || n == 0x3000 || n == 0xFEFF
  }

  /** Number of occurrences of `c` in `s`. */
  function Count(s: string, c: char): nat {
    if |s| == 0 then 0 else (if s[0] == c then 1 else 0) + Count(s[1..], c)
  }

  /** `parts.join(sep)` for a one-character separator. */
  function Join(parts: seq<string>, sep: char): string {
    if |parts| == 0 then ""
    else if |parts| == 1 then parts[0]
    else parts[0] + [sep] + Join(parts[1..], sep)
  }

  /**
    `s.split(sep)` for a one-character separator: one piece more than there
    are separators, none containing the separator, joining back to `s`.
    In particular `"".split(sep)` is `[""]`, never the empty array.
   */
  function Split(s: string, sep: char): (parts: seq<string>)
    ensures |parts| == Count(s, sep) + 1
    ensures forall i :: 0 <= i < |parts| ==> sep !in parts[i]
    ensures Join(parts, sep) == s
  {
    if |s| == 0 then [""]
    else
      var rest := Split(s[1..], sep);
      assert s == [s[0]] + s[1..];
      if s[0] == sep then
        [""] + rest
      else
        var parts := [[s[0]] + rest[0]] + rest[1..];
        assert parts[1..] == rest[1..];
        parts
  }

  /** Splitting `p + q` when `p` holds no separator glues `p` onto the first piece of `q`. */
  lemma {:induction false} SplitSeparatorFreePrefix(p: string, q: string, sep: char)
    requires sep !in p
    ensures Split(p + q, sep) == [p + Split(q, sep)[0]] + Split(q, sep)[1..]
    decreases |p|
  {
    if |p| > 0 {
      assert p[0] in p && sep !in p[1..];
      SplitSeparatorFreePrefix(p[1..], q, sep);
      var sq := Split(q, sep);
      var rest := Split((p + q)[1..], sep);
      assert (p + q)[1..] == p[1..] + q;
      assert rest == [p[1..] + sq[0]] + sq[1..];
      assert (p + q)[0] == p[0] != sep;
      assert Split(p + q, sep) == [[p[0]] + rest[0]] + rest[1..];
      assert rest[0] == p[1..] + sq[0] && rest[1..] == sq[1..];
      assert [p[0]] + (p[1..] + sq[0]) == p + sq[0];
    } else {
      var sq := Split(q, sep);
      assert p + q == q && p + sq[0] == sq[0];
      assert sq == [sq[0]] + sq[1..];
    }
  }

  /**
    The pieces of `split` are the only separator-free sequence joining back to
    `s`: `Split` is determined by its contract.
   */
  lemma {:induction false} SplitUnique(s: string, sep: char, parts: seq<string>)
    requires |parts| > 0
    requires forall i :: 0 <= i < |parts| ==> sep !in parts[i]
    requires Join(parts, sep) == s
    ensures parts == Split(s, sep)
    decreases |parts|
  {
    if |parts| == 1 {
      SplitSeparatorFreePrefix(parts[0], "", sep);
      assert parts[0] + "" == parts[0];
    } else {
      var head, tail := parts[0], parts[1..];
      SeparatorFreeTail(parts, sep);
      var t := Join(tail, sep);
      SplitUnique(t, sep, tail);
      var u := [sep] + t;
      SplitAfterSeparator(t, sep);
      assert sep !in head;
      SplitSeparatorFreePrefix(head, u, sep);
      JoinCons(parts, sep);
      UniqueStep(s, sep, head, u, tail);
    }
  }

  lemma SeparatorFreeTail(parts: seq<string>, sep: char)
    requires |parts| > 0
    requires forall i :: 0 <= i < |parts| ==> sep !in parts[i]
    ensures forall i :: 0 <= i < |parts[1..]| ==> sep !in parts[1..][i]
  {
    forall i | 0 <= i < |parts[1..]| ensures sep !in parts[1..][i] { assert parts[1..][i] == parts[i + 1]; }
  }

  lemma JoinCons(parts: seq<string>, sep: char)
    requires |parts| > 1
    ensures Join(parts, sep) == parts[0] + ([sep] + Join(parts[1..], sep))
  {
    assert parts[0] + [sep] + Join(parts[1..], sep) == parts[0] + ([sep] + Join(parts[1..], sep));
  }

  lemma UniqueStep(s: string, sep: char, head: string, u: string, tail: seq<string>)
    requires s == head + u
    requires Split(u, sep) == [""] + tail
    requires Split(head + u, sep) == [head + Split(u, sep)[0]] + Split(u, sep)[1..]
    ensures [head] + tail == Split(s, sep)
  {
    var su := Split(u, sep);
    assert su[0] == "" && su[1..] == tail;
    assert head + "" == head;
  }

  /** A leading separator splits off an empty first piece. */
  lemma SplitAfterSeparator(t: string, sep: char)
    ensures Split([sep] + t, sep) == [""] + Split(t, sep)
  {
    assert ([sep] + t)[1..] == t;
  }

  /** The joined text starts with the first piece, followed by the separator if more pieces come. */
  lemma JoinHead(parts: seq<string>, sep: char)
    requires |parts| > 0
    ensures parts[0] <= Join(parts, sep)
    ensures |parts| == 1 ==> Join(parts, sep) == parts[0]
    ensures |parts| > 1 ==> |parts[0]| < |Join(parts, sep)| && Join(parts, sep)[|parts[0]|] == sep
  {
  }

  /** The joined text ends with the last piece, preceded by the separator if there are several. */
  lemma {:induction false} JoinLast(parts: seq<string>, sep: char)
    requires |parts| > 0
    ensures var j, l := Join(parts, sep), parts[|parts| - 1];
      && |l| <= |j| && j[|j| - |l|..] == l
      && (|parts| > 1 ==> |l| < |j| && j[|j| - |l| - 1] == sep)
    decreases |parts|
  {
    if |parts| > 1 {
      JoinLast(parts[1..], sep);
      var rest := Join(parts[1..], sep);
      var l := parts[|parts| - 1];
      assert l == parts[1..][|parts[1..]| - 1];
      var j := parts[0] + [sep] + rest;
      assert j[|j| - |rest|..] == rest;
      assert j[|j| - |l|..] == rest[|rest| - |l|..];
      if |parts| == 2 {
        assert j[|j| - |l| - 1] == sep;
      } else {
        assert j[|j| - |l| - 1] == rest[|rest| - |l| - 1];
      }
    }
  }

  /** `t.split(' ')[0]`: the text before the first space, or all of `t` when it has none. */
  function FirstToken(t: string): (r: string)
    ensures ' ' !in r
    ensures r <= t
    ensures r == t || t[|r|] == ' '
  {
    var parts := Split(t, ' ');
    JoinHead(parts, ' ');
    parts[0]
  }

  /** `s.split(sep).pop()`: the text after the last separator, or all of `s` when it has none. */
  function LastPiece(s: string, sep: char): (r: string)
    ensures sep !in r
    ensures |r| <= |s| && s[|s| - |r|..] == r
    ensures r == s || (|r| < |s| && s[|s| - |r| - 1] == sep)
  {
    var parts := Split(s, sep);
    JoinLast(parts, sep);
    parts[|parts| - 1]
  }

  /** `s.trimStart()`: drops the leading run of trim spaces. */
  function TrimStart(s: string): (r: string)
    ensures |r| <= |s| && r == s[|s| - |r|..]
    ensures forall i :: 0 <= i < |s| - |r| ==> IsTrimSpace(s[i])
    ensures |r| > 0 ==> !IsTrimSpace(r[0])
  {
    if |s| > 0 && IsTrimSpace(s[0]) then TrimStart(s[1..]) else s
  }

  /** `s.trimEnd()`: drops the trailing run of trim spaces. */
  function TrimEnd(s: string): (r: string)
    ensures |r| <= |s| && r == s[..|r|]
    ensures forall i :: |r| <= i < |s| ==> IsTrimSpace(s[i])
    ensures |r| > 0 ==> !IsTrimSpace(r[|r| - 1])
  {
    if |s| > 0 && IsTrimSpace(s[|s| - 1]) then TrimEnd(s[..|s| - 1]) else s
  }

  /** `s.trim()`: drops the leading and the trailing run of trim spaces. */
  function Trim(s: string): (r: string)
    ensures |r| <= |s|
    ensures |r| > 0 ==> !IsTrimSpace(r[0]) && !IsTrimSpace(r[|r| - 1])
  {
    var t := TrimStart(s);
    var r := TrimEnd(t);
    assert |r| > 0 ==> r[0] == t[0];
    r
  }

  /** How many trim spaces `trim` removes from the front of `s`. */
  function TrimmedFront(s: string): nat {
    |s| - |TrimStart(s)|
  }

  /**
    `trim` keeps a contiguous part of `s`, and everything it drops before and
    after that part is a trim space.
   */
  lemma TrimKeepsMiddle(s: string)
    ensures TrimmedFront(s) + |Trim(s)| <= |s|
    ensures Trim(s) == s[TrimmedFront(s)..TrimmedFront(s) + |Trim(s)|]
    ensures forall i :: 0 <= i < TrimmedFront(s) ==> IsTrimSpace(s[i])
    ensures forall i :: TrimmedFront(s) + |Trim(s)| <= i < |s| ==> IsTrimSpace(s[i])
  {
    TrailingSpacesShift(s, TrimStart(s), Trim(s), TrimmedFront(s));
  }

  lemma TrailingSpacesShift(s: string, t: string, r: string, k: nat)
    requires k <= |s| && t == s[k..]
    requires |r| <= |t| && r == t[..|r|]
    requires forall i :: |r| <= i < |t| ==> IsTrimSpace(t[i])
    ensures r == s[k..k + |r|]
    ensures forall i :: k + |r| <= i < |s| ==> IsTrimSpace(s[i])
  {
    forall i | k + |r| <= i < |s|
      ensures IsTrimSpace(s[i])
    {
      assert s[i] == t[i - k];
    }
  }

  /** ASCII upper-case letters to lower case; every other character unchanged. */
  function LowerChar(c: char): char {
    if 'A' <= c <= 'Z' then (c as int + 32) as char else c
  }

  /** Lower-cases the ASCII letters of `s`, character by character. */
  function AsciiLower(s: string): (r: string)
    ensures |r| == |s|
    ensures forall i :: 0 <= i < |s| ==> r[i] == LowerChar(s[i])
  {
    if |s| == 0 then "" else [LowerChar(s[0])] + AsciiLower(s[1..])
  }

  /** Lower-cased text has no ASCII upper-case letter left, so lower-casing it again changes nothing. */
  lemma AsciiLowerIdempotent(s: string)
    ensures forall i :: 0 <= i < |AsciiLower(s)| ==> !('A' <= AsciiLower(s)[i] <= 'Z')
    ensures AsciiLower(AsciiLower(s)) == AsciiLower(s)
  {
    var r := AsciiLower(s);
    forall i | 0 <= i < |r|
      ensures !('A' <= r[i] <= 'Z') && LowerChar(r[i]) == r[i]
    {
      assert r[i] == LowerChar(s[i]);
    }
  }

  function Min(a: int, b: int): int {
    if a < b then a else b
  }

  /**
    `a.slice(start, end)` for non-negative bounds: both bounds are clamped to
    the length, and the result is empty when the clamped end is not after
    the clamped start.
   */
  function Slice<T>(a: seq<T>, start: nat, end: nat): (r: seq<T>)
    ensures start <= end <= |a| ==> r == a[start..end]
    ensures start <= |a| <= end ==> r == a[start..]
    ensures |a| <= start || end <= start ==> r == []
  {
    var lo := Min(start, |a|);
    var hi := Min(end, |a|);
    if hi <= lo then [] else a[lo..hi]
  }

  predicate IsDigit(c: char) {
    '0' <= c <= '9'
  }

  function DigitChar(d: nat): (c: char)
    requires d < 10
    ensures IsDigit(c) && c as int - '0' as int == d
  {
    (d + '0' as int) as char
  }

  /** The decimal text JavaScript gives a non-negative integer in a template string. */
  function NatToString(n: nat): (r: string)
    ensures |r| > 0 && forall i :: 0 <= i < |r| ==> IsDigit(r[i])
    ensures |r| > 1 ==> r[0] != '0'
  {
    if n < 10 then [DigitChar(n)] else NatToString(n / 10) + [DigitChar(n % 10)]
  }

  function DigitValue(c: char): nat
    requires IsDigit(c)
  {
    c as int - '0' as int
  }

  /** The number a string of decimal digits denotes. */
  function DecimalValue(s: string): nat
    requires forall i :: 0 <= i < |s| ==> IsDigit(s[i])
  {
    if |s| == 0 then 0 else 10 * DecimalValue(s[..|s| - 1]) + DigitValue(s[|s| - 1])
  }

  /** Rendering a status code in decimal loses nothing: reading it back gives the code. */
  lemma {:induction false} NatToStringRoundTrip(n: nat)
    ensures DecimalValue(NatToString(n)) == n
    decreases n
  {
    if n >= 10 {
      NatToStringRoundTrip(n / 10);
      var s := NatToString(n);
      assert s[..|s| - 1] == NatToString(n / 10);
    }
  }
}
