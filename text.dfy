/**
 * The few Python string operations the reporting tool relies on, over
 * `string` (a sequence of Unicode scalar values): `str.isspace`,
 * `str.strip`, `in`, `str.replace(old, "")`, `str.split(sep)`, `int(str)`
 * and `str(int)`.
 */
module Text {
  import opened Outcomes

  /** `c.isspace()` in Python: the code points Python classifies as white space. */
  predicate IsSpace(c: char) {
    var n := c as int;
    (9 <= n <= 13) || (28 <= n <= 32) || n == 0x85 || n == 0xA0 || n == 0x1680 ||
    (0x2000 <= n <= 0x200A) || n == 0x2028 || n == 0x2029 || n == 0x202F ||
    n == 0x205F || n == 0x3000
  }

  predicate IsDigit(c: char) { '0' <= c <= '9' }

  predicate IsAsciiLetter(c: char) { ('a' <= c <= 'z') || ('A' <= c <= 'Z') }

  /** The regular-expression class `\w`, restricted to ASCII. */
  predicate IsWordChar(c: char) { IsDigit(c) || IsAsciiLetter(c) || c == '_' }

  predicate IsParen(c: char) { c == '(' || c == ')' }

  predicate AllSpace(s: string) { forall k :: 0 <= k < |s| ==> IsSpace(s[k]) }

  // ---------------------------------------------------------------- strip

  /**
   * `s.strip()`: the text between the leading and the trailing white space,
   * dropped one character at a time from either end.
   */
  function Strip(s: string): (r: string)
    ensures r == [] || (!IsSpace(r[0]) && !IsSpace(r[|r| - 1]))
    ensures r == [] <==> AllSpace(s)
    decreases |s|
  {
    if s == [] then []
    else if IsSpace(s[0]) then
      assert AllSpace(s) <==> AllSpace(s[1..]) by {
        if AllSpace(s[1..]) { assert forall k :: 1 <= k < |s| ==> s[k] == s[1..][k - 1]; }
      }
      Strip(s[1..])
    else if IsSpace(s[|s| - 1]) then
      assert !AllSpace(s) && !AllSpace(s[..|s| - 1]) by { assert s[..|s| - 1][0] == s[0]; }
      Strip(s[..|s| - 1])
    else s
  }

  /** Where the strip of `s` starts: the length of its leading white space. */
  function StripStart(s: string): nat
    decreases |s|
  {
    if s == [] then 0
    else if IsSpace(s[0]) then 1 + StripStart(s[1..])
    else if IsSpace(s[|s| - 1]) then StripStart(s[..|s| - 1])
    else 0
  }

  /** `r` sits at offset `i` of `s`, with only white space before and after it. */
  predicate IsMiddle(s: string, i: nat, r: string)
  {
    i + |r| <= |s| && s[i..i + |r|] == r && AllSpace(s[..i]) && AllSpace(s[i + |r|..])
  }

  /**
   * The strip is the middle of the text: it sits at `StripStart(s)`, and what
   * comes before it and what follows it is white space.
   */
  lemma {:induction false} StripIsMiddle(s: string)
    ensures IsMiddle(s, StripStart(s), Strip(s))
    decreases |s|
  {
    if s == [] {
    } else if IsSpace(s[0]) {
      assert Strip(s) == Strip(s[1..]) && StripStart(s) == StripStart(s[1..]) + 1;
      StripIsMiddle(s[1..]);
      MiddleAfterSpace(s, StripStart(s[1..]), Strip(s[1..]));
    } else if IsSpace(s[|s| - 1]) {
      assert Strip(s) == Strip(s[..|s| - 1]) && StripStart(s) == StripStart(s[..|s| - 1]);
      StripIsMiddle(s[..|s| - 1]);
      MiddleBeforeSpace(s, StripStart(s[..|s| - 1]), Strip(s[..|s| - 1]));
    } else {
      assert Strip(s) == s && StripStart(s) == 0;
      assert s[0..|s|] == s;
    }
  }

  /** A middle of the text after a leading white-space character is a middle of the whole text. */
  lemma MiddleAfterSpace(s: string, i: nat, r: string)
    requires s != [] && IsSpace(s[0]) && IsMiddle(s[1..], i, r)
    ensures IsMiddle(s, i + 1, r)
  {
    assert s[i + 1..i + 1 + |r|] == s[1..][i..i + |r|];
    assert s[i + 1 + |r|..] == s[1..][i + |r|..];
    assert s[..i + 1] == [s[0]] + s[1..][..i];
  }

  /** A middle of the text before a trailing white-space character is a middle of the whole text. */
  lemma MiddleBeforeSpace(s: string, i: nat, r: string)
    requires s != [] && IsSpace(s[|s| - 1]) && IsMiddle(s[..|s| - 1], i, r)
    ensures IsMiddle(s, i, r)
  {
    assert s[i..i + |r|] == s[..|s| - 1][i..i + |r|] && s[..i] == s[..|s| - 1][..i];
    assert s[i + |r|..] == s[..|s| - 1][i + |r|..] + [s[|s| - 1]];
  }

  /** A string with no white space at either end is its own strip. */
  lemma StripTrimmed(s: string)
    requires s == [] || (!IsSpace(s[0]) && !IsSpace(s[|s| - 1]))
    ensures Strip(s) == s
  {
  }

  /** A string that does not start with white space keeps its first character. */
  lemma StripFirst(s: string)
    requires s != [] && !IsSpace(s[0])
    ensures Strip(s) != [] && Strip(s)[0] == s[0]
  {
    assert !AllSpace(s);
  }

  /** Stripping is idempotent. */
  lemma StripIdempotent(s: string)
    ensures Strip(Strip(s)) == Strip(s)
  {
    StripTrimmed(Strip(s));
  }

  // ------------------------------------------------------ substring search

  /** `p` occurs in `s` starting at index `i`. */
  predicate OccursAt(s: string, p: string, i: nat) {
    i + |p| <= |s| && s[i..i + |p|] == p
  }

  /** `s.startswith(p)`. */
  predicate StartsWith(s: string, p: string) { OccursAt(s, p, 0) }

  /** `s.find(p)`, with `None` for -1. */
  function Find(s: string, p: string): (r: Option<nat>)
    ensures r.Some? ==> OccursAt(s, p, r.value)
    ensures r.Some? ==> forall j :: 0 <= j < r.value ==> !OccursAt(s, p, j)
    ensures r.None? ==> forall j :: 0 <= j <= |s| ==> !OccursAt(s, p, j)
  {
    var at := (k: nat) => OccursAt(s, p, k);
    var r := FirstMatch(0, |s| + 1, at);
    assert r.Some? ==> forall j :: 0 <= j < r.value ==> !OccursAt(s, p, j) by {
      if r.Some? {
        forall j | 0 <= j < r.value ensures !OccursAt(s, p, j) { assert !at(j); }
      }
    }
    assert r.None? ==> forall j :: 0 <= j <= |s| ==> !OccursAt(s, p, j) by {
      if r.None? {
        forall j | 0 <= j <= |s| ensures !OccursAt(s, p, j) { assert !at(j); }
      }
    }
    r
  }

  /** `p in s`. */
  predicate Contains(s: string, p: string) { Find(s, p).Some? }

  /** What occurs in `s` occurs in any text ending with `s`. */
  lemma ContainsInSuffix(x: string, s: string, p: string)
    requires Contains(s, p)
    ensures Contains(x + s, p)
  {
    var k := Find(s, p).value;
    assert (x + s)[|x| + k..|x| + k + |p|] == s[k..k + |p|];
    assert OccursAt(x + s, p, |x| + k);
  }

  /** A text contains itself. */
  lemma ContainsSelf(s: string)
    ensures Contains(s, s)
  {
    assert OccursAt(s, s, 0);
  }

  // ------------------------------------------------------------ replace

  /** `s.replace(pat, "")`: delete the non-overlapping occurrences of `pat`, left to right. */
  function RemoveAll(s: string, pat: string): (r: string)
    requires pat != []
    ensures |r| <= |s|
    decreases |s|
  {
    if s == [] then []
    else if StartsWith(s, pat) then RemoveAll(s[|pat|..], pat)
    else [s[0]] + RemoveAll(s[1..], pat)
  }

  /** Nothing is deleted from a string in which the pattern does not occur. */
  lemma {:induction false} RemoveAllAbsent(s: string, pat: string)
    requires pat != []
    requires forall j :: 0 <= j < |s| ==> !OccursAt(s, pat, j)
    ensures RemoveAll(s, pat) == s
    decreases |s|
  {
    if s != [] {
      assert !OccursAt(s, pat, 0);
      forall j | 0 <= j < |s[1..]| ensures !OccursAt(s[1..], pat, j) {
        assert !OccursAt(s, pat, j + 1);
        if j + |pat| <= |s[1..]| {
          assert s[j + 1..j + 1 + |pat|] == s[1..][j..j + |pat|];
        }
      }
      RemoveAllAbsent(s[1..], pat);
    }
  }

  /** `s.replace(a, b)` for single characters. */
  function ReplaceChar(s: string, a: char, b: char): (r: string)
    ensures |r| == |s|
    ensures forall k :: 0 <= k < |s| ==> r[k] == (if s[k] == a then b else s[k])
  {
    seq(|s|, k requires 0 <= k < |s| => if s[k] == a then b else s[k])
  }

  // -------------------------------------------------------------- split

  /** `s.split(sep)` for a non-empty separator: the pieces between the non-overlapping occurrences. */
  function SplitOn(s: string, sep: string): (r: seq<string>)
    requires sep != []
    ensures |r| >= 1
    decreases |s|
  {
    match Find(s, sep)
    case None => [s]
    case Some(k) => [s[..k]] + SplitOn(s[k + |sep|..], sep)
  }

  /** `sep.join(parts)`. */
  function Join(parts: seq<string>, sep: string): string {
    if |parts| == 0 then []
    else if |parts| == 1 then parts[0]
    else parts[0] + sep + Join(parts[1..], sep)
  }

  /** Splitting and joining back with the same separator gives the original string. */
  lemma {:induction false} SplitOnJoin(s: string, sep: string)
    requires sep != []
    ensures Join(SplitOn(s, sep), sep) == s
    decreases |s|
  {
    match Find(s, sep)
    case None =>
    case Some(k) =>
      var rest := s[k + |sep|..];
      var tail := SplitOn(rest, sep);
      SplitOnJoin(rest, sep);
      var parts := [s[..k]] + tail;
      assert SplitOn(s, sep) == parts;
      assert |parts| >= 2 && parts[0] == s[..k] && parts[1..] == tail;
      assert Join(parts, sep) == s[..k] + sep + Join(tail, sep);
      assert s[k..k + |sep|] == sep;
      assert s == s[..k] + s[k..k + |sep|] + rest;
  }

  /** A text that ends with a one-character separator splits into at least two pieces, the last one empty. */
  lemma {:induction false} SplitOnTrailingSeparator(x: string, c: char)
    ensures |SplitOn(x + [c], [c])| >= 2 && SplitOn(x + [c], [c])[|SplitOn(x + [c], [c])| - 1] == ""
    decreases |x|
  {
    var s := x + [c];
    assert OccursAt(s, [c], |x|);
    var k := Find(s, [c]).value;
    var rest := s[k + 1..];
    if k == |x| {
      assert rest == [];
      assert Find(rest, [c]).None?;
    } else {
      assert s[k] == x[k];
      assert rest == x[k + 1..] + [c];
      SplitOnTrailingSeparator(x[k + 1..], c);
    }
  }

  /** No piece of a split contains the separator. */
  lemma {:induction false} SplitOnPiecesFree(s: string, sep: string)
    requires sep != []
    ensures forall i :: 0 <= i < |SplitOn(s, sep)| ==> !Contains(SplitOn(s, sep)[i], sep)
    decreases |s|
  {
    match Find(s, sep)
    case None =>
    case Some(k) =>
      var rest := s[k + |sep|..];
      SplitOnPiecesFree(rest, sep);
      var head := s[..k];
      forall j | 0 <= j <= |head| ensures !OccursAt(head, sep, j) {
        if j + |sep| <= |head| {
          assert j < k && !OccursAt(s, sep, j);
          assert head[j..j + |sep|] == s[j..j + |sep|];
        }
      }
  }

  // ------------------------------------------------------------ numbers

  function DigitValue(c: char): nat requires IsDigit(c) { (c as int - '0' as int) as nat }

  function DigitChar(d: nat): (c: char)
    requires d < 10
    ensures IsDigit(c) && DigitValue(c) == d
  {
    ('0' as int + d) as char
  }

  /** The number written by the decimal digits of `s`, ignoring any `_` between them. */
  function DigitsValue(s: string): nat
    requires forall k :: 0 <= k < |s| ==> IsDigit(s[k]) || s[k] == '_'
  {
    if s == [] then 0
    else if s[|s| - 1] == '_' then DigitsValue(s[..|s| - 1])
    else DigitsValue(s[..|s| - 1]) * 10 + DigitValue(s[|s| - 1])
  }

  /** `str(n)` for a natural number. */
  function DecimalString(n: nat): (r: string)
    ensures r != [] && forall k :: 0 <= k < |r| ==> IsDigit(r[k])
  {
    if n < 10 then [DigitChar(n)] else DecimalString(n / 10) + [DigitChar(n % 10)]
  }

  /** Reading back the decimal digits of `n` gives `n`. */
  lemma {:induction false} DecimalStringValue(n: nat)
    ensures DigitsValue(DecimalString(n)) == n
  {
    if n >= 10 {
      var s := DecimalString(n);
      assert s[..|s| - 1] == DecimalString(n / 10);
      DecimalStringValue(n / 10);
    }
  }

  /** `str(i)` for an integer. */
  function IntString(i: int): string {
    if i < 0 then "-" + DecimalString(-i) else DecimalString(i)
  }

  /**
   * The digit part accepted by `int()`: digits, each `_` between two digits
   * (it starts and ends with a digit, and no two `_` are adjacent).
   */
  predicate IsDigitBody(b: string) {
    b != [] && IsDigit(b[|b| - 1]) && UnderscoredDigits(b)
  }

  /** Digits and `_`, each `_` right after a digit: read from the end, one character at a time. */
  predicate UnderscoredDigits(b: string)
    decreases |b|
  {
    if b == [] then true
    else
      var n := |b| - 1;
      && (IsDigit(b[n]) || (b[n] == '_' && n >= 1 && IsDigit(b[n - 1])))
      && UnderscoredDigits(b[..n])
  }

  /** The value of a digit body, as a natural number: the digits read in order, the `_` skipped. */
  function BodyValue(b: string): nat
    requires UnderscoredDigits(b)
    decreases |b|
  {
    if b == [] then 0
    else
      var n := |b| - 1;
      if b[n] == '_' then BodyValue(b[..n]) else BodyValue(b[..n]) * 10 + DigitValue(b[n])
  }

  /**
   * `int(s)` in base 10: surrounding white space is ignored, an optional sign
   * is accepted, and anything else malformed raises (`None`).
   */
  function ParseInt(s: string): (r: Option<int>) {
    var t := Strip(s);
    if t == [] then None
    else if t[0] == '+' || t[0] == '-' then
      var b := t[1..];
      if IsDigitBody(b) then
        var v: int := BodyValue(b);
        Some(if t[0] == '-' then -v else v)
      else None
    else if IsDigitBody(t) then Some(BodyValue(t))
    else None
  }

  /** `int(str(i)) == i`. */
  lemma ParseIntString(i: int)
    ensures ParseInt(IntString(i)) == Some(i)
  {
    var n: nat := if i < 0 then -i else i;
    DecimalStringValue(n);
    if i < 0 {
      var d := DecimalString(n);
      var t := IntString(i);
      assert t == "-" + d && t[1..] == d;
      ParseNegative(t, d);
    } else {
      ParseDigits(DecimalString(n));
    }
  }

  /** The decimal digits of a number, read back. */
  lemma ParseDigits(d: string)
    requires d != [] && forall k :: 0 <= k < |d| ==> IsDigit(d[k])
    ensures ParseInt(d) == Some(DigitsValue(d))
  {
    assert !IsSpace(d[0]) && !IsSpace(d[|d| - 1]);
    StripTrimmed(d);
    DigitsBody(d);
    ParseUnsigned(d);
  }

  lemma ParseUnsigned(t: string)
    requires Strip(t) == t && IsDigitBody(t)
    ensures ParseInt(t) == Some(BodyValue(t))
  {
    DigitBodyStart(t);
  }

  /** A minus sign before the decimal digits of a number, read back. */
  lemma ParseNegative(t: string, d: string)
    requires d != [] && forall k :: 0 <= k < |d| ==> IsDigit(d[k])
    requires |t| == |d| + 1 && t[0] == '-' && t[1..] == d
    ensures ParseInt(t) == Some(0 - DigitsValue(d))
  {
    assert t[|t| - 1] == d[|d| - 1];
    assert !IsSpace(t[0]) && !IsSpace(t[|t| - 1]);
    StripTrimmed(t);
    DigitsBody(d);
    ParseMinus(t);
  }

  lemma ParseMinus(t: string)
    requires Strip(t) == t && t != [] && t[0] == '-' && IsDigitBody(t[1..])
    ensures ParseInt(t) == Some(0 - BodyValue(t[1..]))
  {
  }

  /** A run of plain digits is a digit body, and its value is the number the digits write. */
  lemma {:induction false} DigitsBody(d: string)
    requires d != [] && forall k :: 0 <= k < |d| ==> IsDigit(d[k])
    ensures IsDigitBody(d) && BodyValue(d) == DigitsValue(d)
    decreases |d|
  {
    var n := |d| - 1;
    if n > 0 {
      DigitsBody(d[..n]);
    }
  }

  /** A value that `int()` accepts is a strict conversion: the stripped text is sign and digits only. */
  lemma ParseIntShape(s: string)
    requires ParseInt(s).Some?
    ensures var t := Strip(s); t != [] && (IsDigit(t[0]) || t[0] == '+' || t[0] == '-')
  {
    var t := Strip(s);
    if t != [] && t[0] != '+' && t[0] != '-' {
      DigitBodyStart(t);
    }
  }

  /** A digit body starts with a digit: a `_` must follow one. */
  lemma {:induction false} DigitBodyStart(b: string)
    requires b != [] && UnderscoredDigits(b)
    ensures IsDigit(b[0])
    decreases |b|
  {
    var n := |b| - 1;
    if n > 0 {
      DigitBodyStart(b[..n]);
    }
  }

  // ------------------------------------------------------- case folding

  /** ASCII lower-casing of one character. */
  function LowerChar(c: char): char {
    if 'A' <= c <= 'Z' then (c as int + 32) as char else c
  }

  function Lower(s: string): (r: string)
    ensures |r| == |s| && forall k :: 0 <= k < |s| ==> r[k] == LowerChar(s[k])
  {
    seq(|s|, k requires 0 <= k < |s| => LowerChar(s[k]))
  }

  /** Case-insensitive `p in s` (ASCII folding). */
  predicate ContainsIgnoreCase(s: string, p: string) {
    Contains(Lower(s), Lower(p))
  }
}
