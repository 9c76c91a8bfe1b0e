/**
 * The extraction rules `parse_products` applies to one product segment, each a
 * hand-written matcher for one fixed regular expression searched leftmost
 * (`re.search`), each with a well-defined "no match" outcome:
 *
 *   quantity   `(\d+)x`
 *   name       ` (.+?) \(`
 *   set name   `\(([^()]+)\)(?=[^()]*$)`, then `Magic: The Gathering | ` removed
 *   quality    `\b( - MT - | - NM - | - EX - | - GD - | - LP - | - PL - | - PO -)\b`
 *   language   `\b(English|German|...|Russian)\b`
 *   foil       the substring ` - Foil - `
 *   unit price `- ([\d,.]+) CUR`, decimal comma turned into a point, then `float()`
 *   total      quantity times unit price when both are truthy
 */
module SegmentRules {
  import opened Outcomes
  import opened Text

  // ================================================================ quantity

  /** Length of the maximal run of digits starting at `i`. */
  function DigitRun(s: string, i: nat): (n: nat)
    requires i <= |s|
    ensures i + n <= |s|
    ensures forall k :: i <= k < i + n ==> IsDigit(s[k])
    ensures i + n == |s| || !IsDigit(s[i + n])
    decreases |s| - i
  {
    if i < |s| && IsDigit(s[i]) then 1 + DigitRun(s, i + 1) else 0
  }

  /** `(\d+)x` matches at `i`: digits start there and the first non-digit after them is `x`. */
  predicate QuantityAt(s: string, i: nat) {
    i < |s| && var n := DigitRun(s, i); n > 0 && i + n < |s| && s[i + n] == 'x'
  }

  /** The leftmost position at or after `i` where the quantity pattern matches. */
  function FindQuantity(s: string, i: nat): (r: Option<nat>)
    ensures r.Some? ==> i <= r.value < |s| && QuantityAt(s, r.value)
    ensures r.Some? ==> forall j :: i <= j < r.value ==> !QuantityAt(s, j)
    ensures r.None? ==> forall j :: i <= j ==> !QuantityAt(s, j)
    decreases |s| - i
  {
    if i >= |s| then None
    else if QuantityAt(s, i) then Some(i)
    else FindQuantity(s, i + 1)
  }

  /** `int(re.search(r"(\d+)x", s).group(1))`, or `None` without a match. */
  function Quantity(s: string): (r: Option<nat>)
    ensures r.Some? <==> exists i :: 0 <= i < |s| && QuantityAt(s, i)
  {
    match FindQuantity(s, 0)
    case None => None
    case Some(i) => Some(DigitsValue(s[i..i + DigitRun(s, i)]))
  }

  /** A maximal digit run over a string made of digits followed by a non-digit. */
  lemma {:induction false} DigitRunOfDigits(d: string, rest: string, i: nat)
    requires i <= |d|
    requires forall k :: 0 <= k < |d| ==> IsDigit(d[k])
    requires rest == [] || !IsDigit(rest[0])
    ensures DigitRun(d + rest, i) == |d| - i
    decreases |d| - i
  {
    if i < |d| {
      assert (d + rest)[i] == d[i];
      DigitRunOfDigits(d, rest, i + 1);
    } else if rest != [] {
      assert (d + rest)[i] == rest[0];
    }
  }

  /** A segment that starts `<n>x` has quantity `n`. */
  lemma QuantityOfLeadingCount(n: nat, rest: string)
    ensures Quantity(DecimalString(n) + "x" + rest) == Some(n)
  {
    var d := DecimalString(n);
    var s := d + "x" + rest;
    assert s == d + ("x" + rest);
    DigitRunOfDigits(d, "x" + rest, 0);
    assert s[|d|] == 'x';
    assert QuantityAt(s, 0);
    assert s[0..|d|] == d;
    DecimalStringValue(n);
  }

  // ============================================================ product name

  /**
   * The lazy `.+?` of ` (.+?) \(`, having consumed up to `j`: the first `j' >= j`
   * where ` (` follows, provided no newline is consumed on the way.
   */
  function LazyNameEnd(s: string, j: nat): (r: Option<nat>)
    ensures r.Some? ==> j <= r.value && r.value + 1 < |s| && s[r.value] == ' ' && s[r.value + 1] == '('
    ensures r.Some? ==> forall k :: j <= k < r.value ==> s[k] != '\n' && !(s[k] == ' ' && s[k + 1] == '(')
    decreases |s| - j
  {
    if j + 1 >= |s| then None
    else if s[j] == ' ' && s[j + 1] == '(' then Some(j)
    else if s[j] == '\n' then None
    else LazyNameEnd(s, j + 1)
  }

  /** ` (.+?) \(` matches at `i`. */
  predicate NameAt(s: string, i: nat) {
    i + 1 < |s| && s[i] == ' ' && s[i + 1] != '\n' && LazyNameEnd(s, i + 2).Some?
  }

  function FindName(s: string, i: nat): (r: Option<nat>)
    ensures r.Some? ==> i <= r.value && NameAt(s, r.value)
    ensures r.Some? ==> forall j :: i <= j < r.value ==> !NameAt(s, j)
    ensures r.None? ==> forall j :: i <= j ==> !NameAt(s, j)
    decreases |s| - i
  {
    if i >= |s| then None
    else if NameAt(s, i) then Some(i)
    else FindName(s, i + 1)
  }

  /** The product name: the stripped text between the first usable space and the next ` (`. */
  function ProductName(s: string): (r: Option<string>)
    ensures r.Some? <==> exists i :: NameAt(s, i)
    ensures r.Some? ==> r.value == [] || (!IsSpace(r.value[0]) && !IsSpace(r.value[|r.value| - 1]))
  {
    match FindName(s, 0)
    case None => None
    case Some(i) => Some(Strip(s[i + 1..LazyNameEnd(s, i + 2).value]))
  }

  /** `name` holds no newline and no ` (` of its own. */
  predicate PlainName(name: string) {
    && '\n' !in name
    && forall k :: 0 <= k < |name| - 1 ==> !(name[k] == ' ' && name[k + 1] == '(')
  }

  /**
   * In the layout `<count> <name> (<rest>`, where the count token has no space,
   * the product name is the stripped name.
   */
  lemma ProductNameOfLayout(count: string, name: string, rest: string)
    requires ' ' !in count
    requires name != [] && PlainName(name)
    ensures ProductName(count + " " + name + " (" + rest) == Some(Strip(name))
  {
    var s := count + " " + name + " (" + rest;
    var i := |count|;
    var e := i + 1 + |name|;
    LayoutName(s, count, name, rest);
    LayoutCount(s, count, name, rest);
    FindNameFirst(s, i);
    ProductNameAt(s, i, e);
  }

  lemma ProductNameAt(s: string, i: nat, e: nat)
    requires FindName(s, 0) == Some(i) && LazyNameEnd(s, i + 2) == Some(e)
    ensures ProductName(s) == Some(Strip(s[i + 1..e]))
  {
  }

  lemma LayoutName(s: string, count: string, name: string, rest: string)
    requires s == count + " " + name + " (" + rest
    requires name != [] && PlainName(name)
    ensures NameAt(s, |count|) && LazyNameEnd(s, |count| + 2) == Some(|count| + 1 + |name|)
    ensures s[|count| + 1..|count| + 1 + |name|] == name
  {
    var i := |count|;
    var e := i + 1 + |name|;
    assert s[i] == ' ' && s[i + 1] == name[0];
    assert s[e] == ' ' && s[e + 1] == '(';
    forall k | i + 2 <= k < e ensures s[k] != '\n' && !(s[k] == ' ' && s[k + 1] == '(') {
      assert s[k] == name[k - i - 1];
      if k + 1 < e { assert s[k + 1] == name[k - i]; } else { assert s[k + 1] == ' '; }
    }
    LazyNameEndReaches(s, i + 2, e);
  }

  lemma LayoutCount(s: string, count: string, name: string, rest: string)
    requires s == count + " " + name + " (" + rest
    requires ' ' !in count
    ensures forall j :: 0 <= j < |count| ==> !NameAt(s, j)
  {
    forall j | 0 <= j < |count| ensures !NameAt(s, j) {
      assert s[j] == count[j];
    }
  }

  lemma FindNameFirst(s: string, i: nat)
    requires NameAt(s, i) && forall j :: 0 <= j < i ==> !NameAt(s, j)
    ensures FindName(s, 0) == Some(i)
  {
  }

  /** The lazy scan reaches the first ` (` when nothing before it stops it. */
  lemma {:induction false} LazyNameEndReaches(s: string, j: nat, e: nat)
    requires j <= e && e + 1 < |s| && s[e] == ' ' && s[e + 1] == '('
    requires forall k :: j <= k < e ==> s[k] != '\n' && !(s[k] == ' ' && s[k + 1] == '(')
    ensures LazyNameEnd(s, j) == Some(e)
    decreases e - j
  {
    if j < e {
      LazyNameEndReaches(s, j + 1, e);
    }
  }

  // ================================================================ set name

  /** Length of the maximal run of non-parenthesis characters starting at `i`. */
  function NonParenRun(s: string, i: nat): (n: nat)
    requires i <= |s|
    ensures i + n <= |s|
    ensures forall k :: i <= k < i + n ==> !IsParen(s[k])
    ensures i + n == |s| || IsParen(s[i + n])
    decreases |s| - i
  {
    if i < |s| && !IsParen(s[i]) then 1 + NonParenRun(s, i + 1) else 0
  }

  predicate NoParens(t: string) { forall k :: 0 <= k < |t| ==> !IsParen(t[k]) }

  /** `\(([^()]+)\)(?=[^()]*$)` matches at `i`. */
  predicate SetAt(s: string, i: nat) {
    && i < |s| && s[i] == '('
    && var n := NonParenRun(s, i + 1);
    && n > 0 && i + 1 + n < |s| && s[i + 1 + n] == ')'
    && NoParens(s[i + 2 + n..])
  }

  function FindSet(s: string, i: nat): (r: Option<nat>)
    ensures r.Some? ==> i <= r.value && SetAt(s, r.value)
    ensures r.Some? ==> forall j :: i <= j < r.value ==> !SetAt(s, j)
    ensures r.None? ==> forall j :: i <= j ==> !SetAt(s, j)
    decreases |s| - i
  {
    if i >= |s| then None
    else if SetAt(s, i) then Some(i)
    else FindSet(s, i + 1)
  }

  /**
   * The bounds `(open, close)` of the set-name group: a parenthesised span with
   * no parenthesis inside it and none after it.
   */
  function SetGroup(s: string): (r: Option<(nat, nat)>)
    ensures r.Some? ==> var (o, c) := r.value;
      o + 1 < c < |s| && s[o] == '(' && s[c] == ')' && NoParens(s[o + 1..c]) && NoParens(s[c + 1..])
    ensures r.None? <==> forall j :: !SetAt(s, j)
  {
    match FindSet(s, 0)
    case None => None
    case Some(o) =>
      var c := o + 1 + NonParenRun(s, o + 1);
      var g := s[o + 1..c];
      assert NoParens(g) by {
        forall k | 0 <= k < |g| ensures !IsParen(g[k]) { assert g[k] == s[o + 1 + k]; }
      }
      Some((o, c))
  }

  /** The marketplace prefix some set names carry. */
  const MagicPrefix: string := "Magic: The Gathering | "

  /** `group.replace("Magic: The Gathering | ", "").strip()`. */
  function CleanSetName(group: string): string {
    Strip(RemoveAll(group, MagicPrefix))
  }

  /** The set name of a segment, or `None` when it has no trailing parenthesised group. */
  function SetName(s: string): Option<string> {
    match SetGroup(s)
    case None => None
    case Some((o, c)) => Some(CleanSetName(s[o + 1..c]))
  }

  lemma {:induction false} NonParenRunOf(t: string, rest: string, i: nat)
    requires i <= |t| && NoParens(t)
    requires rest != [] && IsParen(rest[0])
    ensures NonParenRun(t + rest, i) == |t| - i
    decreases |t| - i
  {
    if i < |t| {
      assert (t + rest)[i] == t[i];
      NonParenRunOf(t, rest, i + 1);
    } else {
      assert (t + rest)[i] == rest[0];
    }
  }

  /**
   * The last parenthesised group is the set-name group when it has no
   * parenthesis inside and none follows it; whatever precedes it (other
   * groups, nested parentheses) does not matter.
   */
  lemma TrailingGroupIsSet(pre: string, g: string, post: string)
    requires g != [] && NoParens(g) && NoParens(post)
    ensures SetGroup(pre + "(" + g + ")" + post) == Some((|pre|, |pre| + 1 + |g|))
  {
    var s := pre + "(" + g + ")" + post;
    var o := |pre|;
    assert s[o] == '(';
    assert SetAt(s, o) && NonParenRun(s, o + 1) == |g| by {
      assert s[o + 1..] == g + (")" + post);
      NonParenRunOf(g, ")" + post, 0);
      NonParenRunShift(s, o + 1, 0);
      assert s[o + 1 + |g|] == ')';
      assert s[o + 2 + |g|..] == post;
    }
    NoSetBeforeOpen(s, o);
    FindSetFirst(s, o);
  }

  /** No set-name group starts before an opening parenthesis: it would run into it. */
  lemma NoSetBeforeOpen(s: string, o: nat)
    requires o < |s| && s[o] == '('
    ensures forall j: nat :: j < o ==> !SetAt(s, j)
  {
    forall j: nat | j < o ensures !SetAt(s, j) {
      if s[j] == '(' {
        var n := NonParenRun(s, j + 1);
        assert j + 1 + n <= o;
        if j + 1 + n < o {
          assert s[j + 2 + n..][o - j - 2 - n] == s[o];
        }
      }
    }
  }

  lemma FindSetFirst(s: string, o: nat)
    requires SetAt(s, o) && forall j: nat :: j < o ==> !SetAt(s, j)
    ensures FindSet(s, 0) == Some(o)
  {
  }

  lemma {:induction false} NonParenRunShift(s: string, m: nat, i: nat)
    requires m + i <= |s|
    ensures NonParenRun(s, m + i) == NonParenRun(s[m..], i)
    decreases |s| - m - i
  {
    if m + i < |s| {
      assert s[m + i] == s[m..][i];
      NonParenRunShift(s, m, i + 1);
    }
  }

  /** Set names shorter than the marketplace prefix come back stripped and otherwise intact. */
  lemma ShortSetNameKept(g: string)
    requires |g| < |MagicPrefix|
    ensures CleanSetName(g) == Strip(g)
  {
    RemoveAllAbsent(g, MagicPrefix);
  }

  /** The prefix `Magic: The Gathering | ` is removed from a set name. */
  lemma MagicPrefixRemoved(g: string)
    ensures CleanSetName(MagicPrefix + g) == Strip(RemoveAll(g, MagicPrefix))
  {
    assert StartsWith(MagicPrefix + g, MagicPrefix);
    assert (MagicPrefix + g)[|MagicPrefix|..] == g;
  }

  /** The set name of a segment ending in such a group is that group, cleaned. */
  lemma SetNameOfTrailingGroup(pre: string, g: string, post: string)
    requires g != [] && NoParens(g) && NoParens(post)
    ensures SetName(pre + "(" + g + ")" + post) == Some(CleanSetName(g))
  {
    TrailingGroupIsSet(pre, g, post);
    GroupText(pre, g, post);
    SetNameOfGroup(pre + "(" + g + ")" + post, |pre|, |pre| + 1 + |g|, g);
  }

  lemma GroupText(pre: string, g: string, post: string)
    ensures (pre + "(" + g + ")" + post)[|pre| + 1..|pre| + 1 + |g|] == g
  {
    var s := pre + "(" + g + ")" + post;
    assert s == pre + ("(" + g + ")" + post);
    assert s[|pre|..] == "(" + g + ")" + post;
  }

  lemma SetNameOfGroup(s: string, o: nat, c: nat, g: string)
    requires SetGroup(s) == Some((o, c))
    requires o + 1 <= c <= |s| && s[o + 1..c] == g
    ensures SetName(s) == Some(CleanSetName(g))
  {
  }

  /**
   * A double-faced token such as `Beast Token (G 3/3) / Elemental Token (G 5/3)
   * (Commander 2014)`: whatever groups precede it, a short, already stripped
   * trailing group is the set name as it stands.
   */
  lemma EarlierGroupsIgnored(pre: string, g: string, post: string)
    requires g != [] && NoParens(g) && NoParens(post)
    requires |g| < |MagicPrefix| && !IsSpace(g[0]) && !IsSpace(g[|g| - 1])
    ensures SetName(pre + "(" + g + ")" + post) == Some(g)
  {
    SetNameOfTrailingGroup(pre, g, post);
    ShortSetNameKept(g);
    StripTrimmed(g);
  }

  // ================================================================= quality

  /** The alternatives of the quality pattern, in order. */
  const QualityTokens: seq<string> :=
    [" - MT - ", " - NM - ", " - EX - ", " - GD - ", " - LP - ", " - PL - ", " - PO -"]

  /** The codes the quality column can hold besides `N/A`, one per alternative. */
  const QualityCodes: seq<string> := ["MT", "NM", "EX", "GD", "LP", "PL", "PO -"]

  /** The layout of the alternatives: six two-letter codes between ` - ` marks, then ` - PO -`. */
  lemma QualityTokenShapes()
    ensures |QualityTokens| == 7 && |QualityCodes| == 7
    ensures forall t :: 0 <= t < 6 ==>
      && QualityTokens[t] == " - " + QualityCodes[t] + " - " && |QualityCodes[t]| == 2
      && QualityTokens[t][3..5] == QualityCodes[t]
      && IsAsciiLetter(QualityCodes[t][0]) && IsAsciiLetter(QualityCodes[t][1])
    ensures forall t, u :: 0 <= t < u < 6 ==> QualityCodes[t] != QualityCodes[u]
    ensures forall t :: 0 <= t < 6 ==> QualityCodes[t] != "PO"
    ensures QualityTokens[6] == " - PO -"
    ensures "N/A" !in QualityCodes
  {
    forall t | 0 <= t < 6
      ensures QualityTokens[t] == " - " + QualityCodes[t] + " - " && |QualityCodes[t]| == 2
    {
      if t == 0 { assert QualityTokens[t] == " - MT - "; }
      else if t == 1 { assert QualityTokens[t] == " - NM - "; }
      else if t == 2 { assert QualityTokens[t] == " - EX - "; }
      else if t == 3 { assert QualityTokens[t] == " - GD - "; }
      else if t == 4 { assert QualityTokens[t] == " - LP - "; }
      else { assert QualityTokens[t] == " - PL - "; }
    }
  }

  /** `\b` at position `i`: a word character on exactly one side. */
  predicate IsBoundary(s: string, i: nat) {
    (0 < i <= |s| && IsWordChar(s[i - 1])) != (i < |s| && IsWordChar(s[i]))
  }

  /** The index of the first alternative (from `t` on) that matches at `i` and is followed by `\b`. */
  function QualityTokenAt(s: string, i: nat, t: nat): (r: Option<nat>)
    requires t <= |QualityTokens|
    ensures r.Some? ==> t <= r.value < |QualityTokens|
    ensures r.Some? ==> OccursAt(s, QualityTokens[r.value], i) && IsBoundary(s, i + |QualityTokens[r.value]|)
    decreases |QualityTokens| - t
  {
    if t == |QualityTokens| then None
    else
      var tok := QualityTokens[t];
      if OccursAt(s, tok, i) && IsBoundary(s, i + |tok|) then Some(t) else QualityTokenAt(s, i, t + 1)
  }

  /** The quality pattern matches at `i`. */
  predicate QualityAt(s: string, i: nat) {
    IsBoundary(s, i) && QualityTokenAt(s, i, 0).Some?
  }

  function FindQuality(s: string, i: nat): (r: Option<nat>)
    ensures r.Some? ==> i <= r.value <= |s| && QualityAt(s, r.value)
    ensures r.Some? ==> forall j :: i <= j < r.value ==> !QualityAt(s, j)
    ensures r.None? ==> forall j :: i <= j ==> !QualityAt(s, j)
    decreases |s| + 1 - i
  {
    if i > |s| then None
    else if QualityAt(s, i) then Some(i)
    else FindQuality(s, i + 1)
  }

  /** What `group(1).replace(" - ", "").strip()` makes of an alternative. */
  function QualityCode(tok: string): string {
    Strip(RemoveAll(tok, " - "))
  }

  /** A two-letter code between ` - ` marks loses both marks. */
  lemma CodeTokenCleaned(code: string)
    requires |code| == 2 && IsAsciiLetter(code[0]) && IsAsciiLetter(code[1])
    ensures QualityCode(" - " + code + " - ") == code
  {
    var a := [code[1]] + " - ";
    var b := [code[0]] + a;
    assert " - " + code + " - " == " - " + b;
    RemoveLeading(" - ", b);
    assert RemoveAll(" - " + b, " - ") == RemoveAll(b, " - ");
    KeepLeading(code[0], a, " - ");
    KeepLeading(code[1], " - ", " - ");
    RemoveLeading(" - ", []);
    assert RemoveAll(b, " - ") == [code[0]] + ([code[1]] + []) == code;
    StripTrimmed(code);
  }

  /** An occurrence of the pattern at the front is deleted. */
  lemma RemoveLeading(pat: string, rest: string)
    requires pat != []
    ensures RemoveAll(pat + rest, pat) == RemoveAll(rest, pat)
  {
    assert StartsWith(pat + rest, pat);
    assert (pat + rest)[|pat|..] == rest;
  }

  /** A first character that does not start the pattern is kept. */
  lemma KeepLeading(c: char, rest: string, pat: string)
    requires pat != [] && c != pat[0]
    ensures RemoveAll([c] + rest, pat) == [c] + RemoveAll(rest, pat)
  {
    assert !StartsWith([c] + rest, pat) by { assert ([c] + rest)[0] == c; }
    assert ([c] + rest)[1..] == rest;
  }

  /** The last alternative keeps its trailing mark. */
  lemma PoorTokenCleaned()
    ensures QualityCode(" - PO -") == "PO -"
  {
    var s := " - PO -";
    assert StartsWith(s, " - ");
    assert s[3..] == "PO -";
    assert RemoveAll("-", " - ") == "-";
    assert RemoveAll(" -", " - ") == " -";
    assert RemoveAll("O -", " - ") == "O -";
    assert RemoveAll("PO -", " - ") == "PO -";
    StripTrimmed("PO -");
  }

  /** Each alternative's cleaned text is the code listed for it. */
  lemma QualityCodeTable()
    ensures forall t :: 0 <= t < |QualityTokens| ==> QualityCode(QualityTokens[t]) == QualityCodes[t]
  {
    QualityTokenShapes();
    forall t | 0 <= t < |QualityTokens| ensures QualityCode(QualityTokens[t]) == QualityCodes[t] {
      if t < 6 { CodeTokenCleaned(QualityCodes[t]); } else { PoorTokenCleaned(); }
    }
  }

  /** The quality column: the code of the first matching alternative, `N/A` without a match. */
  function Quality(s: string): (r: string)
    ensures r == "N/A" <==> forall j :: !QualityAt(s, j)
    ensures r != "N/A" ==> r in QualityCodes
  {
    match FindQuality(s, 0)
    case None => "N/A"
    case Some(i) =>
      var t := QualityTokenAt(s, i, 0).value;
      QualityCodeTable();
      QualityTokenShapes();
      assert QualityCode(QualityTokens[t]) == QualityCodes[t];
      QualityCode(QualityTokens[t])
  }

  lemma {:induction false} QualityTokenAtNone(s: string, i: nat, t: nat)
    requires t <= |QualityTokens|
    requires forall u :: t <= u < |QualityTokens| ==> !(OccursAt(s, QualityTokens[u], i) && IsBoundary(s, i + |QualityTokens[u]|))
    ensures QualityTokenAt(s, i, t).None?
    decreases |QualityTokens| - t
  {
    if t < |QualityTokens| { QualityTokenAtNone(s, i, t + 1); }
  }

  /**
   * In the usual ` - PO - English` layout no alternative matches at the mark:
   * the two-letter ones spell other codes, and the last one ends in `-`
   * followed by a space, so its closing `\b` fails.
   */
  lemma PoorInUsualLayout(pre: string, post: string)
    ensures !QualityAt(pre + " - PO - " + post, |pre|)
  {
    var s := pre + " - PO - " + post;
    var i := |pre|;
    assert s[i..i + 8] == " - PO - ";
    QualityTokenShapes();
    forall t | 0 <= t < 6 ensures !OccursAt(s, QualityTokens[t], i) {
      assert s[i + 3..i + 5] == "PO";
      assert QualityTokens[t][3..5] == QualityCodes[t];
    }
    assert s[i + 6] == '-' && s[i + 7] == ' ';
    assert !IsBoundary(s, i + 7);
    QualityTokenAtNone(s, i, 0);
  }

  /** Alternatives before the code token `t` cannot match where it occurs. */
  lemma QualityTokenAtFirst(s: string, i: nat, t: nat)
    requires t < 6 && OccursAt(s, QualityTokens[t], i) && IsBoundary(s, i + |QualityTokens[t]|)
    ensures QualityTokenAt(s, i, 0) == Some(t)
  {
    QualityTokenShapes();
    var tok := QualityTokens[t];
    assert |tok| == 8;
    assert s[i + 3] == tok[3] && s[i + 4] == tok[4] by {
      assert s[i..i + |tok|][3] == s[i + 3] && s[i..i + |tok|][4] == s[i + 4];
    }
    assert tok[3..5] == QualityCodes[t];
    assert s[i + 3..i + 5] == QualityCodes[t];
    var u := 0;
    while u < t
      invariant 0 <= u <= t
      invariant QualityTokenAt(s, i, 0) == QualityTokenAt(s, i, u)
    {
      OtherTokenMisses(s, i, t, u);
      u := u + 1;
    }
  }

  /** A two-letter token whose code differs from the one at `i` does not occur there. */
  lemma OtherTokenMisses(s: string, i: nat, t: nat, u: nat)
    requires u < t < 6 && i + 5 <= |s| && s[i + 3..i + 5] == QualityCodes[t]
    ensures !OccursAt(s, QualityTokens[u], i)
  {
    QualityTokenShapes();
    var tok := QualityTokens[u];
    if i + |tok| <= |s| {
      assert s[i..i + |tok|][3..5] == s[i + 3..i + 5];
      assert tok[3..5] == QualityCodes[u] != QualityCodes[t];
    }
  }

  /**
   * A two-letter code token between word characters, with no quality match
   * before it, is the segment's quality.
   */
  lemma QualityOfCodeToken(pre: string, t: nat, post: string)
    requires t < 6
    requires pre != [] && IsWordChar(pre[|pre| - 1])
    requires post != [] && IsWordChar(post[0])
    requires forall j :: 0 <= j < |pre| ==> !QualityAt(pre + QualityTokens[t] + post, j)
    ensures Quality(pre + QualityTokens[t] + post) == QualityCodes[t]
  {
    QualityTokenShapes();
    var tok := QualityTokens[t];
    var s := pre + tok + post;
    var i := |pre|;
    assert s[i..i + |tok|] == tok;
    assert s[i - 1] == pre[|pre| - 1] && s[i] == ' ';
    assert s[i + |tok|] == post[0] && s[i + |tok| - 1] == ' ';
    QualityTokenAtFirst(s, i, t);
    assert QualityAt(s, i);
    assert FindQuality(s, 0) == Some(i);
    QualityCodeTable();
  }

  // ================================================================ language

  /** The alternatives of the language pattern, in order. */
  const Languages: seq<string> :=
    ["English", "German", "French", "Italian", "Spanish", "Japanese", "Simplified Chinese",
     "Traditional Chinese", "Korean", "Portuguese", "Russian"]

  /** The first language (from index `t`) spelled at `i` and followed by `\b`. */
  function LanguageTokenAt(s: string, i: nat, t: nat): (r: Option<string>)
    requires t <= |Languages|
    ensures r.Some? ==> r.value in Languages && OccursAt(s, r.value, i) && IsBoundary(s, i + |r.value|)
    decreases |Languages| - t
  {
    if t == |Languages| then None
    else
      var lang := Languages[t];
      if OccursAt(s, lang, i) && IsBoundary(s, i + |lang|) then Some(lang) else LanguageTokenAt(s, i, t + 1)
  }

  predicate LanguageAt(s: string, i: nat) {
    IsBoundary(s, i) && LanguageTokenAt(s, i, 0).Some?
  }

  function FindLanguage(s: string, i: nat): (r: Option<nat>)
    ensures r.Some? ==> i <= r.value <= |s| && LanguageAt(s, r.value)
    ensures r.Some? ==> forall j :: i <= j < r.value ==> !LanguageAt(s, j)
    ensures r.None? ==> forall j :: i <= j ==> !LanguageAt(s, j)
    decreases |s| + 1 - i
  {
    if i > |s| then None
    else if LanguageAt(s, i) then Some(i)
    else FindLanguage(s, i + 1)
  }

  /** The first language named as a whole word in the segment, or `None`. */
  function Language(s: string): (r: Option<string>)
    ensures r.None? <==> forall j :: !LanguageAt(s, j)
    ensures r.Some? ==> r.value in Languages
    ensures r.Some? ==> exists i: nat :: OccursAt(s, r.value, i) && IsBoundary(s, i) && IsBoundary(s, i + |r.value|)
  {
    match FindLanguage(s, 0)
    case None => None
    case Some(i) => LanguageTokenAt(s, i, 0)
  }

  // ==================================================================== foil

  const FoilMarker: string := " - Foil - "
  const Star: string := "⭐"
  const Cross: string := "❌"

  /** The foil column: a star when the segment has the marker ` - Foil - `. */
  function Foil(s: string): (r: string)
    ensures r == Star <==> exists i :: OccursAt(s, FoilMarker, i)
    ensures r == Cross <==> forall i :: !OccursAt(s, FoilMarker, i)
  {
    var f := Find(s, FoilMarker);
    assert f.None? ==> forall i :: !OccursAt(s, FoilMarker, i) by {
      if f.None? {
        forall i: nat ensures !OccursAt(s, FoilMarker, i) {
          if i > |s| { assert i + |FoilMarker| > |s|; }
        }
      }
    }
    if f.Some? then Star else Cross
  }

  // =================================================================== price

  predicate IsPriceChar(c: char) { IsDigit(c) || c == ',' || c == '.' }

  /** Length of the maximal run of `[\d,.]` characters starting at `i`. */
  function PriceRun(s: string, i: nat): (n: nat)
    requires i <= |s|
    ensures i + n <= |s|
    ensures forall k :: i <= k < i + n ==> IsPriceChar(s[k])
    ensures i + n == |s| || !IsPriceChar(s[i + n])
    decreases |s| - i
  {
    if i < |s| && IsPriceChar(s[i]) then 1 + PriceRun(s, i + 1) else 0
  }

  /**
   * `- ([\d,.]+) CUR` matches at `i`, the currency code taken literally (the
   * source splices it into the pattern unescaped; codes are letters).
   */
  predicate PriceAt(s: string, currency: string, i: nat) {
    && i + 2 <= |s| && s[i] == '-' && s[i + 1] == ' '
    && var n := PriceRun(s, i + 2);
    && n > 0 && OccursAt(s, " " + currency, i + 2 + n)
  }

  function FindPrice(s: string, currency: string, i: nat): (r: Option<nat>)
    ensures r.Some? ==> i <= r.value && PriceAt(s, currency, r.value)
    ensures r.Some? ==> forall j :: i <= j < r.value ==> !PriceAt(s, currency, j)
    ensures r.None? ==> forall j :: i <= j ==> !PriceAt(s, currency, j)
    decreases |s| - i
  {
    if i >= |s| then None
    else if PriceAt(s, currency, i) then Some(i)
    else FindPrice(s, currency, i + 1)
  }

  /** The price text the pattern captures: digits, commas and points. */
  function PriceText(s: string, currency: string): (r: Option<string>)
    ensures r.Some? ==> r.value != [] && forall k :: 0 <= k < |r.value| ==> IsPriceChar(r.value[k])
    ensures r.None? <==> forall j :: !PriceAt(s, currency, j)
  {
    match FindPrice(s, currency, 0)
    case None => None
    case Some(i) =>
      var t := s[i + 2..i + 2 + PriceRun(s, i + 2)];
      assert forall k :: 0 <= k < |t| ==> t[k] == s[i + 2 + k];
      Some(t)
  }

  /** `text.replace(',', '.')`. */
  function Normalize(t: string): string { ReplaceChar(t, ',', '.') }

  predicate IsDecimalText(t: string) { forall k :: 0 <= k < |t| ==> IsDigit(t[k]) || t[k] == '.' }

  lemma NormalizedIsDecimal(t: string)
    requires forall k :: 0 <= k < |t| ==> IsPriceChar(t[k])
    ensures IsDecimalText(Normalize(t))
  {
  }

  function Pow10(n: nat): (r: nat) ensures r > 0 { if n == 0 then 1 else 10 * Pow10(n - 1) }

  /** The index of the first `.`, if any. */
  function DotIndex(t: string, i: nat): (r: Option<nat>)
    ensures r.Some? ==> i <= r.value < |t| && t[r.value] == '.'
    ensures r.Some? ==> forall k :: i <= k < r.value ==> t[k] != '.'
    ensures r.None? ==> forall k :: i <= k < |t| ==> t[k] != '.'
    decreases |t| - i
  {
    if i >= |t| then None else if t[i] == '.' then Some(i) else DotIndex(t, i + 1)
  }

  /**
   * `float(t)` on a string of digits and points: accepted when there is at most
   * one point and at least one digit; the value is exact.
   */
  function ParseFloat(t: string): (r: Option<real>)
    requires IsDecimalText(t)
    ensures r.Some? ==> r.value >= 0.0
  {
    match DotIndex(t, 0)
    case None => if t == [] then None else Some(DigitsValue(t) as real)
    case Some(k) =>
      var a := t[..k];
      var b := t[k + 1..];
      if DotIndex(b, 0).Some? || (a == [] && b == []) then None
      else Some(DecimalValue(a, b))
  }

  /** The number whose integer digits are `a` and whose fraction digits are `b`. */
  function DecimalValue(a: string, b: string): (r: real)
    requires forall k :: 0 <= k < |a| ==> IsDigit(a[k])
    requires forall k :: 0 <= k < |b| ==> IsDigit(b[k])
    ensures r >= 0.0
  {
    DigitsValue(a) as real + DigitsValue(b) as real / Pow10(|b|) as real
  }

  /** The number of decimal points in `t`. */
  function Dots(t: string): nat { multiset(t)['.'] }

  predicate HasDigit(t: string) { exists k :: 0 <= k < |t| && IsDigit(t[k]) }

  /** `float()` accepts a digits-and-points string exactly when it has one point at most and a digit. */
  lemma ParseFloatAccepts(t: string)
    requires IsDecimalText(t)
    ensures ParseFloat(t).Some? <==> Dots(t) <= 1 && HasDigit(t)
  {
    match DotIndex(t, 0)
    case None => NoPointAccepted(t);
    case Some(k) => PointAccepted(t, k);
  }

  lemma NoPointAccepted(t: string)
    requires IsDecimalText(t) && DotIndex(t, 0).None?
    ensures ParseFloat(t).Some? <==> Dots(t) <= 1 && HasDigit(t)
  {
    assert Dots(t) == 0 by { assert '.' !in t; }
    if t != [] { assert IsDigit(t[0]); }
  }

  lemma PointAccepted(t: string, k: nat)
    requires IsDecimalText(t) && DotIndex(t, 0) == Some(k)
    ensures ParseFloat(t).Some? <==> Dots(t) <= 1 && HasDigit(t)
  {
    var a := t[..k];
    var b := t[k + 1..];
    assert Dots(t) == Dots(a) + 1 + Dots(b) by {
      assert t == a + ['.'] + b;
      assert multiset(t) == multiset(a) + multiset(['.']) + multiset(b);
    }
    assert Dots(a) == 0 by { assert '.' !in a; }
    assert DotIndex(b, 0).Some? <==> Dots(b) >= 1 by {
      if DotIndex(b, 0).Some? { assert b[DotIndex(b, 0).value] in b; }
      else { assert '.' !in b; }
    }
    assert HasDigit(t) <==> a != [] || (DotIndex(b, 0).None? && b != []) || (DotIndex(b, 0).Some? && HasDigit(t)) by {
      if a != [] { assert IsDigit(t[0]); }
      if DotIndex(b, 0).None? && b != [] { assert IsDigit(b[0]) && t[k + 1] == b[0]; }
      if a == [] && DotIndex(b, 0).None? && HasDigit(t) {
        var j :| 0 <= j < |t| && IsDigit(t[j]);
        assert j > k && t[j] == b[j - k - 1];
      }
    }
  }

  /** A decimal comma reads as a decimal point: `a,b` and `a.b` both give `a + b / 10^|b|`. */
  lemma DecimalCommaPrice(a: string, b: string)
    requires a != [] && forall k :: 0 <= k < |a| ==> IsDigit(a[k])
    requires forall k :: 0 <= k < |b| ==> IsDigit(b[k])
    ensures Normalize(a + "," + b) == a + "." + b
    ensures ParseFloat(a + "." + b) == Some(DecimalValue(a, b))
  {
    NormalizeComma(a, b);
    var t := a + "." + b;
    assert t[|a|] == '.';
    assert forall k :: 0 <= k < |a| ==> t[k] == a[k];
    assert DotIndex(t, 0) == Some(|a|);
    assert t[..|a|] == a;
    assert t[|a| + 1..] == b;
    assert DotIndex(b, 0).None?;
  }

  lemma NormalizeComma(a: string, b: string)
    requires forall k :: 0 <= k < |a| ==> a[k] != ','
    requires forall k :: 0 <= k < |b| ==> b[k] != ','
    ensures Normalize(a + "," + b) == a + "." + b
  {
    var x := Normalize(a + "," + b);
    var y := a + "." + b;
    assert |x| == |y|;
    forall k | 0 <= k < |x| ensures x[k] == y[k] {
      if k < |a| { assert (a + "," + b)[k] == a[k]; }
      else if k > |a| { assert (a + "," + b)[k] == b[k - |a| - 1] == y[k]; }
    }
  }

  /** A price written with a thousands point and a decimal comma (`1.234,56`) is rejected. */
  lemma ThousandsSeparatorRejected(a: string, b: string, c: string)
    requires forall k :: 0 <= k < |a| ==> IsDigit(a[k])
    requires forall k :: 0 <= k < |b| ==> IsDigit(b[k])
    requires forall k :: 0 <= k < |c| ==> IsDigit(c[k])
    ensures IsDecimalText(Normalize(a + "." + b + "," + c))
    ensures ParseFloat(Normalize(a + "." + b + "," + c)).None?
  {
    var t := Normalize(a + "." + b + "," + c);
    assert t == a + "." + b + "." + c;
    ParseFloatAccepts(t);
    assert Dots(t) >= 2 by {
      assert multiset(t) == multiset(a) + multiset(".") + multiset(b) + multiset(".") + multiset(c);
    }
  }

  /** The unit-price rule's three outcomes. */
  datatype PriceOutcome = NoPrice | Price(value: real) | Malformed(text: string)

  /** The unit price: absent, a decimal, or text that `float()` rejects (which raises). */
  function UnitPrice(s: string, currency: string): (r: PriceOutcome)
    ensures r.NoPrice? <==> forall j :: !PriceAt(s, currency, j)
    ensures r.Price? ==> r.value >= 0.0
    ensures r.Malformed? ==> r.text == Normalize(PriceText(s, currency).value)
  {
    match PriceText(s, currency)
    case None => NoPrice
    case Some(t) =>
      var n := Normalize(t);
      NormalizedIsDecimal(t);
      match ParseFloat(n)
      case None => Malformed(n)
      case Some(v) => Price(v)
  }

  // =================================================================== total

  /**
   * `quantity * price if quantity and price else None`: a total exists only
   * when both are present and non-zero, and then dividing it by the quantity
   * gives the unit price back.
   */
  function Total(quantity: Option<nat>, price: Option<real>): (r: Option<real>)
    ensures r.Some? <==> quantity.Some? && quantity.value != 0 && price.Some? && price.value != 0.0
    ensures r.Some? ==> r.value / quantity.value as real == price.value
  {
    if quantity.Some? && quantity.value != 0 && price.Some? && price.value != 0.0
    then Some(quantity.value as real * price.value)
    else None
  }

  // ============================================================ whole segment

  /** One parsed product, the eight columns `parse_products` fills. */
  datatype ProductRow = ProductRow(
    qty: Option<nat>,
    name: Option<string>,
    setName: Option<string>,
    price: Option<real>,
    quality: string,
    foil: string,
    lang: Option<string>,
    total: Option<real>)

  /** `float()` raised on the price text of `segment`. */
  datatype ParseError = BadPrice(segment: string, text: string)

  /** Apply every rule to one segment; only a malformed price raises. */
  function ParseSegment(segment: string, currency: string): (r: Result<ProductRow, ParseError>)
    ensures r.Err? <==> UnitPrice(segment, currency).Malformed?
    ensures r.Ok? ==> r.value.quality == "N/A" || r.value.quality in QualityCodes
    ensures r.Ok? ==> r.value.total.Some? ==> r.value.qty.Some? && r.value.price.Some?
    ensures r.Ok? ==> (r.value.foil == Star <==> exists i :: OccursAt(segment, FoilMarker, i))
    ensures r.Ok? ==> (r.value.price.Some? <==> UnitPrice(segment, currency).Price?)
  {
    match UnitPrice(segment, currency)
    case Malformed(t) => Err(BadPrice(segment, t))
    case NoPrice => Ok(SegmentRow(segment, None))
    case Price(v) => Ok(SegmentRow(segment, Some(v)))
  }

  /** The row of a segment whose unit price is already known. */
  function SegmentRow(segment: string, price: Option<real>): ProductRow {
    var qty := Quantity(segment);
    ProductRow(
      qty, ProductName(segment), SetName(segment), price, Quality(segment), Foil(segment),
      Language(segment), Total(qty, price))
  }
}
