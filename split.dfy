/**
 * `split_products`: an order's description lists its products separated by
 * white space, `|`, white space. A separator is not a split point when the
 * first parenthesis after it is `)`, that is, when it lies inside a
 * parenthesised span such as a set name. The pieces are stripped and empty
 * ones dropped.
 */
module ProductSplit {
  import opened Outcomes
  import opened Text

  /** The first parenthesis at or after index `j`. */
  function NextParen(s: string, j: nat): (r: Option<nat>)
    ensures r.Some? ==> j <= r.value < |s| && IsParen(s[r.value])
    ensures r.Some? ==> forall k :: j <= k < r.value ==> !IsParen(s[k])
    ensures r.None? ==> forall k :: j <= k < |s| ==> !IsParen(s[k])
    decreases |s| - j
  {
    if j >= |s| then None
    else if IsParen(s[j]) then Some(j)
    else NextParen(s, j + 1)
  }

  /** The look-ahead `[^()]*\)` succeeds at `j`: the first parenthesis from `j` on closes a span. */
  predicate CloseParenAhead(s: string, j: nat) {
    var p := NextParen(s, j);
    p.Some? && s[p.value] == ')'
  }

  /** `\s\|\s` matches at `i`. */
  predicate SeparatorAt(s: string, i: nat) {
    i + 3 <= |s| && IsSpace(s[i]) && s[i + 1] == '|' && IsSpace(s[i + 2])
  }

  /** The whole split pattern, separator and negative look-ahead, matches at `i`. */
  predicate IsCut(s: string, i: nat) {
    SeparatorAt(s, i) && !CloseParenAhead(s, i + 3)
  }

  /** The leftmost split point at or after `from`. */
  function NextCut(s: string, from: nat): (r: Option<nat>)
    ensures r.Some? ==> from <= r.value && r.value + 3 <= |s| && IsCut(s, r.value)
    ensures r.Some? ==> forall j :: from <= j < r.value ==> !IsCut(s, j)
    ensures r.None? ==> forall j :: from <= j ==> !IsCut(s, j)
    decreases |s| - from
  {
    if from + 3 > |s| then None
    else if IsCut(s, from) then Some(from)
    else NextCut(s, from + 1)
  }

  /** The split points `re.split` uses, scanning left to right from `from` without overlaps. */
  function CutsFrom(s: string, from: nat): (r: seq<nat>)
    requires from <= |s|
    ensures forall i :: 0 <= i < |r| ==> from <= r[i] && r[i] + 3 <= |s| && IsCut(s, r[i])
    decreases |s| - from
  {
    match NextCut(s, from)
    case None => []
    case Some(k) => [k] + CutsFrom(s, k + 3)
  }

  /** The cuts come left to right, each at least a separator's length after the one before. */
  lemma {:induction false} CutsFromOrdered(s: string, from: nat)
    requires from <= |s|
    ensures forall i, j :: 0 <= i < j < |CutsFrom(s, from)| ==> CutsFrom(s, from)[i] + 3 <= CutsFrom(s, from)[j]
    decreases |s| - from
  {
    if NextCut(s, from).Some? {
      var k := NextCut(s, from).value;
      var cuts, rest := CutsFrom(s, from), CutsFrom(s, k + 3);
      CutsFromOrdered(s, k + 3);
      assert cuts == [k] + rest;
      forall i, j | 0 <= i < j < |cuts| ensures cuts[i] + 3 <= cuts[j] {
        assert cuts[j] == rest[j - 1];
        if i > 0 { assert cuts[i] == rest[i - 1]; }
      }
    }
  }

  /** A match at `j` means the scan from `from` finds a split point no later than `j`. */
  lemma NextCutAtMost(s: string, from: nat, j: nat)
    requires from <= j && IsCut(s, j)
    ensures NextCut(s, from).Some? && NextCut(s, from).value <= j
  { }

  /**
   * The scan misses no split point: every place where the pattern matches is
   * a cut, or lies inside the separator of an earlier cut, which the scan
   * has already consumed.
   */
  lemma {:induction false} CutsFromComplete(s: string, from: nat, j: nat)
    requires from <= j && from <= |s| && IsCut(s, j)
    ensures exists i :: 0 <= i < |CutsFrom(s, from)| && CutsFrom(s, from)[i] <= j < CutsFrom(s, from)[i] + 3
    decreases |s| - from
  {
    NextCutAtMost(s, from, j);
    var k := NextCut(s, from).value;
    var cuts, rest := CutsFrom(s, from), CutsFrom(s, k + 3);
    assert cuts == [k] + rest;
    if j >= k + 3 {
      CutsFromComplete(s, k + 3, j);
      var i :| 0 <= i < |rest| && rest[i] <= j < rest[i] + 3;
      assert cuts[i + 1] == rest[i];
    } else {
      assert cuts[0] == k;
    }
  }

  /** The pieces `re.split` returns when it scans from `from`. */
  function PiecesFrom(s: string, from: nat): (r: seq<string>)
    requires from <= |s|
    ensures |r| == |CutsFrom(s, from)| + 1
    decreases |s| - from
  {
    match NextCut(s, from)
    case None => [s[from..]]
    case Some(k) => [s[from..k]] + PiecesFrom(s, k + 3)
  }

  /** `re.split(r'\s\|\s(?![^()]*\))', s)`. */
  function SplitRaw(s: string): seq<string> { PiecesFrom(s, 0) }

  /** The positions at which `SplitRaw` cuts. */
  function Cuts(s: string): seq<nat> { CutsFrom(s, 0) }

  /** The three-character separators removed at the given positions. */
  function SeparatorTexts(s: string, cuts: seq<nat>): (r: seq<string>)
    requires forall i :: 0 <= i < |cuts| ==> cuts[i] + 3 <= |s|
    ensures |r| == |cuts|
  {
    if cuts == [] then [] else [s[cuts[0]..cuts[0] + 3]] + SeparatorTexts(s, cuts[1..])
  }

  /** Pieces glued back together with a separator between consecutive pieces. */
  function Interleave(pieces: seq<string>, seps: seq<string>): string
    requires |pieces| == |seps| + 1
  {
    if |pieces| == 1 then pieces[0]
    else pieces[0] + seps[0] + Interleave(pieces[1..], seps[1..])
  }

  /** The split loses nothing: the pieces and the removed separators rebuild the scanned text. */
  lemma {:induction false} PiecesFromRoundTrip(s: string, from: nat)
    requires from <= |s|
    ensures Interleave(PiecesFrom(s, from), SeparatorTexts(s, CutsFrom(s, from))) == s[from..]
    decreases |s| - from
  {
    match NextCut(s, from)
    case None =>
    case Some(k) =>
      PiecesFromRoundTrip(s, k + 3);
      var ps := PiecesFrom(s, from);
      var cs := CutsFrom(s, from);
      assert ps == [s[from..k]] + PiecesFrom(s, k + 3);
      assert cs == [k] + CutsFrom(s, k + 3);
      assert SeparatorTexts(s, cs) == [s[k..k + 3]] + SeparatorTexts(s, CutsFrom(s, k + 3));
      assert s[from..] == s[from..k] + s[k..k + 3] + s[k + 3..];
  }

  /**
   * Every split point is a `\s|\s` separator after which the next parenthesis,
   * if any, is not `)`; the split points come left to right without
   * overlapping; every other match of the pattern overlaps the separator of
   * an earlier split point; and the pieces with the separators rebuild the
   * description.
   */
  lemma SplitRawSpec(s: string)
    ensures forall k :: k in Cuts(s) ==> SeparatorAt(s, k) && !CloseParenAhead(s, k + 3)
    ensures forall i, j :: 0 <= i < j < |Cuts(s)| ==> Cuts(s)[i] + 3 <= Cuts(s)[j]
    ensures forall j: nat :: IsCut(s, j) ==> exists i :: 0 <= i < |Cuts(s)| && Cuts(s)[i] <= j < Cuts(s)[i] + 3
    ensures |SplitRaw(s)| == |Cuts(s)| + 1
    ensures Interleave(SplitRaw(s), SeparatorTexts(s, Cuts(s))) == s
  {
    PiecesFromRoundTrip(s, 0);
    CutsFromOrdered(s, 0);
    CutsComplete(s);
  }

  /** Every match of the split pattern lies within the separator of one of the cuts. */
  lemma CutsComplete(s: string)
    ensures forall j: nat :: IsCut(s, j) ==> exists i :: 0 <= i < |Cuts(s)| && Cuts(s)[i] <= j < Cuts(s)[i] + 3
  {
    var cuts := Cuts(s);
    forall j: nat | IsCut(s, j) ensures exists i :: 0 <= i < |cuts| && cuts[i] <= j < cuts[i] + 3 {
      CutsFromComplete(s, 0, j);
    }
  }

  /** A segment as `split_products` keeps it: non-empty and already stripped. */
  predicate IsSegment(p: string) { p != [] && Strip(p) == p }

  /** Strip every piece and drop the empty ones. */
  function CleanPieces(pieces: seq<string>): (r: seq<string>)
    ensures |r| <= |pieces|
    ensures forall i :: 0 <= i < |r| ==> IsSegment(r[i])
  {
    if pieces == [] then []
    else
      var p := Strip(pieces[0]);
      var rest := CleanPieces(pieces[1..]);
      if p == [] then rest
      else
        StrippedIsSegment(pieces[0]);
        [p] + rest
  }

  /**
   * The indices, from `from` on, of the pieces that are not all white space:
   * increasing, and every such piece is listed.
   */
  function KeptFrom(pieces: seq<string>, from: nat): (r: seq<nat>)
    requires from <= |pieces|
    ensures forall t :: 0 <= t < |r| ==> from <= r[t] < |pieces| && !AllSpace(pieces[r[t]])
    ensures forall t, u :: 0 <= t < u < |r| ==> r[t] < r[u]
    ensures forall i :: from <= i < |pieces| && !AllSpace(pieces[i]) ==> i in r
    decreases |pieces| - from
  {
    if from == |pieces| then []
    else if AllSpace(pieces[from]) then KeptFrom(pieces, from + 1)
    else [from] + KeptFrom(pieces, from + 1)
  }

  /** The indices of the pieces that are not all white space, in order. */
  function KeptIndices(pieces: seq<string>): seq<nat> { KeptFrom(pieces, 0) }

  /** Cleaning the pieces from `from` on keeps, stripped, exactly those at `KeptFrom`. */
  lemma {:induction false} CleanPiecesFrom(pieces: seq<string>, from: nat)
    requires from <= |pieces|
    ensures |CleanPieces(pieces[from..])| == |KeptFrom(pieces, from)|
    ensures forall t :: 0 <= t < |KeptFrom(pieces, from)| ==>
      CleanPieces(pieces[from..])[t] == Strip(pieces[KeptFrom(pieces, from)[t]])
    decreases |pieces| - from
  {
    if from < |pieces| {
      CleanPiecesFrom(pieces, from + 1);
      var ps := pieces[from..];
      assert ps[0] == pieces[from] && ps[1..] == pieces[from + 1..];
      var rest, kept := CleanPieces(pieces[from + 1..]), KeptFrom(pieces, from + 1);
      if AllSpace(pieces[from]) {
        assert CleanPieces(ps) == rest && KeptFrom(pieces, from) == kept;
      } else {
        assert CleanPieces(ps) == [Strip(pieces[from])] + rest;
        assert KeptFrom(pieces, from) == [from] + kept;
      }
    }
  }

  /**
   * The cleaned pieces are the pieces that are not all white space, stripped,
   * in their order: one for each index of `KeptIndices`, and none for a blank piece.
   */
  lemma CleanPiecesSpec(pieces: seq<string>)
    ensures var r := CleanPieces(pieces); var idx := KeptIndices(pieces);
      && |r| == |idx|
      && (forall t :: 0 <= t < |idx| ==> r[t] == Strip(pieces[idx[t]]))
  {
    CleanPiecesFrom(pieces, 0);
    assert pieces[0..] == pieces;
  }

  /** A piece that is not all white space strips to a segment. */
  lemma StrippedIsSegment(p: string)
    requires Strip(p) != []
    ensures IsSegment(Strip(p))
  {
    StripIdempotent(p);
  }

  /** `split_products(s)`: the product segments of a description, non-empty and stripped. */
  function SplitProducts(s: string): (r: seq<string>)
    ensures forall i :: 0 <= i < |r| ==> IsSegment(r[i])
    ensures |r| <= |Cuts(s)| + 1
  {
    CleanPieces(SplitRaw(s))
  }

  /**
   * `split_products(s)` keeps, stripped and in order, exactly the pieces of the
   * split that are not all white space; the split cuts at every separator
   * outside parentheses (see `SplitRawSpec`) and its pieces rebuild `s`.
   */
  lemma SplitProductsSpec(s: string)
    ensures var pieces := SplitRaw(s); var r := SplitProducts(s); var idx := KeptIndices(pieces);
      && Interleave(pieces, SeparatorTexts(s, Cuts(s))) == s
      && |r| == |idx|
      && (forall t :: 0 <= t < |idx| ==> r[t] == Strip(pieces[idx[t]]))
      && (forall i :: 0 <= i < |pieces| && !AllSpace(pieces[i]) ==> Strip(pieces[i]) in r)
  {
    var pieces := SplitRaw(s);
    var idx := KeptIndices(pieces);
    SplitRawSpec(s);
    CleanPiecesSpec(pieces);
    forall i | 0 <= i < |pieces| && !AllSpace(pieces[i]) ensures Strip(pieces[i]) in SplitProducts(s) {
      var t :| 0 <= t < |idx| && idx[t] == i;
    }
  }

  /** A description without `|` that is not blank is one segment, stripped. */
  lemma SingleProduct(s: string)
    requires '|' !in s && !AllSpace(s)
    ensures SplitProducts(s) == [Strip(s)]
  {
    assert NextCut(s, 0).None? by {
      forall j: nat ensures !IsCut(s, j) {
        if j + 3 <= |s| { assert s[j + 1] in s; }
      }
    }
    assert SplitRaw(s) == [s];
    CleanKeep(s, []);
    assert [s] + [] == [s];
  }

  /** An empty or all-white-space description has no product segments. */
  lemma BlankDescription(s: string)
    requires AllSpace(s)
    ensures SplitProducts(s) == []
  {
    assert NextCut(s, 0).None? by {
      forall j: nat ensures !IsCut(s, j) {
        if j + 3 <= |s| { assert IsSpace(s[j + 1]) && s[j + 1] != '|'; }
      }
    }
    assert SplitRaw(s) == [s];
  }

  // ------------------------------------------------------ look-ahead facts

  /** The look-ahead only reads forward, so it sees the same in any suffix. */
  lemma {:induction false} CloseParenAheadSuffix(s: string, m: nat, j: nat)
    requires m <= |s|
    ensures CloseParenAhead(s, m + j) <==> CloseParenAhead(s[m..], j)
    ensures NextParen(s, m + j).Some? <==> NextParen(s[m..], j).Some?
    decreases |s| - m - j
  {
    if m + j < |s| {
      assert s[m + j] == s[m..][j];
      if !IsParen(s[m + j]) {
        CloseParenAheadSuffix(s, m, j + 1);
      }
    }
  }

  /** A parenthesis already found in `a` is the one found in `a + b`. */
  lemma {:induction false} NextParenPrefix(a: string, b: string, j: nat)
    requires NextParen(a, j).Some?
    ensures NextParen(a + b, j) == NextParen(a, j)
    decreases |a| - j
  {
    assert (a + b)[j] == a[j];
    if !IsParen(a[j]) {
      NextParenPrefix(a, b, j + 1);
    }
  }

  /**
   * Two candidate separators, the first followed by the closing parenthesis of a
   * span (a set name such as `(Magic: The Gathering | Foo)`), the second not:
   * only the second splits, so the description yields exactly two pieces.
   */
  lemma SeparatorInsideParentheses(x: string, y: string, z: string)
    requires '|' !in x && '|' !in y && '|' !in z
    requires CloseParenAhead(y, 0)
    requires !CloseParenAhead(z, 0)
    ensures SplitRaw(x + " | " + y + " | " + z) == [x + " | " + y, z]
  {
    var s := x + " | " + y + " | " + z;
    var p1 := |x|;
    var p2 := |x| + 3 + |y|;
    FirstSeparatorKept(s, x, y, z);
    SecondSeparatorCuts(s, x, y, z);
    PipesOnlyAt(s, x, y, z);
    OnlyCut(s, p1, p2);
    assert s[0..p2] == x + " | " + y && s[p2 + 3..] == z;
  }

  /** The separator before `y` is followed by a closing parenthesis ahead: no cut. */
  lemma FirstSeparatorKept(s: string, x: string, y: string, z: string)
    requires s == x + " | " + y + " | " + z
    requires CloseParenAhead(y, 0)
    ensures !IsCut(s, |x|)
  {
    assert s[|x| + 3..] == y + (" | " + z);
    NextParenPrefix(y, " | " + z, 0);
    CloseParenAheadSuffix(s, |x| + 3, 0);
  }

  /** The separator before `z` has no closing parenthesis ahead: a cut. */
  lemma SecondSeparatorCuts(s: string, x: string, y: string, z: string)
    requires s == x + " | " + y + " | " + z
    requires !CloseParenAhead(z, 0)
    ensures IsCut(s, |x| + 3 + |y|)
  {
    assert s[|x| + 3 + |y| + 3..] == z;
    CloseParenAheadSuffix(s, |x| + 3 + |y| + 3, 0);
  }

  /** The only `|` characters are those of the two separators. */
  lemma PipesOnlyAt(s: string, x: string, y: string, z: string)
    requires s == x + " | " + y + " | " + z
    requires '|' !in x && '|' !in y && '|' !in z
    ensures forall j: nat :: j != |x| && j != |x| + 3 + |y| ==> !IsCut(s, j)
  {
    var p1 := |x|;
    var p2 := |x| + 3 + |y|;
    forall i | 0 <= i < |s| && i != p1 + 1 && i != p2 + 1 ensures s[i] != '|' {
      if i < p1 { assert s[i] == x[i]; }
      else if i <= p1 + 2 { assert s[i] == ' '; }
      else if i < p2 { assert s[i] == y[i - p1 - 3]; }
      else if i <= p2 + 2 { assert s[i] == ' '; }
      else { assert s[i] == z[i - p2 - 3]; }
    }
  }

  /** With a single split point, the text splits into the parts before and after it. */
  lemma OnlyCut(s: string, p1: nat, p2: nat)
    requires p2 + 3 <= |s| && !IsCut(s, p1) && IsCut(s, p2)
    requires forall j: nat :: j != p1 && j != p2 ==> !IsCut(s, j)
    ensures SplitRaw(s) == [s[0..p2], s[p2 + 3..]]
  {
    assert NextCut(s, 0) == Some(p2);
    assert NextCut(s, p2 + 3).None?;
    assert PiecesFrom(s, p2 + 3) == [s[p2 + 3..]];
  }

  /** The same two-product description after stripping: exactly two segments. */
  lemma TwoProductsWithPipeInSetName(x: string, y: string, z: string)
    requires '|' !in x && '|' !in y && '|' !in z
    requires CloseParenAhead(y, 0)
    requires !CloseParenAhead(z, 0)
    requires !AllSpace(z)
    ensures SplitProducts(x + " | " + y + " | " + z) == [Strip(x + " | " + y), Strip(z)]
  {
    SeparatorInsideParentheses(x, y, z);
    var first := x + " | " + y;
    assert !AllSpace(first) by {
      assert first[|x| + 1] == '|';
    }
    CleanTwo(first, z);
  }

  lemma CleanTwo(a: string, b: string)
    requires !AllSpace(a) && !AllSpace(b)
    ensures CleanPieces([a, b]) == [Strip(a), Strip(b)]
  {
    CleanKeep(b, []);
    assert [b] + [] == [b];
    CleanKeep(a, [b]);
    assert [a] + [b] == [a, b];
  }

  /** A first piece that is not all white space is kept, stripped. */
  lemma CleanKeep(p: string, rest: seq<string>)
    requires !AllSpace(p)
    ensures CleanPieces([p] + rest) == [Strip(p)] + CleanPieces(rest)
  {
    var ps := [p] + rest;
    assert ps[0] == p && ps[1..] == rest;
  }
}
