/**
 * De-duplication keeping first occurrences, the effect of building a Python
 * dict from a sequence of keys and reading its keys (or values) back.
 */
module Seqs {
  import opened Outcomes

  predicate Distinct<T(==)>(s: seq<T>) {
    forall i, j :: 0 <= i < j < |s| ==> s[i] != s[j]
  }

  /** The index of the first occurrence of `x` in `s`. */
  function FirstIndex<T(==)>(s: seq<T>, x: T): (k: nat)
    requires x in s
    ensures k < |s| && s[k] == x
    ensures forall j :: 0 <= j < k ==> s[j] != x
  {
    if s[0] == x then 0 else 1 + FirstIndex(s[1..], x)
  }

  /** The elements of `s` not in `seen`, each once, at its first occurrence. */
  function DedupFrom<T(==)>(s: seq<T>, seen: set<T>): (r: seq<T>)
    ensures |r| <= |s|
    ensures forall i :: 0 <= i < |r| ==> r[i] in s && r[i] !in seen
  {
    if s == [] then []
    else if s[0] in seen then DedupFrom(s[1..], seen)
    else [s[0]] + DedupFrom(s[1..], seen + {s[0]})
  }

  /** The elements of `s`, each once, in order of first occurrence. */
  function Dedup<T(==)>(s: seq<T>): seq<T> {
    DedupFrom(s, {})
  }

  lemma {:induction false} DedupFromElements<T>(s: seq<T>, seen: set<T>)
    ensures forall x :: x in DedupFrom(s, seen) <==> x in s && x !in seen
    decreases |s|
  {
    if s != [] {
      if s[0] in seen {
        DedupFromElements(s[1..], seen);
      } else {
        DedupFromElements(s[1..], seen + {s[0]});
      }
      forall x ensures x in s <==> x == s[0] || x in s[1..] {
        if x in s { var k :| 0 <= k < |s| && s[k] == x; if k > 0 { assert s[1..][k - 1] == x; } }
      }
    }
  }

  lemma {:induction false} DedupFromDistinct<T>(s: seq<T>, seen: set<T>)
    ensures Distinct(DedupFrom(s, seen))
    decreases |s|
  {
    if s != [] {
      if s[0] in seen {
        DedupFromDistinct(s[1..], seen);
      } else {
        var tail := DedupFrom(s[1..], seen + {s[0]});
        DedupFromDistinct(s[1..], seen + {s[0]});
        DedupFromElements(s[1..], seen + {s[0]});
        assert s[0] !in tail;
        var r := [s[0]] + tail;
        forall i, j | 0 <= i < j < |r| ensures r[i] != r[j] {
          if i == 0 { assert r[j] == tail[j - 1] && r[j] in tail; }
          else { assert r[i] == tail[i - 1] && r[j] == tail[j - 1]; }
        }
      }
    }
  }

  lemma FirstIndexTail<T>(s: seq<T>, x: T)
    requires s != [] && x in s[1..] && x != s[0]
    ensures FirstIndex(s, x) == 1 + FirstIndex(s[1..], x)
  {
  }

  lemma {:induction false} DedupFromOrder<T>(s: seq<T>, seen: set<T>)
    ensures forall i, j :: 0 <= i < j < |DedupFrom(s, seen)| ==>
      FirstIndex(s, DedupFrom(s, seen)[i]) < FirstIndex(s, DedupFrom(s, seen)[j])
    decreases |s|
  {
    if s != [] {
      var seen' := if s[0] in seen then seen else seen + {s[0]};
      var tail := DedupFrom(s[1..], seen');
      DedupFromOrder(s[1..], seen');
      var r := DedupFrom(s, seen);
      var off := if s[0] in seen then 0 else 1;
      assert r == (if s[0] in seen then tail else [s[0]] + tail);
      forall i, j | 0 <= i < j < |r| ensures FirstIndex(s, r[i]) < FirstIndex(s, r[j]) {
        var y := tail[j - off];
        assert r[j] == y && y in s[1..] && y !in seen';
        FirstIndexTail(s, y);
        if i >= off {
          var x := tail[i - off];
          assert r[i] == x && x in s[1..] && x !in seen';
          FirstIndexTail(s, x);
        }
      }
    }
  }

  /**
   * `Dedup(s)` holds each element of `s` exactly once, and lists them in the
   * order of their first occurrence in `s`.
   */
  lemma DedupSpec<T>(s: seq<T>)
    ensures forall x :: x in Dedup(s) <==> x in s
    ensures Distinct(Dedup(s))
    ensures forall i, j :: 0 <= i < j < |Dedup(s)| ==> FirstIndex(s, Dedup(s)[i]) < FirstIndex(s, Dedup(s)[j])
  {
    DedupFromElements(s, {});
    DedupFromDistinct(s, {});
    DedupFromOrder(s, {});
  }

  /** The concatenation of the given sequences, in order. */
  function Flatten<T>(parts: seq<seq<T>>): seq<T> {
    if parts == [] then [] else Flatten(parts[..|parts| - 1]) + parts[|parts| - 1]
  }

  /** `[x] * n`. */
  function Repeat<U>(x: U, n: nat): (r: seq<U>)
    ensures |r| == n && forall i :: 0 <= i < n ==> r[i] == x
  {
    if n == 0 then [] else Repeat(x, n - 1) + [x]
  }

  /** One tag per element of each part: the part's own tag, repeated. */
  function Tags<T, U>(parts: seq<seq<T>>, tags: seq<U>): (r: seq<U>)
    requires |parts| == |tags|
    ensures |r| == |Flatten(parts)|
  {
    if parts == [] then []
    else
      var n := |parts| - 1;
      Tags(parts[..n], tags[..n]) + Repeat(tags[n], |parts[n]|)
  }

  /** Where the elements of part `j` start in `Flatten(parts)`. */
  function Start<T>(parts: seq<seq<T>>, j: nat): nat
    requires j <= |parts|
  {
    |Flatten(parts[..j])|
  }

  lemma FlattenTagsSnoc<T, U>(parts: seq<seq<T>>, part: seq<T>, tags: seq<U>, tag: U)
    requires |parts| == |tags|
    ensures Flatten(parts + [part]) == Flatten(parts) + part
    ensures Tags(parts + [part], tags + [tag]) == Tags(parts, tags) + Repeat(tag, |part|)
  {
    assert (parts + [part])[..|parts|] == parts;
    assert (tags + [tag])[..|tags|] == tags;
  }

  /**
   * Element `k` of part `j` sits at `Start(parts, j) + k` of the
   * concatenation, and its tag is part `j`'s tag.
   */
  lemma {:induction false} TagsAligned<T, U>(parts: seq<seq<T>>, tags: seq<U>, j: nat, k: nat)
    requires |parts| == |tags| && j < |parts| && k < |parts[j]|
    ensures Start(parts, j) + k < |Flatten(parts)|
    ensures Flatten(parts)[Start(parts, j) + k] == parts[j][k]
    ensures Tags(parts, tags)[Start(parts, j) + k] == tags[j]
  {
    var n := |parts| - 1;
    var init, inits := parts[..n], tags[..n];
    assert Flatten(parts) == Flatten(init) + parts[n];
    assert Tags(parts, tags) == Tags(init, inits) + Repeat(tags[n], |parts[n]|);
    if j < n {
      assert init[..j] == parts[..j];
      assert init[j] == parts[j] && inits[j] == tags[j];
      TagsAligned(init, inits, j, k);
    } else {
      assert parts[..j] == init;
    }
  }

  /** `TagsAligned` for the parts a successful `Collect` gathered. */
  lemma CollectTagsAligned<T, E, U>(rs: seq<Result<seq<T>, E>>, tags: seq<U>, j: nat, k: nat)
    requires Collect(rs).Ok? && |tags| == |rs| && j < |rs|
    ensures rs[j].Ok?
    ensures k < |rs[j].value| ==>
      var start := Start(Collect(rs).value, j);
      && start + k < |Flatten(Collect(rs).value)|
      && Flatten(Collect(rs).value)[start + k] == rs[j].value[k]
      && Tags(Collect(rs).value, tags)[start + k] == tags[j]
  {
    CollectAt(rs, j);
    if k < |rs[j].value| {
      TagsAligned(Collect(rs).value, tags, j, k);
    }
  }

  /** One more successful step adds its part to the concatenation and its tags. */
  lemma CollectFlattenSnoc<T, E, U>(rs: seq<Result<seq<T>, E>>, tags: seq<U>, i: nat)
    requires |tags| == |rs| && i < |rs| && Collect(rs[..i]).Ok? && rs[i].Ok?
    ensures Collect(rs[..i + 1]).Ok?
    ensures Flatten(Collect(rs[..i + 1]).value) == Flatten(Collect(rs[..i]).value) + rs[i].value
    ensures Tags(Collect(rs[..i + 1]).value, tags[..i + 1]) ==
      Tags(Collect(rs[..i]).value, tags[..i]) + Repeat(tags[i], |rs[i].value|)
  {
    CollectSnoc(rs, i);
    FlattenTagsSnoc(Collect(rs[..i]).value, rs[i].value, tags[..i], tags[i]);
    assert tags[..i + 1] == tags[..i] + [tags[i]];
  }

  // ------------------------------------------------------- subsequences

  /** `a` is `b` with some elements left out, the rest kept in order. */
  predicate SubSeq<T(==)>(a: seq<T>, b: seq<T>)
    decreases |b|
  {
    if a == [] then true
    else if b == [] then false
    else (a[0] == b[0] && SubSeq(a[1..], b[1..])) || SubSeq(a, b[1..])
  }

  lemma {:induction false} SubSeqRefl<T>(a: seq<T>)
    ensures SubSeq(a, a)
  {
    if a != [] {
      SubSeqRefl(a[1..]);
    }
  }

  lemma {:induction false} SubSeqTrans<T>(a: seq<T>, b: seq<T>, c: seq<T>)
    requires SubSeq(a, b) && SubSeq(b, c)
    ensures SubSeq(a, c)
    decreases |c|
  {
    if a != [] {
      if SubSeq(b, c[1..]) {
        SubSeqTrans(a, b, c[1..]);
      } else if a[0] == b[0] && SubSeq(a[1..], b[1..]) {
        SubSeqTrans(a[1..], b[1..], c[1..]);
      } else {
        SubSeqTrans(a, b[1..], c[1..]);
      }
    }
  }

  /**
   * Python's `s[:k]`: the first `k` elements, or for a negative `k` all but
   * the last `-k`; `DataFrame.head(k)` takes rows the same way.
   */
  function SliceTo<T>(s: seq<T>, k: int): (r: seq<T>)
    ensures k >= 0 ==> |r| == if k < |s| then k else |s|
    ensures k < 0 ==> |r| == if -k < |s| then |s| + k else 0
    ensures r == s[..|r|]
  {
    if k >= 0 then (if k < |s| then s[..k] else s)
    else if -k < |s| then s[..|s| + k] else []
  }
}
