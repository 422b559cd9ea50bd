/**
 * The two array operations the page script relies on, as functions over
 * sequences: `Array.prototype.some` (Any) and `Array.prototype.filter`
 * (Keep). A filter keeps the elements that satisfy its predicate, in their
 * original order; `StableSelection` states that independently of Keep's
 * recursion, through the list of positions that were kept.
 */
module Sequences {

  /** Whether some element satisfies `p` (`s.some(p)`). */
  function Any<T>(s: seq<T>, p: T -> bool): (r: bool)
    ensures r <==> exists i :: 0 <= i < |s| && p(s[i])
  {
    if s == [] then false else p(s[0]) || Any(s[1..], p)
  }

  /** The elements of `s` that satisfy `p`, in order (`s.filter(p)`). */
  function Keep<T>(s: seq<T>, p: T -> bool): (r: seq<T>)
    ensures |r| <= |s|
    ensures forall i :: 0 <= i < |r| ==> r[i] in s && p(r[i])
    ensures forall i :: 0 <= i < |s| && p(s[i]) ==> s[i] in r
  {
    if s == [] then []
    else Keep(s[..|s| - 1], p) + (if p(s[|s| - 1]) then [s[|s| - 1]] else [])
  }

  /**
   * `r` is obtained from `s` by keeping exactly the positions where `p`
   * holds, in increasing order: `idx` lists those positions.
   */
  ghost predicate StableSelection<T>(r: seq<T>, s: seq<T>, p: T -> bool, idx: seq<nat>)
  {
    && |idx| == |r|
    && (forall k, l :: 0 <= k < l < |idx| ==> idx[k] < idx[l])
    && (forall k :: 0 <= k < |idx| ==> idx[k] < |s| && r[k] == s[idx[k]])
    && (forall i :: 0 <= i < |s| ==> (i in idx <==> p(s[i])))
  }

  /** Keep is a stable selection: it yields the kept positions in order. */
  lemma {:induction false} KeepIsStableSelection<T>(s: seq<T>, p: T -> bool) returns (idx: seq<nat>)
    ensures StableSelection(Keep(s, p), s, p, idx)
  {
    if s == [] {
      idx := [];
    } else {
      var n := |s| - 1;
      var prev := KeepIsStableSelection(s[..n], p);
      idx := StableSelectionExtend(Keep(s[..n], p), s[..n], p, prev, s[n]);
      assert s[..n] + [s[n]] == s;
    }
  }

  /** Appending one element to the input extends a stable selection by at most that element. */
  lemma StableSelectionExtend<T>(r: seq<T>, s: seq<T>, p: T -> bool, idx: seq<nat>, x: T)
    returns (idx': seq<nat>)
    requires StableSelection(r, s, p, idx)
    ensures StableSelection(r + (if p(x) then [x] else []), s + [x], p, idx')
  {
    var s' := s + [x];
    idx' := idx + (if p(x) then [|s|] else []);
    forall i | 0 <= i < |s'| ensures i in idx' <==> p(s'[i]) {
      if i < |s| {
        assert s'[i] == s[i];
        assert |s| !in idx;
      }
    }
  }

  /** A stable selection is unique: anything that selects like Keep is Keep. */
  lemma {:induction false} StableSelectionIsKeep<T>(r: seq<T>, s: seq<T>, p: T -> bool, idx: seq<nat>)
    requires StableSelection(r, s, p, idx)
    ensures r == Keep(s, p)
    decreases |s|
  {
    assert |idx| > 0 ==> idx[0] < |s|;
    if s != [] {
      var r', idx' := StableSelectionDropLast(r, s, p, idx);
      StableSelectionIsKeep(r', s[..|s| - 1], p, idx');
    }
  }

  /** Removing the last input element shrinks a stable selection by at most that element. */
  lemma StableSelectionDropLast<T>(r: seq<T>, s: seq<T>, p: T -> bool, idx: seq<nat>)
    returns (r': seq<T>, idx': seq<nat>)
    requires StableSelection(r, s, p, idx) && s != []
    ensures StableSelection(r', s[..|s| - 1], p, idx')
    ensures r == r' + (if p(s[|s| - 1]) then [s[|s| - 1]] else [])
  {
    var n := |s| - 1;
    var init := s[..n];
    if p(s[n]) {
      assert n in idx;
      var m := |idx| - 1;
      assert idx[m] == n by {
        assert forall j :: 0 <= j < m ==> idx[j] < idx[m];
      }
      idx', r' := idx[..m], r[..m];
      forall i | 0 <= i < |init| ensures i in idx' <==> p(init[i]) {
        assert init[i] == s[i];
        if i in idx {
          var k :| 0 <= k < |idx| && idx[k] == i;
          assert idx'[k] == i;
        }
      }
      assert r == r' + [s[n]];
    } else {
      idx', r' := idx, r;
      forall k | 0 <= k < |idx| ensures idx[k] < n {
        assert idx[k] in idx;
      }
      forall i | 0 <= i < |init| ensures i in idx <==> p(init[i]) {
        assert init[i] == s[i];
      }
    }
  }

  /** Keeping distributes over concatenation. */
  lemma {:induction false} KeepAppend<T>(a: seq<T>, b: seq<T>, p: T -> bool)
    ensures Keep(a + b, p) == Keep(a, p) + Keep(b, p)
    decreases |b|
  {
    if b != [] {
      var n := |b| - 1;
      assert (a + b)[..|a + b| - 1] == a + b[..n];
      KeepAppend(a, b[..n], p);
    } else {
      assert a + b == a;
    }
  }

  /** Only the predicate's values on the elements of `s` matter. */
  lemma {:induction false} KeepCongruent<T>(s: seq<T>, p: T -> bool, q: T -> bool)
    requires forall i :: 0 <= i < |s| ==> p(s[i]) == q(s[i])
    ensures Keep(s, p) == Keep(s, q)
  {
    if s != [] {
      KeepCongruent(s[..|s| - 1], p, q);
    }
  }

  /** A predicate that holds of every element keeps everything. */
  lemma {:induction false} KeepAll<T>(s: seq<T>, p: T -> bool)
    requires forall i :: 0 <= i < |s| ==> p(s[i])
    ensures Keep(s, p) == s
  {
    if s != [] {
      KeepAll(s[..|s| - 1], p);
    }
  }

  /** Filtering by `p` then by `q` is filtering by their conjunction. */
  lemma {:induction false} KeepKeep<T>(s: seq<T>, p: T -> bool, q: T -> bool)
    ensures Keep(Keep(s, p), q) == Keep(s, x => p(x) && q(x))
  {
    if s != [] {
      var n := |s| - 1;
      KeepKeep(s[..n], p, q);
      KeepAppend(Keep(s[..n], p), if p(s[n]) then [s[n]] else [], q);
    }
  }

  /** Filtering by `a`, then `b`, then `c` is filtering once by a predicate equivalent to their conjunction. */
  lemma KeepInSteps<T>(s: seq<T>, a: T -> bool, b: T -> bool, c: T -> bool, p: T -> bool)
    requires forall i :: 0 <= i < |s| ==> p(s[i]) == (a(s[i]) && b(s[i]) && c(s[i]))
    ensures Keep(Keep(Keep(s, a), b), c) == Keep(s, p)
  {
    var ab := x => a(x) && b(x);
    KeepKeep(s, a, b);
    KeepKeep(s, ab, c);
    KeepCongruent(s, x => ab(x) && c(x), p);
  }

  /** Filtering twice by the same predicate is filtering once. */
  lemma KeepIdempotent<T>(s: seq<T>, p: T -> bool)
    ensures Keep(Keep(s, p), p) == Keep(s, p)
  {
    var r := Keep(s, p);
    forall i | 0 <= i < |r| ensures p(r[i]) {
      assert r[i] in r;
    }
    KeepAll(r, p);
  }
}
