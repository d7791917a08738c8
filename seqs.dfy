/** Sequence operations that the consensus state performs on its vectors:
    `Vec::remove` by position (also several times in a row), removing the
    first occurrence of a value, collecting the positions that pass a test,
    and the subsequence relation that these operations keep. */
module Seqs {

  /** No element occurs twice. */
  predicate NoDup<T(==)>(s: seq<T>) {
    forall i, j :: 0 <= i < j < |s| ==> s[i] != s[j]
  }

  /** `s` without its element at position `i`: what `Vec::remove(i)` leaves. */
  function RemoveAt<T(==)>(s: seq<T>, i: nat): (r: seq<T>)
    requires i < |s|
    ensures |r| == |s| - 1
    ensures multiset(r) + multiset{s[i]} == multiset(s)
    ensures forall j :: 0 <= j < i ==> r[j] == s[j]
    ensures forall j :: i <= j < |r| ==> r[j] == s[j + 1]
  {
    assert s == s[..i] + [s[i]] + s[i + 1..];
    s[..i] + s[i + 1..]
  }

  /** `Vec::remove` can be called with `idxs[0]`, `idxs[1]`, ... in turn on a
      vector of length `n` without panicking: the k-th call sees a vector that
      is already k elements shorter. */
  predicate RemovalsInBounds(n: nat, idxs: seq<nat>) {
    forall k :: 0 <= k < |idxs| ==> idxs[k] + k < n
  }

  /** Removes position `idxs[0]`, then `idxs[1]`, ... one after another, each
      index taken against the sequence as the earlier removals left it. */
  function RemoveEach<T(==)>(s: seq<T>, idxs: seq<nat>): (r: seq<T>)
    requires RemovalsInBounds(|s|, idxs)
    ensures |r| == |s| - |idxs|
    ensures multiset(r) <= multiset(s)
    decreases |idxs|
  {
    if idxs == [] then s
    else
      var init := idxs[..|idxs| - 1];
      assert RemovalsInBounds(|s|, init) by {
        forall k | 0 <= k < |init| ensures init[k] + k < |s| {
          assert init[k] == idxs[k];
        }
      }
      RemoveAt(RemoveEach(s, init), idxs[|idxs| - 1])
  }

  /** The positions of `s` whose element passes `p`, in ascending order. */
  function IndicesWhere<T>(s: seq<T>, p: T -> bool): (r: seq<nat>)
    ensures forall k :: 0 <= k < |r| ==> r[k] < |s| && p(s[r[k]])
    ensures forall k, l :: 0 <= k < l < |r| ==> r[k] < r[l]
    ensures forall i :: 0 <= i < |s| && p(s[i]) ==> i in r
    decreases |s|
  {
    if s == [] then []
    else
      var init := s[..|s| - 1];
      var r0 := IndicesWhere(init, p);
      assert forall k :: 0 <= k < |r0| ==> s[r0[k]] == init[r0[k]];
      r0 + (if p(s[|s| - 1]) then [|s| - 1] else [])
  }

  /** The elements of `s` that pass `p`, in their original order. */
  function Filter<T>(s: seq<T>, p: T -> bool): (r: seq<T>)
    ensures |r| <= |s|
  {
    if s == [] then []
    else (if p(s[0]) then [s[0]] else []) + Filter(s[1..], p)
  }

  /** A filter keeps exactly the elements that pass its test. */
  lemma {:induction false} FilterMembers<T>(s: seq<T>, p: T -> bool)
    ensures forall x :: x in Filter(s, p) <==> x in s && p(x)
    decreases |s|
  {
    if s != [] {
      FilterMembers(s[1..], p);
      assert s == [s[0]] + s[1..];
    }
  }

  /** The negation of a test. */
  function Not<T>(p: T -> bool): T -> bool {
    x => !p(x)
  }

  /** The test "does not occur in `ts`". */
  function NotIn<T(==)>(ts: seq<T>): T -> bool {
    x => x !in ts
  }

  lemma {:induction false} FilterConcat<T>(a: seq<T>, b: seq<T>, p: T -> bool)
    ensures Filter(a + b, p) == Filter(a, p) + Filter(b, p)
    decreases |a|
  {
    if a == [] {
      assert a + b == b;
    } else {
      var head := if p(a[0]) then [a[0]] else [];
      FilterConcat(a[1..], b, p);
      calc {
        Filter(a + b, p);
        { assert (a + b)[0] == a[0]; }
        head + Filter((a + b)[1..], p);
        { assert (a + b)[1..] == a[1..] + b; }
        head + (Filter(a[1..], p) + Filter(b, p));
        (head + Filter(a[1..], p)) + Filter(b, p);
      }
    }
  }

  lemma {:induction false} FilterAllPass<T>(s: seq<T>, p: T -> bool)
    requires forall i :: 0 <= i < |s| ==> p(s[i])
    ensures Filter(s, p) == s
    decreases |s|
  {
    if s != [] {
      FilterAllPass(s[1..], p);
      assert [s[0]] + s[1..] == s;
    }
  }

  lemma {:induction false} FilterNoDup<T>(s: seq<T>, p: T -> bool)
    requires NoDup(s)
    ensures NoDup(Filter(s, p))
    decreases |s|
  {
    if s != [] {
      FilterNoDup(s[1..], p);
      FilterMembers(s[1..], p);
      var rest := Filter(s[1..], p);
      assert s[0] !in s[1..];
      assert s[0] !in rest;
    }
  }

  /** Filtering out a single failing element is removing it by position. */
  lemma {:induction false} FilterDropsOne<T>(s: seq<T>, i: nat, q: T -> bool)
    requires i < |s| && !q(s[i])
    requires forall k :: 0 <= k < |s| && k != i ==> q(s[k])
    ensures Filter(s, q) == RemoveAt(s, i)
    decreases |s|
  {
    if i == 0 {
      FilterAllPass(s[1..], q);
      assert Filter(s, q) == Filter(s[1..], q);
      assert RemoveAt(s, 0) == s[1..];
    } else {
      var tail := s[1..];
      assert forall k :: 0 <= k < |tail| && k != i - 1 ==> q(tail[k]) by {
        forall k | 0 <= k < |tail| && k != i - 1 ensures q(tail[k]) {
          assert tail[k] == s[k + 1];
        }
      }
      FilterDropsOne(tail, i - 1, q);
      calc {
        Filter(s, q);
        { assert q(s[0]); }
        [s[0]] + Filter(tail, q);
        [s[0]] + (tail[..i - 1] + tail[i..]);
        { assert s[..i] == [s[0]] + tail[..i - 1]; assert s[i + 1..] == tail[i..]; }
        s[..i] + s[i + 1..];
      }
    }
  }

  /** When at most one element passes `p`, removing the positions that
      `IndicesWhere` collected cannot panic and removes exactly the elements
      that pass `p`. */
  lemma RemoveSingleMatch<T>(s: seq<T>, p: T -> bool)
    requires |IndicesWhere(s, p)| <= 1
    ensures RemovalsInBounds(|s|, IndicesWhere(s, p))
    ensures RemoveEach(s, IndicesWhere(s, p)) == Filter(s, Not(p))
  {
    var idxs := IndicesWhere(s, p);
    var q := Not(p);
    if idxs == [] {
      forall i | 0 <= i < |s| ensures q(s[i]) {
        assert i !in idxs;
      }
      FilterAllPass(s, q);
    } else {
      var i := idxs[0];
      assert idxs == [i];
      forall k | 0 <= k < |s| && k != i ensures q(s[k]) {
        assert k !in idxs;
      }
      FilterDropsOne(s, i, q);
      assert RemoveEach(s, idxs) == RemoveAt(RemoveEach(s, []), i);
    }
  }

  /** `position`: the index of the first occurrence of `x` in `s`. */
  function FirstIndex<T(==)>(s: seq<T>, x: T): (i: nat)
    requires x in s
    ensures i < |s| && s[i] == x && x !in s[..i]
  {
    if s[0] == x then 0
    else
      var j := FirstIndex(s[1..], x);
      assert s[..j + 1] == [s[0]] + s[1..][..j];
      j + 1
  }

  /** `s` without the first occurrence of `x`, if any: `position` followed by
      `Vec::remove`. */
  function RemoveFirst<T(==)>(s: seq<T>, x: T): (r: seq<T>)
    ensures x in s ==> |r| == |s| - 1
    ensures x !in s ==> r == s
    ensures multiset(r) == multiset(s) - multiset{x}
  {
    if s == [] then []
    else if s[0] == x then
      assert s == [s[0]] + s[1..];
      s[1..]
    else
      assert s == [s[0]] + s[1..];
      [s[0]] + RemoveFirst(s[1..], x)
  }

  /** The occurrence removed is the first one, the one `position` finds: the
      elements before it and after it stay, in order. */
  lemma {:induction false} RemoveFirstAt<T>(s: seq<T>, x: T)
    requires x in s
    ensures RemoveFirst(s, x) == s[..FirstIndex(s, x)] + s[FirstIndex(s, x) + 1..]
    decreases |s|
  {
    if s[0] == x {
      assert s[..0] + s[1..] == s[1..];
    } else {
      RemoveFirstAt(s[1..], x);
      ConsAroundIndex(s, FirstIndex(s[1..], x));
    }
  }

  /** Putting the head back in front of the tail with position `j` cut out is
      `s` with position `j + 1` cut out. */
  lemma ConsAroundIndex<T>(s: seq<T>, j: nat)
    requires j + 1 < |s|
    ensures [s[0]] + (s[1..][..j] + s[1..][j + 1..]) == s[..j + 1] + s[j + 2..]
  {
    assert [s[0]] + s[1..][..j] == s[..j + 1];
    assert s[1..][j + 1..] == s[j + 2..];
  }

  /** Removes one occurrence (the first) of each of `ts` in turn. */
  function RemoveAll<T(==)>(s: seq<T>, ts: seq<T>): (r: seq<T>)
    ensures multiset(r) == multiset(s) - multiset(ts)
    decreases |ts|
  {
    if ts == [] then s
    else
      var init := ts[..|ts| - 1];
      assert ts == init + [ts[|ts| - 1]];
      RemoveFirst(RemoveAll(s, init), ts[|ts| - 1])
  }

  /** `a` is `b` with some elements dropped and the rest kept in order. */
  predicate IsSubseq<T(==)>(a: seq<T>, b: seq<T>)
    decreases |b|
  {
    a == [] || (b != [] && ((a[0] == b[0] && IsSubseq(a[1..], b[1..])) || IsSubseq(a, b[1..])))
  }

  lemma {:induction false} SubseqRefl<T>(s: seq<T>)
    ensures IsSubseq(s, s)
    decreases |s|
  {
    if s != [] { SubseqRefl(s[1..]); }
  }

  lemma {:induction false} SubseqTrans<T>(a: seq<T>, b: seq<T>, c: seq<T>)
    requires IsSubseq(a, b) && IsSubseq(b, c)
    ensures IsSubseq(a, c)
    decreases |c|
  {
    if a != [] {
      if b[0] == c[0] && IsSubseq(b[1..], c[1..]) {
        if a[0] == b[0] && IsSubseq(a[1..], b[1..]) {
          SubseqTrans(a[1..], b[1..], c[1..]);
        } else {
          SubseqTrans(a, b[1..], c[1..]);
        }
      } else {
        SubseqTrans(a, b, c[1..]);
      }
    }
  }

  /** A filter keeps its elements in their order. */
  lemma {:induction false} FilterSubseq<T>(s: seq<T>, p: T -> bool)
    ensures IsSubseq(Filter(s, p), s)
    decreases |s|
  {
    if s != [] {
      FilterSubseq(s[1..], p);
      var r := Filter(s, p);
      if p(s[0]) {
        assert r[0] == s[0] && r[1..] == Filter(s[1..], p);
      } else {
        assert r == Filter(s[1..], p);
      }
    }
  }

  lemma {:induction false} RemoveFirstSubseq<T>(s: seq<T>, x: T)
    ensures IsSubseq(RemoveFirst(s, x), s)
    decreases |s|
  {
    if s != [] {
      if s[0] == x {
        SubseqRefl(s[1..]);
      } else {
        RemoveFirstSubseq(s[1..], x);
        var r := RemoveFirst(s, x);
        assert r[0] == s[0] && r[1..] == RemoveFirst(s[1..], x);
      }
    }
  }

  /** Removing one occurrence of each of `ts` keeps the rest of `s` in order. */
  lemma {:induction false} RemoveAllSubseq<T>(s: seq<T>, ts: seq<T>)
    ensures IsSubseq(RemoveAll(s, ts), s)
    decreases |ts|
  {
    if ts == [] {
      SubseqRefl(s);
    } else {
      var init := ts[..|ts| - 1];
      RemoveAllSubseq(s, init);
      RemoveFirstSubseq(RemoveAll(s, init), ts[|ts| - 1]);
      SubseqTrans(RemoveAll(s, ts), RemoveAll(s, init), s);
    }
  }

  lemma {:induction false} RemoveFirstNoDup<T>(s: seq<T>, x: T)
    requires NoDup(s)
    ensures RemoveFirst(s, x) == Filter(s, NotIn([x]))
    decreases |s|
  {
    if s != [] {
      assert NoDup(s[1..]) by {
        forall i, j | 0 <= i < j < |s[1..]| ensures s[1..][i] != s[1..][j] {
          assert s[1..][i] == s[i + 1] && s[1..][j] == s[j + 1];
        }
      }
      if s[0] == x {
        assert x !in s[1..];
        forall i | 0 <= i < |s[1..]| ensures NotIn([x])(s[1..][i]) {
          assert s[1..][i] in s[1..];
        }
        FilterAllPass(s[1..], NotIn([x]));
      } else {
        RemoveFirstNoDup(s[1..], x);
      }
    }
  }

  lemma {:induction false} FilterNotInSnoc<T>(s: seq<T>, ts: seq<T>, t: T)
    ensures Filter(Filter(s, NotIn(ts)), NotIn([t])) == Filter(s, NotIn(ts + [t]))
    decreases |s|
  {
    if s != [] {
      FilterNotInSnoc(s[1..], ts, t);
      var head := if NotIn(ts)(s[0]) then [s[0]] else [];
      FilterConcat(head, Filter(s[1..], NotIn(ts)), NotIn([t]));
      assert NotIn(ts + [t])(s[0]) == (NotIn(ts)(s[0]) && NotIn([t])(s[0]));
    }
  }

  /** On a sequence without duplicates, removing one occurrence of each of
      `ts` is the same as keeping the elements that do not occur in `ts`. */
  lemma {:induction false} RemoveAllNoDup<T>(s: seq<T>, ts: seq<T>)
    requires NoDup(s)
    ensures RemoveAll(s, ts) == Filter(s, NotIn(ts))
    ensures NoDup(RemoveAll(s, ts))
    decreases |ts|
  {
    if ts == [] {
      forall i | 0 <= i < |s| ensures NotIn(ts)(s[i]) { }
      FilterAllPass(s, NotIn(ts));
      assert RemoveAll(s, ts) == s;
    } else {
      var init, t := ts[..|ts| - 1], ts[|ts| - 1];
      assert init + [t] == ts;
      RemoveAllNoDup(s, init);
      RemoveAllSnoc(s, init, t);
      var w := RemoveAll(s, init);
      RemoveFirstNoDup(w, t);
      FilterNotInSnoc(s, init, t);
      FilterNoDup(s, NotIn(ts));
    }
  }

  lemma RemoveAllSnoc<T>(s: seq<T>, init: seq<T>, t: T)
    ensures RemoveAll(s, init + [t]) == RemoveFirst(RemoveAll(s, init), t)
  {
    var ts := init + [t];
    assert ts[..|ts| - 1] == init;
  }

  /** Removing the occurrences for `a` and then for `b` is removing them for
      `a + b`. */
  lemma {:induction false} RemoveAllConcat<T>(s: seq<T>, a: seq<T>, b: seq<T>)
    ensures RemoveAll(RemoveAll(s, a), b) == RemoveAll(s, a + b)
    decreases |b|
  {
    if b == [] {
      assert a + b == a;
    } else {
      var init, t := b[..|b| - 1], b[|b| - 1];
      assert a + b == (a + init) + [t];
      RemoveAllConcat(s, a, init);
      RemoveAllSnoc(RemoveAll(s, a), init, t);
      RemoveAllSnoc(s, a + init, t);
    }
  }

  lemma FilterSnoc<T>(s: seq<T>, x: T, p: T -> bool)
    ensures Filter(s + [x], p) == Filter(s, p) + (if p(x) then [x] else [])
  {
    FilterConcat(s, [x], p);
    assert [x][1..] == [];
  }

  /** Taking one more element of `s` appends it. */
  lemma TakeSnoc<T>(s: seq<T>, k: nat)
    requires k < |s|
    ensures s[..k + 1] == s[..k] + [s[k]]
  {
  }

  lemma RemoveEachSnoc<T>(s: seq<T>, idxs: seq<nat>, i: nat)
    requires RemovalsInBounds(|s|, idxs) && i + |idxs| < |s|
    ensures RemovalsInBounds(|s|, idxs + [i])
    ensures RemoveEach(s, idxs + [i]) == RemoveAt(RemoveEach(s, idxs), i)
  {
    assert forall k :: 0 <= k < |idxs| ==> (idxs + [i])[k] == idxs[k];
    assert (idxs + [i])[..|idxs|] == idxs;
  }

  /** Removing collected positions one after another shifts the later ones:
      the positions of the two leading 1s are 0 and 1, yet
      removing them in turn keeps the second 1 and removes the 2 behind it. */
  lemma ShiftingRemovalMissesSecondMatch()
    ensures RemoveEach([1, 1, 2], [0, 1]) == [1]
  {
    var idxs: seq<nat> := [0, 1];
    assert idxs[..1] == [0];
    RemoveEachSnoc([1, 1, 2], [], 0);
    assert [] + [0] == [0];
    assert RemoveAt([1, 1, 2], 0) == [1, 2];
    assert RemoveAt([1, 2], 1) == [1];
  }

  /** The loop that walks a vector and pushes the index of every element that
      passes `p`. */
  method CollectIndices<T>(s: seq<T>, p: T -> bool) returns (idxs: seq<nat>)
    ensures idxs == IndicesWhere(s, p)
  {
    idxs := [];
    for k := 0 to |s|
      invariant idxs == IndicesWhere(s[..k], p)
    {
      assert s[..k + 1][..k] == s[..k];
      if p(s[k]) {
        idxs := idxs + [k];
      }
    }
    assert s[..|s|] == s;
  }

  /** The loop that calls `Vec::remove` with each collected index in turn. */
  method RemoveIndices<T(==)>(s: seq<T>, idxs: seq<nat>) returns (r: seq<T>)
    requires RemovalsInBounds(|s|, idxs)
    ensures r == RemoveEach(s, idxs)
  {
    r := s;
    for k := 0 to |idxs|
      invariant RemovalsInBounds(|s|, idxs[..k])
      invariant r == RemoveEach(s, idxs[..k])
    {
      TakeSnoc(idxs, k);
      RemoveEachSnoc(s, idxs[..k], idxs[k]);
      r := RemoveAt(r, idxs[k]);
    }
    assert idxs[..|idxs|] == idxs;
  }

  /** Removes from `s` the first occurrence of each of `ts` in turn: the
      `position` / `Vec::remove` loop over a list of values. */
  method RemoveOccurrences<T(==)>(s: seq<T>, ts: seq<T>) returns (r: seq<T>)
    ensures r == RemoveAll(s, ts)
  {
    r := s;
    for k := 0 to |ts|
      invariant r == RemoveAll(s, ts[..k])
    {
      RemoveAllStep(s, ts, k);
      r := RemoveFirst(r, ts[k]);
    }
    assert ts[..|ts|] == ts;
  }

  lemma RemoveAllStep<T>(s: seq<T>, ts: seq<T>, k: nat)
    requires k < |ts|
    ensures RemoveAll(s, ts[..k + 1]) == RemoveFirst(RemoveAll(s, ts[..k]), ts[k])
  {
    assert ts[..k + 1] == ts[..k] + [ts[k]];
    RemoveAllSnoc(s, ts[..k], ts[k]);
  }

  /** Collects the indices of the elements passing `p`, then removes at each
      collected index in turn (each removal shifts the later elements). */
  method RemoveWhere<T(==)>(s: seq<T>, p: T -> bool) returns (r: seq<T>)
    requires RemovalsInBounds(|s|, IndicesWhere(s, p))
    ensures r == RemoveEach(s, IndicesWhere(s, p))
  {
    var idxs := CollectIndices(s, p);
    r := RemoveIndices(s, idxs);
  }
}
