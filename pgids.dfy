/** Page-id sets and their sorted merge: `pgids`, `pgids.Less`,
    `pgids.merge` and `mergepgids` of page.go.

    A page-id set is an ascending sequence of 64-bit page ids. `mergepgids`
    writes the merge of two such sequences into a caller-supplied buffer; it
    copies whole runs, finding the end of each run with a binary search,
    rather than comparing element by element. Ids present in both inputs are
    kept twice: it is a merge, not a de-duplicating union. */
module Pgids {
  import opened Ints

  type Pgid = U64

  /** `pgids.Less`: the order `sort.Sort` puts page ids in. */
  predicate PgidsLess(s: seq<Pgid>, i: int, j: int)
    requires 0 <= i < |s| && 0 <= j < |s|
  {
    s[i] < s[j]
  }

  /** Ascending order (equal neighbours allowed). */
  predicate Sorted(s: seq<Pgid>)
  {
    forall i, j :: 0 <= i < j < |s| ==> s[i] <= s[j]
  }

  /** `Less` is a strict order on the positions of a list that ranks them by
      their ids, so `sort.Sort` may use it: never true of a position and
      itself, true in at most one direction, transitive, and false in both
      directions only between equal ids. */
  lemma PgidsLessStrictOrder(s: seq<Pgid>)
    ensures forall i :: 0 <= i < |s| ==> !PgidsLess(s, i, i)
    ensures forall i, j :: 0 <= i < |s| && 0 <= j < |s| && PgidsLess(s, i, j) ==> !PgidsLess(s, j, i)
    ensures forall i, j, k :: 0 <= i < |s| && 0 <= j < |s| && 0 <= k < |s| ==>
      (PgidsLess(s, i, j) && PgidsLess(s, j, k) ==> PgidsLess(s, i, k))
    ensures forall i, j :: 0 <= i < |s| && 0 <= j < |s| ==>
      (!PgidsLess(s, i, j) && !PgidsLess(s, j, i) <==> s[i] == s[j])
  {
  }

  /** A sequence is sorted exactly when `PgidsLess` finds no pair out of order,
      i.e. when `sort.Sort` with this `Less` would leave it as it is. */
  lemma SortedIffNoInversion(s: seq<Pgid>)
    ensures Sorted(s) <==> forall i, j :: 0 <= i < j < |s| ==> !PgidsLess(s, j, i)
  {
    if forall i, j :: 0 <= i < j < |s| ==> !PgidsLess(s, j, i) {
      forall i, j | 0 <= i < j < |s| ensures s[i] <= s[j] {
        assert !PgidsLess(s, j, i);
      }
    }
  }

  /** Two sorted pieces concatenate to a sorted sequence exactly when the last
      of the first is at most the first of the second. */
  lemma SortedConcat(x: seq<Pgid>, y: seq<Pgid>)
    ensures Sorted(x + y) <==> Sorted(x) && Sorted(y) && (x != [] && y != [] ==> x[|x| - 1] <= y[0])
  {
    var xy := x + y;
    if Sorted(x) && Sorted(y) && (x != [] && y != [] ==> x[|x| - 1] <= y[0]) {
      forall i, j | 0 <= i < j < |xy| ensures xy[i] <= xy[j] {
        if j < |x| {
          assert xy[i] == x[i] && xy[j] == x[j];
        } else if |x| <= i {
          assert xy[i] == y[i - |x|] && xy[j] == y[j - |x|];
        } else {
          assert x[i] <= x[|x| - 1] && y[0] <= y[j - |x|];
        }
      }
    }
    if Sorted(xy) {
      forall i, j | 0 <= i < j < |x| ensures x[i] <= x[j] {
        assert xy[i] == x[i] && xy[j] == x[j];
      }
      forall i, j | 0 <= i < j < |y| ensures y[i] <= y[j] {
        assert xy[|x| + i] == y[i] && xy[|x| + j] == y[j];
      }
      if x != [] && y != [] {
        assert xy[|x| - 1] == x[|x| - 1] && xy[|x|] == y[0];
      }
    }
  }

  /** Every slice of a sorted sequence is sorted. */
  lemma SortedSlice(s: seq<Pgid>, lo: nat, hi: nat)
    requires Sorted(s) && lo <= hi <= |s|
    ensures Sorted(s[lo..hi])
  {
    forall i, j | 0 <= i < j < hi - lo ensures s[lo..hi][i] <= s[lo..hi][j] {
      assert s[lo..hi][i] == s[lo + i] && s[lo..hi][j] == s[lo + j];
    }
  }

  /** The reference merge, element by element: on a tie the element of `a`
      goes first. The result always has |a| + |b| elements. */
  function Merged(a: seq<Pgid>, b: seq<Pgid>): (r: seq<Pgid>)
    ensures |r| == |a| + |b|
    decreases |a| + |b|
  {
    if a == [] then b
    else if b == [] then a
    else if b[0] < a[0] then [b[0]] + Merged(a, b[1..])
    else [a[0]] + Merged(a[1..], b)
  }

  /** The merge keeps every id of both inputs, with its multiplicity. */
  lemma {:induction false} MergedMultiset(a: seq<Pgid>, b: seq<Pgid>)
    ensures multiset(Merged(a, b)) == multiset(a) + multiset(b)
    decreases |a| + |b|
  {
    if a != [] && b != [] {
      if b[0] < a[0] {
        MergedMultiset(a, b[1..]);
        assert Merged(a, b) == [b[0]] + Merged(a, b[1..]);
        assert b == [b[0]] + b[1..];
        assert multiset(b) == multiset{b[0]} + multiset(b[1..]);
      } else {
        MergedMultiset(a[1..], b);
        assert Merged(a, b) == [a[0]] + Merged(a[1..], b);
        assert a == [a[0]] + a[1..];
        assert multiset(a) == multiset{a[0]} + multiset(a[1..]);
      }
    }
  }

  /** Merging two sorted sequences gives a sorted sequence. */
  lemma {:induction false} MergedSorted(a: seq<Pgid>, b: seq<Pgid>)
    requires Sorted(a) && Sorted(b)
    ensures Sorted(Merged(a, b))
    decreases |a| + |b|
  {
    if a != [] && b != [] {
      if b[0] < a[0] {
        SortedSlice(b, 1, |b|);
        MergedSorted(a, b[1..]);
        var rest := Merged(a, b[1..]);
        assert rest[0] == a[0] || rest[0] == b[1];
        SortedConcat([b[0]], rest);
      } else {
        SortedSlice(a, 1, |a|);
        MergedSorted(a[1..], b);
        var rest := Merged(a[1..], b);
        assert (|a| > 1 && rest[0] == a[1]) || rest[0] == b[0];
        SortedConcat([a[0]], rest);
      }
    }
  }

  /** The head of a sorted sequence is its lowest element. */
  lemma SortedHeadLowest(x: seq<Pgid>, v: Pgid)
    requires Sorted(x) && v in multiset(x)
    ensures x[0] <= v
  {
    var k :| 0 <= k < |x| && x[k] == v;
  }

  /** Dropping the head removes one copy of it from the multiset. */
  lemma MultisetTail(x: seq<Pgid>)
    requires x != []
    ensures multiset(x[1..]) == multiset(x) - multiset{x[0]}
  {
    assert x == [x[0]] + x[1..];
  }

  /** Two sorted sequences with the same elements start with the same id. */
  lemma SameHead(x: seq<Pgid>, y: seq<Pgid>)
    requires Sorted(x) && Sorted(y) && x != []
    requires multiset(x) == multiset(y)
    ensures y != [] && x[0] == y[0]
  {
    assert x[0] in multiset(x);
    assert y != [];
    assert y[0] in multiset(y);
    SortedHeadLowest(x, y[0]);
    SortedHeadLowest(y, x[0]);
  }

  /** A sorted sequence is determined by its multiset of elements. */
  lemma {:induction false} SortedUnique(x: seq<Pgid>, y: seq<Pgid>)
    requires Sorted(x) && Sorted(y)
    requires multiset(x) == multiset(y)
    ensures x == y
    decreases |x|
  {
    if x == [] {
      assert |y| == |multiset(y)| == 0;
    } else {
      SameHead(x, y);
      MultisetTail(x);
      MultisetTail(y);
      SortedSlice(x, 1, |x|);
      SortedSlice(y, 1, |y|);
      SortedUnique(x[1..], y[1..]);
      assert x == [x[0]] + x[1..] && y == [y[0]] + y[1..];
    }
  }

  /** `sort.Search(len(lead), func(i int) bool { return lead[i] > x })`:
      Go's binary search for the first index whose predicate holds. Whatever
      `lead` holds, the result n has `lead[n] > x` (unless n == |lead|) and
      `lead[n-1] <= x` (unless n == 0); on a sorted `lead` it splits `lead`
      into the ids at most x and the ids above x. */
  method Search(lead: seq<Pgid>, x: Pgid) returns (n: nat)
    ensures n <= |lead|
    ensures n < |lead| ==> x < lead[n]
    ensures 0 < n ==> lead[n - 1] <= x
    ensures Sorted(lead) ==> forall k :: 0 <= k < n ==> lead[k] <= x
    ensures Sorted(lead) ==> forall k :: n <= k < |lead| ==> x < lead[k]
  {
    var i, j := 0, |lead|;
    while i < j
      invariant 0 <= i <= j <= |lead|
      invariant j < |lead| ==> x < lead[j]
      invariant 0 < i ==> lead[i - 1] <= x
      invariant Sorted(lead) ==> forall k :: 0 <= k < i ==> lead[k] <= x
      invariant Sorted(lead) ==> forall k :: j <= k < |lead| ==> x < lead[k]
    {
      var h := (i + j) / 2;
      if !(lead[h] > x) {
        i := h + 1;
      } else {
        j := h;
      }
    }
    n := i;
  }

  /** Go's `copy(dst[at:], src)`, and `append` into spare capacity: writes
      `src` at position `at` and leaves every other slot alone. */
  method CopyInto(dst: array<Pgid>, at: nat, src: seq<Pgid>)
    requires at + |src| <= dst.Length
    modifies dst
    ensures dst[..at + |src|] == old(dst[..at]) + src
    ensures forall i :: at + |src| <= i < dst.Length ==> dst[i] == old(dst[i])
  {
    var k := 0;
    while k < |src|
      invariant 0 <= k <= |src|
      invariant dst[..at + k] == old(dst[..at]) + src[..k]
      invariant forall i :: at + k <= i < dst.Length ==> dst[i] == old(dst[i])
    {
      dst[at + k] := src[k];
      k := k + 1;
    }
  }

  /** What holds at the head of the merge loop: `out` is the output so far,
      `lead` and `follow` are the unmerged tails, and `lead` starts no higher
      than `follow`. On sorted input the output is sorted and no higher than
      anything left. */
  ghost predicate RunsInvariant(a: seq<Pgid>, b: seq<Pgid>, out: seq<Pgid>, lead: seq<Pgid>, follow: seq<Pgid>)
  {
    && lead != [] && follow != []
    && lead[0] <= follow[0]
    && |out| + |lead| + |follow| == |a| + |b|
    && multiset(out) + multiset(lead) + multiset(follow) == multiset(a) + multiset(b)
    && (Sorted(a) && Sorted(b) ==>
          Sorted(lead) && Sorted(follow) && Sorted(out) && (out != [] ==> out[|out| - 1] <= lead[0]))
  }

  /** Before the first pass: `lead` is whichever input has the lower head. */
  lemma RunsStart(a: seq<Pgid>, b: seq<Pgid>, lead: seq<Pgid>, follow: seq<Pgid>)
    requires a != [] && b != []
    requires (lead, follow) == (if b[0] < a[0] then (b, a) else (a, b))
    ensures RunsInvariant(a, b, [], lead, follow)
  {
    assert multiset(lead) + multiset(follow) == multiset(a) + multiset(b);
  }

  /** One pass of the merge loop: `lead[..n]`, the run `Search` found, is
      appended to the output. Either `lead` is used up, and the output
      followed by `follow` is the whole merge, or the tails swap roles and
      the invariant holds again. */
  lemma RunStep(a: seq<Pgid>, b: seq<Pgid>, out: seq<Pgid>, lead: seq<Pgid>, follow: seq<Pgid>, n: nat)
    requires RunsInvariant(a, b, out, lead, follow)
    requires n <= |lead|
    requires n < |lead| ==> follow[0] < lead[n]
    requires 0 < n ==> lead[n - 1] <= follow[0]
    ensures 0 < n
    ensures n < |lead| ==> RunsInvariant(a, b, out + lead[..n], follow, lead[n..])
    ensures n == |lead| ==> MergeComplete(a, b, out + lead, follow)
  {
    var out' := out + lead[..n];
    MultisetSplit(out, lead, n);
    if Sorted(a) && Sorted(b) {
      RunSorted(out, lead, follow[0], n);
    }
    if n == |lead| {
      assert lead[..n] == lead;
      assert multiset(out' + follow) == multiset(out') + multiset(follow);
      if Sorted(a) && Sorted(b) {
        MergeFinished(a, b, out', follow);
      }
    }
  }

  /** Moving the run `lead[..n]` to the output keeps the multiset. */
  lemma MultisetSplit(out: seq<Pgid>, lead: seq<Pgid>, n: nat)
    requires n <= |lead|
    ensures multiset(out + lead[..n]) + multiset(lead[n..]) == multiset(out) + multiset(lead)
  {
    assert lead == lead[..n] + lead[n..];
  }

  /** On sorted input, appending the run `lead[..n]` (all at most x, where
      x is the head of `follow`) keeps the output sorted, and its new last id
      is at most both heads that remain. */
  lemma RunSorted(out: seq<Pgid>, lead: seq<Pgid>, x: Pgid, n: nat)
    requires Sorted(out) && Sorted(lead)
    requires 0 < n <= |lead|
    requires out != [] ==> out[|out| - 1] <= lead[0]
    requires lead[n - 1] <= x
    ensures Sorted(out + lead[..n]) && Sorted(lead[n..])
    ensures (out + lead[..n])[|out| + n - 1] <= x
    ensures n < |lead| ==> (out + lead[..n])[|out| + n - 1] <= lead[n]
  {
    SortedSlice(lead, 0, n);
    SortedSlice(lead, n, |lead|);
    SortedConcat(out, lead[..n]);
  }

  /** The loop has ended: the output followed by what is left in `follow` is
      the whole merge. */
  ghost predicate MergeComplete(a: seq<Pgid>, b: seq<Pgid>, out: seq<Pgid>, follow: seq<Pgid>)
  {
    && |out| + |follow| == |a| + |b|
    && multiset(out + follow) == multiset(a) + multiset(b)
    && (Sorted(a) && Sorted(b) ==> Sorted(out + follow) && out + follow == Merged(a, b))
  }

  /** The end of the merge loop on sorted input: the output, followed by
      what is left in `follow`, is the reference merge. */
  lemma MergeFinished(a: seq<Pgid>, b: seq<Pgid>, out: seq<Pgid>, follow: seq<Pgid>)
    requires Sorted(a) && Sorted(b) && Sorted(out) && Sorted(follow)
    requires out != [] && follow != [] ==> out[|out| - 1] <= follow[0]
    requires multiset(out) + multiset(follow) == multiset(a) + multiset(b)
    ensures Sorted(out + follow) && out + follow == Merged(a, b)
  {
    SortedConcat(out, follow);
    MergedSorted(a, b);
    MergedMultiset(a, b);
    SortedUnique(out + follow, Merged(a, b));
  }

  /** `mergepgids(dst, a, b)`: writes the merge of `a` and `b` into
      `dst[0..|a|+|b|)` and leaves the rest of `dst` alone. A `dst` shorter
      than |a| + |b| is a panic in the source, hence the precondition. An
      empty input makes it copy the other one; otherwise `MergeRuns` does
      the work. The result always holds exactly the ids of both inputs; when
      both inputs are sorted it is sorted and equals the reference merge. */
  method MergeInto(dst: array<Pgid>, a: seq<Pgid>, b: seq<Pgid>)
    requires |a| + |b| <= dst.Length
    modifies dst
    ensures multiset(dst[..|a| + |b|]) == multiset(a) + multiset(b)
    ensures a == [] ==> dst[..|b|] == b
    ensures b == [] ==> dst[..|a|] == a
    ensures Sorted(a) && Sorted(b) ==> Sorted(dst[..|a| + |b|]) && dst[..|a| + |b|] == Merged(a, b)
    ensures forall i :: |a| + |b| <= i < dst.Length ==> dst[i] == old(dst[i])
  {
    if |a| == 0 {
      CopyInto(dst, 0, b);
      assert dst[..|b|] == b;
      return;
    }
    if |b| == 0 {
      CopyInto(dst, 0, a);
      assert dst[..|a|] == a;
      return;
    }
    MergeRuns(dst, a, b);
  }

  /** The part of `mergepgids` after the empty-input checks, on two
      non-empty inputs: the run-copying loop, then the copy of what is left
      in `follow`. */
  method MergeRuns(dst: array<Pgid>, a: seq<Pgid>, b: seq<Pgid>)
    requires a != [] && b != []
    requires |a| + |b| <= dst.Length
    modifies dst
    ensures multiset(dst[..|a| + |b|]) == multiset(a) + multiset(b)
    ensures Sorted(a) && Sorted(b) ==> Sorted(dst[..|a| + |b|]) && dst[..|a| + |b|] == Merged(a, b)
    ensures forall i :: |a| + |b| <= i < dst.Length ==> dst[i] == old(dst[i])
  {
    var merged, follow := CopyLeadRuns(dst, a, b);
    ghost var out := dst[..merged];
    CopyInto(dst, merged, follow);
    assert dst[..|a| + |b|] == out + follow;
  }

  /** The loop of `mergepgids`. `lead` is the tail with the lower head; the
      longest prefix of `lead` that is at most `follow[0]` is copied in one
      go, then the two tails swap roles. Each pass copies at least one id,
      since `lead[0] <= follow[0]`. The loop stops when a whole `lead` has
      been copied; it returns how much of `dst` it filled and the tail that
      is left. */
  method CopyLeadRuns(dst: array<Pgid>, a: seq<Pgid>, b: seq<Pgid>) returns (merged: nat, follow: seq<Pgid>)
    requires a != [] && b != []
    requires |a| + |b| <= dst.Length
    modifies dst
    ensures merged <= dst.Length
    ensures MergeComplete(a, b, dst[..merged], follow)
    ensures forall i :: merged <= i < dst.Length ==> dst[i] == old(dst[i])
  {
    // The output so far is dst[..merged], also kept as the ghost `out`.
    merged := 0;
    ghost var out: seq<Pgid> := [];
    var lead;
    lead, follow := a, b;
    if b[0] < a[0] {
      lead, follow := b, a;
    }
    RunsStart(a, b, lead, follow);
    while |lead| > 0
      invariant RunsInvariant(a, b, out, lead, follow)
      invariant merged == |out| && dst[..merged] == out
      invariant forall i :: merged <= i < dst.Length ==> dst[i] == old(dst[i])
      decreases |lead| + |follow|
    {
      var n := Search(lead, follow[0]);
      RunStep(a, b, out, lead, follow, n);
      CopyInto(dst, merged, lead[..n]);
      out := out + lead[..n];
      merged := merged + n;
      if n >= |lead| {
        assert lead[..n] == lead;
        break;
      }
      lead, follow := follow, lead[n..];
    }
  }

  /** `pgids.merge`: the merge of `a` and `b`. An empty input gives back the
      other input itself; otherwise a fresh buffer of |a| + |b| ids is filled
      by `MergeInto`. */
  method Merge(a: seq<Pgid>, b: seq<Pgid>) returns (r: seq<Pgid>)
    ensures multiset(r) == multiset(a) + multiset(b)
    ensures a == [] ==> r == b
    ensures b == [] ==> r == a
    ensures Sorted(a) && Sorted(b) ==> Sorted(r) && r == Merged(a, b)
  {
    if |a| == 0 {
      return b;
    }
    if |b| == 0 {
      return a;
    }
    var merged := new Pgid[|a| + |b|];
    MergeInto(merged, a, b);
    r := merged[..];
    assert r == merged[..|a| + |b|];
  }
}
