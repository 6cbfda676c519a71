/**
 * The two segment merge policies of the benchmark. Each one is asked by the
 * index engine, with an ordered snapshot of the live segments, which groups of
 * segments should be merged; it answers with a list of merge candidates, each a
 * list of segment ids.
 */
module MergePolicy {

  /** Opaque segment identifier (a UUID in the index engine); only equality is used. */
  type SegmentId = nat

  /** One entry of the snapshot: a segment id and its number of documents. */
  datatype SegmentMeta = SegmentMeta(id: SegmentId, numDocs: nat)

  /** The segments that one merge should combine, in the order proposed. */
  type MergeCandidate = seq<SegmentId>

  /** `TargetDocsPerSegmentPolicy::new(run_id, target_docs_per_segment)`. */
  datatype TargetDocsPerSegmentPolicy = TargetDocsPerSegmentPolicy(runId: string, targetDocsPerSegment: nat)

  /** `MergeWheneverPossiblePolicy::new(run_id)`. */
  datatype MergeWheneverPossiblePolicy = MergeWheneverPossiblePolicy(runId: string)

  /** The ids of a snapshot, in snapshot order. */
  function Ids(metas: seq<SegmentMeta>): (ids: seq<SegmentId>)
    ensures |ids| == |metas|
    ensures forall k :: 0 <= k < |metas| ==> ids[k] == metas[k].id
  {
    seq(|metas|, k requires 0 <= k < |metas| => metas[k].id)
  }

  /** The engine never lists a segment twice in one snapshot. */
  predicate UniqueIds(metas: seq<SegmentMeta>)
  {
    forall j, k :: 0 <= j < k < |metas| ==> metas[j].id != metas[k].id
  }

  function TotalDocs(metas: seq<SegmentMeta>): nat
  {
    if metas == [] then 0 else TotalDocs(metas[..|metas| - 1]) + metas[|metas| - 1].numDocs
  }

  // ---------------------------------------------------------------------------
  // MergeWheneverPossiblePolicy
  // ---------------------------------------------------------------------------

  /**
   * `MergeWheneverPossiblePolicy::compute_merge_candidates`: with two or more
   * segments, one candidate holding every id in snapshot order; otherwise none.
   * Document counts play no part.
   */
  function MergeWheneverCandidates(policy: MergeWheneverPossiblePolicy, metas: seq<SegmentMeta>): (r: seq<MergeCandidate>)
    ensures |metas| <= 1 <==> r == []
    ensures |metas| >= 2 ==> |r| == 1 && |r[0]| == |metas|
    ensures |metas| >= 2 ==> forall k :: 0 <= k < |metas| ==> r[0][k] == metas[k].id
  {
    var segmentIds := Ids(metas);
    if |segmentIds| > 1 then [segmentIds] else []
  }

  // ---------------------------------------------------------------------------
  // TargetDocsPerSegmentPolicy
  // ---------------------------------------------------------------------------

  /** A group under construction: the document count it was opened with and its members. */
  datatype Group = Group(numDocs: nat, segmentIds: seq<SegmentId>)

  /** Whether segment `m` fits next to a first segment holding `firstDocs` documents. */
  predicate Fits(m: SegmentMeta, firstDocs: nat, target: nat)
  {
    firstDocs + m.numDocs < target
  }

  /**
   * The ids, in snapshot order, of the segments at positions 1 .. n-1 whose
   * count added to the FIRST segment's count stays below the target.
   */
  function Later(metas: seq<SegmentMeta>, n: nat, target: nat): (r: seq<SegmentId>)
    requires 0 < n <= |metas|
    ensures |r| <= n - 1
    ensures forall id :: id in r ==> exists k :: 1 <= k < n && metas[k].id == id
  {
    if n == 1 then []
    else
      Later(metas, n - 1, target)
      + (if Fits(metas[n - 1], metas[0].numDocs, target) then [metas[n - 1].id] else [])
  }

  /**
   * What the greedy loop computes, stated directly: nothing for an empty
   * snapshot; otherwise a single candidate made of the first segment and every
   * later segment that fits next to the first segment's count alone.
   */
  function TargetDocsReference(metas: seq<SegmentMeta>, target: nat): (r: seq<MergeCandidate>)
    ensures r == [] <==> metas == []
    ensures |r| <= 1
    ensures r != [] ==> 1 <= |r[0]| <= |metas| && r[0][0] == metas[0].id
    ensures r != [] ==> forall id :: id in r[0] ==> id in Ids(metas)
  {
    if metas == [] then [] else [[metas[0].id] + Later(metas, |metas|, target)]
  }

  /**
   * `TargetDocsPerSegmentPolicy::compute_merge_candidates`, as written: a list
   * of groups grown inside a labelled nested loop. A segment joins the first
   * group whose stored count plus its own is below the target; a group is
   * opened only while there are none; the stored count is never increased;
   * every group, single-member ones included, becomes a candidate.
   */
  method TargetDocsCandidates(policy: TargetDocsPerSegmentPolicy, metas: seq<SegmentMeta>)
    returns (candidates: seq<MergeCandidate>)
    ensures candidates == TargetDocsReference(metas, policy.targetDocsPerSegment)
  {
    var target := policy.targetDocsPerSegment;
    var groups: seq<Group> := [];
    label MergeSegmentLoop:
    for i := 0 to |metas|
      invariant |groups| <= 1
      invariant i == 0 <==> groups == []
      invariant i > 0 ==> groups[0] == Group(metas[0].numDocs, [metas[0].id] + Later(metas, i, target))
    {
      var segmentId := metas[i].id;
      var numDocs := metas[i].numDocs;
      ghost var before := groups;
      var g := 0;
      while g < |groups|
        invariant 0 <= g <= |groups|
        invariant groups == before
        invariant forall h :: 0 <= h < g ==> groups[h].numDocs + numDocs >= target
      {
        if groups[g].numDocs + numDocs < target {
          groups := groups[g := groups[g].(segmentIds := groups[g].segmentIds + [segmentId])];
          continue MergeSegmentLoop;
        }
        g := g + 1;
      }
      if |groups| < 1 {
        groups := groups + [Group(numDocs, [segmentId])];
      }
    }
    candidates := seq(|groups|, k requires 0 <= k < |groups| => groups[k].segmentIds);
  }

  // ---------------------------------------------------------------------------
  // Properties of the target-docs reference
  // ---------------------------------------------------------------------------

  /** Positions strictly increase. */
  ghost predicate Increasing(idx: seq<nat>)
  {
    forall j, j' :: 0 <= j < j' < |idx| ==> idx[j] < idx[j']
  }

  /**
   * `idx` picks out of positions 1 .. n-1 of `metas`, in increasing order,
   * exactly those whose segment fits next to the first one, and `ids` lists
   * their ids.
   */
  ghost predicate SelectsLater(ids: seq<SegmentId>, metas: seq<SegmentMeta>, n: nat, target: nat, idx: seq<nat>)
    requires 0 < n <= |metas|
  {
    && |idx| == |ids|
    && (forall j :: 0 <= j < |idx| ==> 0 < idx[j] < n && ids[j] == metas[idx[j]].id)
    && (forall j :: 0 <= j < |idx| ==> Fits(metas[idx[j]], metas[0].numDocs, target))
    && Increasing(idx)
    && (forall i :: 0 < i < n && Fits(metas[i], metas[0].numDocs, target) ==> i in idx)
  }

  /** `Later` is the order-preserving subsequence of the fitting segments, each taken once. */
  lemma {:induction false} LaterSelection(metas: seq<SegmentMeta>, n: nat, target: nat) returns (idx: seq<nat>)
    requires 0 < n <= |metas|
    ensures SelectsLater(Later(metas, n, target), metas, n, target, idx)
  {
    if n == 1 {
      idx := [];
    } else {
      var idx' := LaterSelection(metas, n - 1, target);
      idx := ExtendSelection(metas, n, target, Later(metas, n - 1, target), idx');
    }
  }

  /** A selection from positions below `n - 1` extends to one from positions below `n`. */
  lemma {:induction false} ExtendSelection(metas: seq<SegmentMeta>, n: nat, target: nat, ids': seq<SegmentId>, idx': seq<nat>)
    returns (idx: seq<nat>)
    requires 1 < n <= |metas|
    requires SelectsLater(ids', metas, n - 1, target, idx')
    ensures var fits := Fits(metas[n - 1], metas[0].numDocs, target);
      SelectsLater(ids' + (if fits then [metas[n - 1].id] else []), metas, n, target, idx)
  {
    if Fits(metas[n - 1], metas[0].numDocs, target) {
      idx := AppendSelection(metas, n, target, ids', idx');
    } else {
      idx := idx';
    }
  }

  /** The step of `ExtendSelection` where the segment at `n - 1` fits. */
  lemma {:induction false} AppendSelection(metas: seq<SegmentMeta>, n: nat, target: nat, ids': seq<SegmentId>, idx': seq<nat>)
    returns (idx: seq<nat>)
    requires 1 < n <= |metas|
    requires Fits(metas[n - 1], metas[0].numDocs, target)
    requires SelectsLater(ids', metas, n - 1, target, idx')
    ensures SelectsLater(ids' + [metas[n - 1].id], metas, n, target, idx)
  {
    var ids := ids' + [metas[n - 1].id];
    idx := idx' + [n - 1];
    var last := |idx'|;
    assert idx[last] == n - 1 && ids[last] == metas[n - 1].id;
    assert forall j :: 0 <= j < last ==> idx[j] == idx'[j] && ids[j] == ids'[j];
    AppendIncreasing(idx', n - 1);
    assert forall i :: 0 < i < n && Fits(metas[i], metas[0].numDocs, target) ==> i in idx by {
      forall i | 0 < i < n - 1 && Fits(metas[i], metas[0].numDocs, target) ensures i in idx {
        var j :| 0 <= j < last && idx'[j] == i;
        assert idx[j] == i;
      }
    }
  }

  /**
   * `idx` lists the snapshot positions of the members of `c`: position 0
   * first, then, in increasing order, exactly the later positions `i` with
   * docs(first) + docs(i) < target.
   */
  ghost predicate SelectsCandidate(c: MergeCandidate, metas: seq<SegmentMeta>, target: nat, idx: seq<nat>)
    requires metas != []
  {
    && 0 < |idx| == |c| <= |metas|
    && idx[0] == 0
    && (forall j :: 0 <= j < |idx| ==> idx[j] < |metas| && c[j] == metas[idx[j]].id)
    && (forall j :: 0 < j < |idx| ==> Fits(metas[idx[j]], metas[0].numDocs, target))
    && Increasing(idx)
    && (forall i :: 0 < i < |metas| && Fits(metas[i], metas[0].numDocs, target) ==> i in idx)
  }

  /**
   * The candidate for a non-empty snapshot, position by position: its first id
   * is the first segment's (whatever that segment's own count), and the rest
   * is the order-preserving subsequence of the later segments `i` with
   * docs(first) + docs(i) < target, each taken at most once.
   */
  lemma {:induction false} TargetDocsSubsequence(metas: seq<SegmentMeta>, target: nat) returns (idx: seq<nat>)
    requires metas != []
    ensures |TargetDocsReference(metas, target)| == 1
    ensures SelectsCandidate(TargetDocsReference(metas, target)[0], metas, target, idx)
  {
    var inner := LaterSelection(metas, |metas|, target);
    idx := PrependFirst(metas, target, Later(metas, |metas|, target), inner);
  }

  /** Putting position 0 in front of a selection of the later positions gives the candidate's positions. */
  lemma PrependFirst(metas: seq<SegmentMeta>, target: nat, later: seq<SegmentId>, inner: seq<nat>) returns (idx: seq<nat>)
    requires metas != []
    requires SelectsLater(later, metas, |metas|, target, inner)
    ensures SelectsCandidate([metas[0].id] + later, metas, target, idx)
  {
    var c := [metas[0].id] + later;
    idx := [0] + inner;
    assert forall j :: 0 < j < |idx| ==> idx[j] == inner[j - 1] && c[j] == later[j - 1];
    PrependIncreasing(0, inner);
    assert forall i :: 0 < i < |metas| && Fits(metas[i], metas[0].numDocs, target) ==> i in idx by {
      forall i | 0 < i < |metas| && Fits(metas[i], metas[0].numDocs, target) ensures i in idx {
        var j :| 0 <= j < |inner| && inner[j] == i;
        assert idx[j + 1] == i;
      }
    }
    IncreasingBound(idx, |metas|);
  }

  /** A position above all others can be appended. */
  lemma AppendIncreasing(idx: seq<nat>, x: nat)
    requires Increasing(idx)
    requires forall j :: 0 <= j < |idx| ==> idx[j] < x
    ensures Increasing(idx + [x])
  {
    var idx' := idx + [x];
    forall j, j' | 0 <= j < j' < |idx'| ensures idx'[j] < idx'[j'] {
      if j' < |idx| {
        assert idx'[j] == idx[j] && idx'[j'] == idx[j'];
      }
    }
  }

  /** A position below all others can be prepended. */
  lemma PrependIncreasing(x: nat, idx: seq<nat>)
    requires Increasing(idx)
    requires forall j :: 0 <= j < |idx| ==> x < idx[j]
    ensures Increasing([x] + idx)
  {
    var idx' := [x] + idx;
    forall j, j' | 0 <= j < j' < |idx'| ensures idx'[j] < idx'[j'] {
      if j > 0 {
        assert idx'[j] == idx[j - 1] && idx'[j'] == idx[j' - 1];
      }
    }
  }

  /** A strictly increasing sequence of positions below `n` is no longer than `n`. */
  lemma {:induction false} IncreasingBound(idx: seq<nat>, n: nat)
    requires forall j :: 0 <= j < |idx| ==> idx[j] < n
    requires Increasing(idx)
    ensures |idx| <= n
  {
    if idx != [] {
      var last := idx[|idx| - 1];
      IncreasingBound(idx[..|idx| - 1], last);
    }
  }

  /**
   * With unique ids, a later segment is in the candidate exactly when its count
   * added to the FIRST segment's count is below the target: the group's count
   * is never updated, so no running total is involved.
   */
  lemma {:induction false} TargetDocsMembership(metas: seq<SegmentMeta>, target: nat, i: nat)
    requires UniqueIds(metas)
    requires 0 < i < |metas|
    ensures metas[i].id in TargetDocsReference(metas, target)[0] <==> metas[0].numDocs + metas[i].numDocs < target
  {
    var idx := TargetDocsSubsequence(metas, target);
    var c := TargetDocsReference(metas, target)[0];
    if metas[0].numDocs + metas[i].numDocs < target {
      var j :| 0 <= j < |idx| && idx[j] == i;
      assert c[j] == metas[i].id;
    }
    if metas[i].id in c {
      var j :| 0 <= j < |c| && c[j] == metas[i].id;
      assert metas[idx[j]].id == metas[i].id;
      assert idx[j] == i;
    }
  }

  /** With unique ids the candidate names no segment twice. */
  lemma {:induction false} TargetDocsNoDuplicates(metas: seq<SegmentMeta>, target: nat)
    requires UniqueIds(metas)
    requires metas != []
    ensures var c := TargetDocsReference(metas, target)[0];
      forall j, j' :: 0 <= j < j' < |c| ==> c[j] != c[j']
  {
    var idx := TargetDocsSubsequence(metas, target);
  }

  /** `[5000, 6000]` with target 10000: one candidate holding only the first id. */
  lemma TargetDocsSingleMemberExample(a: SegmentId, b: SegmentId)
    ensures TargetDocsReference([SegmentMeta(a, 5000), SegmentMeta(b, 6000)], 10000) == [[a]]
  {
    var metas := [SegmentMeta(a, 5000), SegmentMeta(b, 6000)];
    assert Later(metas, 1, 10000) == [];
    assert Later(metas, 2, 10000) == [];
    assert [metas[0].id] + Later(metas, |metas|, 10000) == [a];
  }

  /** `[1000, 2000, 3000]` with target 10000: every id in one candidate. */
  lemma TargetDocsAllFitExample(a: SegmentId, b: SegmentId, c: SegmentId)
    ensures TargetDocsReference([SegmentMeta(a, 1000), SegmentMeta(b, 2000), SegmentMeta(c, 3000)], 10000) == [[a, b, c]]
  {
    var metas := [SegmentMeta(a, 1000), SegmentMeta(b, 2000), SegmentMeta(c, 3000)];
    assert Later(metas, 1, 10000) == [];
    assert Later(metas, 2, 10000) == [b];
    assert Later(metas, 3, 10000) == [b, c];
    assert [metas[0].id] + Later(metas, |metas|, 10000) == [a, b, c];
  }

  /**
   * Since each later segment is only tested against the first one, a
   * candidate's document total can reach the target: `[5000, 4000, 4000]`
   * with target 10000 merges all three, 13000 documents.
   */
  lemma TargetDocsCandidateMayReachTarget(a: SegmentId, b: SegmentId, c: SegmentId)
    ensures var metas := [SegmentMeta(a, 5000), SegmentMeta(b, 4000), SegmentMeta(c, 4000)];
      TargetDocsReference(metas, 10000) == [[a, b, c]] && TotalDocs(metas) >= 10000
  {
    var metas := [SegmentMeta(a, 5000), SegmentMeta(b, 4000), SegmentMeta(c, 4000)];
    assert Later(metas, 1, 10000) == [];
    assert Later(metas, 2, 10000) == [b];
    assert Later(metas, 3, 10000) == [b, c];
    assert [metas[0].id] + Later(metas, |metas|, 10000) == [a, b, c];
    assert metas[..2][..1][..0] == [];
    assert TotalDocs(metas[..2][..1]) == 5000;
    assert metas[..2][..1] == metas[..1];
    assert TotalDocs(metas[..2]) == 9000;
  }

  // ---------------------------------------------------------------------------
  // What happens after the engine executes a candidate
  // ---------------------------------------------------------------------------

  /** The segments of a snapshot that a merge of `candidate` leaves in place, in order. */
  function Remaining(metas: seq<SegmentMeta>, candidate: MergeCandidate): (r: seq<SegmentMeta>)
    ensures |r| <= |metas|
    ensures forall m :: m in r ==> m in metas && m.id !in candidate
    ensures forall m :: m in metas && m.id !in candidate ==> m in r
  {
    if metas == [] then []
    else
      Remaining(metas[..|metas| - 1], candidate)
      + (if metas[|metas| - 1].id in candidate then [] else [metas[|metas| - 1]])
  }

  /** The documents the segments named by `candidate` hold together. */
  function MergedDocs(metas: seq<SegmentMeta>, candidate: MergeCandidate): nat
  {
    if metas == [] then 0
    else
      MergedDocs(metas[..|metas| - 1], candidate)
      + (if metas[|metas| - 1].id in candidate then metas[|metas| - 1].numDocs else 0)
  }

  /**
   * The index engine's merge step, which is not part of this repository: the
   * sources leave the snapshot and one new segment holding all their documents
   * is added.
   */
  function ApplyMerge(metas: seq<SegmentMeta>, candidate: MergeCandidate, newId: SegmentId): (r: seq<SegmentMeta>)
    ensures 1 <= |r| <= |metas| + 1
    ensures r[|r| - 1] == SegmentMeta(newId, MergedDocs(metas, candidate))
    ensures forall m :: m in r[..|r| - 1] ==> m in metas && m.id !in candidate
    ensures forall m :: m in metas && m.id !in candidate ==> m in r[..|r| - 1]
    ensures TotalDocs(r) == TotalDocs(metas)
  {
    var rest := Remaining(metas, candidate);
    MergeConservesDocs(metas, candidate);
    TotalDocsAppend(rest, SegmentMeta(newId, MergedDocs(metas, candidate)));
    assert (rest + [SegmentMeta(newId, MergedDocs(metas, candidate))])[..|rest|] == rest;
    rest + [SegmentMeta(newId, MergedDocs(metas, candidate))]
  }

  lemma TotalDocsAppend(metas: seq<SegmentMeta>, m: SegmentMeta)
    ensures TotalDocs(metas + [m]) == TotalDocs(metas) + m.numDocs
  {
    assert (metas + [m])[..|metas|] == metas;
  }

  /** Every document of the snapshot is either left in place or merged, exactly once. */
  lemma {:induction false} MergeConservesDocs(metas: seq<SegmentMeta>, candidate: MergeCandidate)
    ensures TotalDocs(Remaining(metas, candidate)) + MergedDocs(metas, candidate) == TotalDocs(metas)
  {
    if metas != [] {
      var init, last := metas[..|metas| - 1], metas[|metas| - 1];
      MergeConservesDocs(init, candidate);
      if last.id !in candidate {
        TotalDocsAppend(Remaining(init, candidate), last);
      } else {
        assert Remaining(metas, candidate) == Remaining(init, candidate) + [];
        assert Remaining(init, candidate) + [] == Remaining(init, candidate);
      }
    }
  }

  /** A candidate that names every segment leaves nothing behind and loses no document. */
  lemma {:induction false} MergeOfAll(metas: seq<SegmentMeta>, candidate: MergeCandidate)
    requires forall k :: 0 <= k < |metas| ==> metas[k].id in candidate
    ensures Remaining(metas, candidate) == []
    ensures MergedDocs(metas, candidate) == TotalDocs(metas)
  {
    if metas != [] {
      MergeOfAll(metas[..|metas| - 1], candidate);
    }
  }

  /**
   * Merge-whenever reaches a fixed point: once its candidate is merged, the
   * snapshot is one segment holding every document, and the policy asks for
   * nothing more.
   */
  lemma MergeWheneverFixedPoint(policy: MergeWheneverPossiblePolicy, metas: seq<SegmentMeta>, newId: SegmentId)
    requires |metas| >= 2
    ensures var after := ApplyMerge(metas, MergeWheneverCandidates(policy, metas)[0], newId);
      after == [SegmentMeta(newId, TotalDocs(metas))] && MergeWheneverCandidates(policy, after) == []
  {
    MergeOfAll(metas, MergeWheneverCandidates(policy, metas)[0]);
  }

  /**
   * Target-docs never settles. The first clause holds by the definition of
   * `TargetDocsReference` (a non-empty snapshot always yields one candidate)
   * together with `ApplyMerge` never leaving an empty snapshot. The second is
   * the substantive case: a lone segment is proposed on its own, and merging
   * it gives again a lone segment with the same count, which is proposed
   * again. If the engine executes one-segment candidates and asks the policy
   * again after each merge, this is consistent with the drivers that wait for
   * merges under this policy not returning; neither engine behaviour is
   * modelled here.
   */
  lemma TargetDocsNeverSettles(policy: TargetDocsPerSegmentPolicy, metas: seq<SegmentMeta>, newId: SegmentId)
    requires metas != []
    ensures var t := policy.targetDocsPerSegment;
      var after := ApplyMerge(metas, TargetDocsReference(metas, t)[0], newId);
      TargetDocsReference(metas, t) != [] && TargetDocsReference(after, t) != []
    ensures |metas| == 1 ==>
      && TargetDocsReference(metas, policy.targetDocsPerSegment) == [[metas[0].id]]
      && ApplyMerge(metas, [metas[0].id], newId) == [SegmentMeta(newId, metas[0].numDocs)]
  {
    if |metas| == 1 {
      assert Later(metas, 1, policy.targetDocsPerSegment) == [];
      assert [metas[0].id] + Later(metas, 1, policy.targetDocsPerSegment) == [metas[0].id];
      assert metas[..|metas| - 1] == [];
      assert Remaining(metas, [metas[0].id]) == [];
      assert MergedDocs(metas, [metas[0].id]) == metas[0].numDocs;
    }
  }
}
