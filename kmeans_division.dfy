/**
 * The worklist loop of `_kmeans_division` in
 * ALLCools/pseudo_cell/pseudo_cell_kmeans.py.
 *
 * A stack of (cell subset, label prefix) jobs, seeded with all cells and the
 * empty prefix, is processed until empty: the popped subset is split by
 * k-means, each of its cells is relabelled `prefix + "|" + cluster`, and
 * every group still larger than `max_pseudo_size` is pushed back.
 *
 * The proof follows each cell through a ghost path (its sequence of cluster
 * indices), the job that still owns it (or -1 once its label is final) and
 * the path of every pending job.
 */
module KMeansDivision {
  import opened Wrappers
  import opened Text
  import opened Counting
  import opened KMeansSplit
  import opened KMeansTree

  /** Ghost bookkeeping of the loop. */
  datatype Tracking = Tracking(
    paths: seq<Path>,     // per cell: the cluster indices chosen for it so far
    owner: seq<int>,      // per cell: the stack index of the job holding it, -1 once final
    prefixes: seq<Path>)  // per job: the path its label prefix renders

  // ------------------------------------------------------------ invariant

  /** A job's subset: non-empty, in original order, of cells below `n`. */
  predicate CellsOk(cells: seq<nat>, n: nat) {
    1 <= |cells| && StrictlyIncreasing(cells) && forall i :: 0 <= i < |cells| ==> cells[i] < n
  }

  /** Every pending job is well formed and its prefix renders its path. */
  ghost predicate JobsOk(stack: seq<Job>, prefixes: seq<Path>, n: nat) {
    |prefixes| == |stack| &&
    forall e :: 0 <= e < |stack| ==> CellsOk(stack[e].cells, n) && stack[e].prefix == Render(prefixes[e])
  }

  /**
   * Ownership: each cell is final or held by exactly one pending job, and a
   * pending cell's path is its job's path.
   */
  ghost predicate Owned(stack: seq<Job>, t: Tracking, n: nat)
    requires JobsOk(stack, t.prefixes, n)
  {
    |t.paths| == n && |t.owner| == n &&
    (forall p :: 0 <= p < n ==> -1 <= t.owner[p] < |stack|) &&
    (forall p :: 0 <= p < n && 0 <= t.owner[p] ==> p in stack[t.owner[p]].cells) &&
    (forall e, i :: 0 <= e < |stack| && 0 <= i < |stack[e].cells| ==>
       t.owner[stack[e].cells[i]] == e && t.paths[stack[e].cells[i]] == t.prefixes[e])
  }

  /** The written labels are the rendered paths; unlabelled cells have the empty path. */
  ghost predicate LabelsMatch(current: seq<Option<string>>, paths: seq<Path>) {
    |current| == |paths| &&
    forall p :: 0 <= p < |paths| ==> current[p] == if paths[p] == [] then None else Some(Render(paths[p]))
  }

  /** The final cells whose path is `q`. */
  ghost function FinishedWith(t: Tracking, q: Path): set<nat>
    requires |t.paths| == |t.owner|
  {
    set p: nat | p < |t.owner| && t.owner[p] == -1 && t.paths[p] == q
  }

  /** A final cell has been split at least once, and its final group is within the bound. */
  ghost predicate FinishedOk(t: Tracking, maxPseudoSize: nat)
    requires |t.paths| == |t.owner|
  {
    forall p :: 0 <= p < |t.owner| && t.owner[p] == -1 ==>
      1 <= |t.paths[p]| && |FinishedWith(t, t.paths[p])| <= maxPseudoSize
  }

  /** No pending job's path is a prefix of another's. */
  ghost predicate Antichain(prefixes: seq<Path>) {
    forall e, f :: 0 <= e < |prefixes| && 0 <= f < |prefixes| && e != f ==> !IsPrefix(prefixes[e], prefixes[f])
  }

  /** No final cell lies under a pending job. */
  ghost predicate Separated(t: Tracking)
    requires |t.paths| == |t.owner|
  {
    forall p, e :: 0 <= p < |t.owner| && t.owner[p] == -1 && 0 <= e < |t.prefixes| ==>
      !IsPrefix(t.prefixes[e], t.paths[p])
  }

  ghost predicate Inv(n: nat, maxPseudoSize: nat, current: seq<Option<string>>, stack: seq<Job>, t: Tracking) {
    JobsOk(stack, t.prefixes, n) && Owned(stack, t, n) && LabelsMatch(current, t.paths) &&
    FinishedOk(t, maxPseudoSize) && Antichain(t.prefixes) && Separated(t)
  }

  // ---------------------------------------------------------------- a step

  /** What a step needs: the invariant, a job to pop, and a well-formed k-means answer for it. */
  ghost predicate StepPre(n: nat, maxPseudoSize: nat, current: seq<Option<string>>, stack: seq<Job>,
                          t: Tracking, a: seq<nat>, k: nat)
  {
    Inv(n, maxPseudoSize, current, stack, t) && 1 <= maxPseudoSize && stack != [] && 1 <= k &&
    Fits(a, |stack[|stack| - 1].cells|, k)
  }

  /** The new owner of the `i`-th popped cell: its pushed child, or -1 if its group is final. */
  function OwnerAfter(a: seq<nat>, i: nat, base: nat, maxPseudoSize: nat): int
    requires i < |a|
  {
    if maxPseudoSize < Count<nat>(a, a[i]) then base + |Oversized(a, a[i], maxPseudoSize)| else -1
  }

  ghost function PathVals(parent: Path, a: seq<nat>): (vals: seq<Path>)
    ensures |vals| == |a|
  {
    seq(|a|, i requires 0 <= i < |a| => parent + [a[i]])
  }

  function OwnerVals(a: seq<nat>, base: nat, maxPseudoSize: nat): (vals: seq<int>)
    ensures |vals| == |a|
  {
    seq(|a|, i requires 0 <= i < |a| => OwnerAfter(a, i, base, maxPseudoSize))
  }

  /** The bookkeeping after popping the top job and splitting it by `a`. */
  ghost function NextTracking(n: nat, maxPseudoSize: nat, current: seq<Option<string>>, stack: seq<Job>,
                              t: Tracking, a: seq<nat>, k: nat): Tracking
    requires StepPre(n, maxPseudoSize, current, stack, t, a, k)
  {
    var last := |stack| - 1;
    var sub := stack[last].cells;
    Tracking(
      UpdateAt(t.paths, sub, PathVals(t.prefixes[last], a)),
      UpdateAt(t.owner, sub, OwnerVals(a, last, maxPseudoSize)),
      t.prefixes[..last] + ChildPaths(t.prefixes[last], Oversized(a, k, maxPseudoSize)))
  }

  /** The stack after the step: the rest, then the oversized groups. */
  function NextStack(stack: seq<Job>, a: seq<nat>, k: nat, maxPseudoSize: nat): seq<Job>
    requires stack != [] && |a| == |stack[|stack| - 1].cells|
  {
    var top := stack[|stack| - 1];
    stack[..|stack| - 1] + Children(top.cells, a, top.prefix, Oversized(a, k, maxPseudoSize))
  }

  /** A cell outside the popped subset keeps its path, owner and label, and is not owned by the popped job. */
  lemma CellOutside(n: nat, maxPseudoSize: nat, current: seq<Option<string>>, stack: seq<Job>,
                    t: Tracking, a: seq<nat>, k: nat, p: nat)
    requires StepPre(n, maxPseudoSize, current, stack, t, a, k)
    requires p < n && p !in stack[|stack| - 1].cells
    ensures var t' := NextTracking(n, maxPseudoSize, current, stack, t, a, k);
      var top := stack[|stack| - 1];
      t'.paths[p] == t.paths[p] && t'.owner[p] == t.owner[p] && t.owner[p] != |stack| - 1 &&
      Relabel(current, top.cells, top.prefix, a)[p] == current[p]
  {
  }

  /** The `i`-th popped cell: its path grows by `a[i]`, it moves to its child or becomes final. */
  lemma CellInside(n: nat, maxPseudoSize: nat, current: seq<Option<string>>, stack: seq<Job>,
                   t: Tracking, a: seq<nat>, k: nat, i: nat)
    requires StepPre(n, maxPseudoSize, current, stack, t, a, k)
    requires i < |stack[|stack| - 1].cells|
    ensures var t' := NextTracking(n, maxPseudoSize, current, stack, t, a, k);
      var last := |stack| - 1;
      var top := stack[last];
      var p := top.cells[i];
      t.owner[p] == last && t.paths[p] == t.prefixes[last] &&
      t'.paths[p] == t.prefixes[last] + [a[i]] &&
      t'.owner[p] == OwnerAfter(a, i, last, maxPseudoSize) &&
      Relabel(current, top.cells, top.prefix, a)[p] == Some(Render(t.prefixes[last] + [a[i]]))
  {
    var last := |stack| - 1;
    var top := stack[last];
    var sub := top.cells;
    UpdateAtHit(t.paths, sub, PathVals(t.prefixes[last], a), i);
    UpdateAtHit(t.owner, sub, OwnerVals(a, last, maxPseudoSize), i);
    RelabelHit(current, sub, top.prefix, a, i);
    RenderSnoc(t.prefixes[last], a[i]);
  }

  // ------------------------------------------------------------ prefixes

  lemma PrefixOfChild(parent: Path, j: nat)
    ensures IsPrefix(parent, parent + [j])
  {
    assert (parent + [j])[..|parent|] == parent;
  }

  /** A path unrelated to `parent` is no prefix of a child of `parent`. */
  lemma NotPrefixOfChild(x: Path, parent: Path, j: nat)
    requires !IsPrefix(x, parent) && !IsPrefix(parent, x)
    ensures !IsPrefix(x, parent + [j])
  {
    var c := parent + [j];
    if |x| <= |parent| {
      assert c[..|x|] == parent[..|x|];
    } else if |x| == |c| {
      assert c[..|x|] == c;
      assert c[..|parent|] == parent;
    }
  }

  /** A child of `parent` is a prefix only of what `parent` is a prefix of. */
  lemma ChildNotPrefix(parent: Path, j: nat, y: Path)
    requires !IsPrefix(parent, y)
    ensures !IsPrefix(parent + [j], y)
  {
    var c := parent + [j];
    if |c| <= |y| {
      assert y[..|c|][..|parent|] == y[..|parent|];
      assert c[..|parent|] == parent;
    }
  }

  /** Two different children of the same parent are unrelated. */
  lemma SiblingsNotPrefix(parent: Path, j: nat, j2: nat)
    requires j != j2
    ensures !IsPrefix(parent + [j], parent + [j2])
  {
    assert (parent + [j])[|parent|] == j;
    assert (parent + [j2])[..|parent| + 1] == parent + [j2];
  }

  // ------------------------------------------------- the step keeps the invariant

  lemma JobsStep(n: nat, maxPseudoSize: nat, current: seq<Option<string>>, stack: seq<Job>,
                 t: Tracking, a: seq<nat>, k: nat)
    requires StepPre(n, maxPseudoSize, current, stack, t, a, k)
    ensures JobsOk(NextStack(stack, a, k, maxPseudoSize), NextTracking(n, maxPseudoSize, current, stack, t, a, k).prefixes, n)
  {
    var last := |stack| - 1;
    var top := stack[last];
    var sub, P := top.cells, t.prefixes[last];
    var js := Oversized(a, k, maxPseudoSize);
    var stack', t' := NextStack(stack, a, k, maxPseudoSize), NextTracking(n, maxPseudoSize, current, stack, t, a, k);
    forall e | 0 <= e < |stack'| ensures CellsOk(stack'[e].cells, n) && stack'[e].prefix == Render(t'.prefixes[e]) {
      if e < last {
        assert stack'[e] == stack[e] && t'.prefixes[e] == t.prefixes[e];
      } else {
        var j := js[e - last];
        var g := Select(sub, a, j);
        assert stack'[e] == Job(g, top.prefix + "|" + NatToString(j));
        assert t'.prefixes[e] == P + [j];
        RenderSnoc(P, j);
        SelectIncreasing(sub, a, j);
        forall i | 0 <= i < |g| ensures g[i] < n {
          assert g[i] in sub;
        }
      }
    }
  }

  /** Each cell's new owner is in range, and an owned cell lies in its owner's subset. */
  lemma OwnedCellsStep(n: nat, maxPseudoSize: nat, current: seq<Option<string>>, stack: seq<Job>,
                       t: Tracking, a: seq<nat>, k: nat)
    requires StepPre(n, maxPseudoSize, current, stack, t, a, k)
    ensures var stack', t' := NextStack(stack, a, k, maxPseudoSize), NextTracking(n, maxPseudoSize, current, stack, t, a, k);
      |t'.paths| == n && |t'.owner| == n &&
      forall p :: 0 <= p < n ==>
        -1 <= t'.owner[p] < |stack'| && (0 <= t'.owner[p] ==> p in stack'[t'.owner[p]].cells)
  {
    var stack', t' := NextStack(stack, a, k, maxPseudoSize), NextTracking(n, maxPseudoSize, current, stack, t, a, k);
    forall p | 0 <= p < n
      ensures -1 <= t'.owner[p] < |stack'|
      ensures 0 <= t'.owner[p] ==> p in stack'[t'.owner[p]].cells
    {
      OwnedCell(n, maxPseudoSize, current, stack, t, a, k, p);
    }
  }

  /** One cell's new owner is in range, and if it has one the cell lies in that owner's subset. */
  lemma OwnedCell(n: nat, maxPseudoSize: nat, current: seq<Option<string>>, stack: seq<Job>,
                  t: Tracking, a: seq<nat>, k: nat, p: nat)
    requires StepPre(n, maxPseudoSize, current, stack, t, a, k) && p < n
    ensures var stack', t' := NextStack(stack, a, k, maxPseudoSize), NextTracking(n, maxPseudoSize, current, stack, t, a, k);
      |t'.owner| == n &&
      -1 <= t'.owner[p] < |stack'| && (0 <= t'.owner[p] ==> p in stack'[t'.owner[p]].cells)
  {
    var last := |stack| - 1;
    var sub := stack[last].cells;
    var stack', t' := NextStack(stack, a, k, maxPseudoSize), NextTracking(n, maxPseudoSize, current, stack, t, a, k);
    if p in sub {
      var i :| 0 <= i < |sub| && sub[i] == p;
      CellInside(n, maxPseudoSize, current, stack, t, a, k, i);
      if maxPseudoSize < Count<nat>(a, a[i]) {
        var r := |Oversized(a, a[i], maxPseudoSize)|;
        OversizedRank(a, a[i], k, maxPseudoSize);
        assert stack'[last + r].cells == Select(sub, a, a[i]);
        SelectMember(sub, a, a[i], i);
      }
    } else {
      CellOutside(n, maxPseudoSize, current, stack, t, a, k, p);
      if 0 <= t.owner[p] {
        assert stack'[t.owner[p]] == stack[t.owner[p]];
      }
    }
  }

  /** A cell of a job below the popped one keeps its owner and path. */
  lemma OldJobCell(n: nat, maxPseudoSize: nat, current: seq<Option<string>>, stack: seq<Job>,
                   t: Tracking, a: seq<nat>, k: nat, e: nat, i: nat)
    requires StepPre(n, maxPseudoSize, current, stack, t, a, k)
    requires e < |stack| - 1 && i < |stack[e].cells|
    ensures var t' := NextTracking(n, maxPseudoSize, current, stack, t, a, k);
      var c := stack[e].cells[i];
      c < |t'.owner| && t'.owner[c] == e && t'.paths[c] == t.prefixes[e]
  {
    var last := |stack| - 1;
    var sub := stack[last].cells;
    var c := stack[e].cells[i];
    assert t.owner[c] == e;
    assert c !in sub by {
      forall i2 | 0 <= i2 < |sub| ensures sub[i2] != c {
        assert t.owner[sub[i2]] == last;
      }
    }
    CellOutside(n, maxPseudoSize, current, stack, t, a, k, c);
  }

  /** A cell of a pushed child is owned by that child and carries its path. */
  lemma NewJobCell(n: nat, maxPseudoSize: nat, current: seq<Option<string>>, stack: seq<Job>,
                   t: Tracking, a: seq<nat>, k: nat, r: nat, i: nat)
    requires StepPre(n, maxPseudoSize, current, stack, t, a, k)
    requires r < |Oversized(a, k, maxPseudoSize)|
    requires i < |Select(stack[|stack| - 1].cells, a, Oversized(a, k, maxPseudoSize)[r])|
    ensures var t' := NextTracking(n, maxPseudoSize, current, stack, t, a, k);
      var last := |stack| - 1;
      var j := Oversized(a, k, maxPseudoSize)[r];
      var c := Select(stack[last].cells, a, j)[i];
      c < |t'.owner| && t'.owner[c] == last + r && t'.paths[c] == t.prefixes[last] + [j]
  {
    var last := |stack| - 1;
    var sub := stack[last].cells;
    var j := Oversized(a, k, maxPseudoSize)[r];
    var c := Select(sub, a, j)[i];
    assert c in sub;
    var i2 :| 0 <= i2 < |sub| && sub[i2] == c;
    SelectMember(sub, a, j, i2);
    CellInside(n, maxPseudoSize, current, stack, t, a, k, i2);
    OversizedRankInverse(a, k, maxPseudoSize, r);
  }

  /** Every cell of every pending job is owned by that job and carries its path. */
  lemma OwnedJobsStep(n: nat, maxPseudoSize: nat, current: seq<Option<string>>, stack: seq<Job>,
                      t: Tracking, a: seq<nat>, k: nat)
    requires StepPre(n, maxPseudoSize, current, stack, t, a, k)
    ensures var stack', t' := NextStack(stack, a, k, maxPseudoSize), NextTracking(n, maxPseudoSize, current, stack, t, a, k);
      forall e, i :: 0 <= e < |stack'| && 0 <= i < |stack'[e].cells| ==>
        stack'[e].cells[i] < |t'.owner| &&
        t'.owner[stack'[e].cells[i]] == e && t'.paths[stack'[e].cells[i]] == t'.prefixes[e]
  {
    var stack', t' := NextStack(stack, a, k, maxPseudoSize), NextTracking(n, maxPseudoSize, current, stack, t, a, k);
    forall e, i | 0 <= e < |stack'| && 0 <= i < |stack'[e].cells|
      ensures stack'[e].cells[i] < |t'.owner|
      ensures t'.owner[stack'[e].cells[i]] == e && t'.paths[stack'[e].cells[i]] == t'.prefixes[e]
    {
      OwnedJobCell(n, maxPseudoSize, current, stack, t, a, k, e, i);
    }
  }

  /** The `i`-th cell of pending job `e` is owned by that job and carries its path. */
  lemma OwnedJobCell(n: nat, maxPseudoSize: nat, current: seq<Option<string>>, stack: seq<Job>,
                     t: Tracking, a: seq<nat>, k: nat, e: nat, i: nat)
    requires StepPre(n, maxPseudoSize, current, stack, t, a, k)
    requires var stack' := NextStack(stack, a, k, maxPseudoSize); e < |stack'| && i < |stack'[e].cells|
    ensures var stack', t' := NextStack(stack, a, k, maxPseudoSize), NextTracking(n, maxPseudoSize, current, stack, t, a, k);
      stack'[e].cells[i] < |t'.owner| &&
      t'.owner[stack'[e].cells[i]] == e && t'.paths[stack'[e].cells[i]] == t'.prefixes[e]
  {
    var last := |stack| - 1;
    var sub, P := stack[last].cells, t.prefixes[last];
    var js := Oversized(a, k, maxPseudoSize);
    var stack', t' := NextStack(stack, a, k, maxPseudoSize), NextTracking(n, maxPseudoSize, current, stack, t, a, k);
    if e < last {
      assert stack'[e] == stack[e] && t'.prefixes[e] == t.prefixes[e];
      OldJobCell(n, maxPseudoSize, current, stack, t, a, k, e, i);
    } else {
      var r := e - last;
      assert stack'[e].cells == Select(sub, a, js[r]);
      assert t'.prefixes[e] == P + [js[r]];
      NewJobCell(n, maxPseudoSize, current, stack, t, a, k, r, i);
    }
  }

  lemma OwnedStep(n: nat, maxPseudoSize: nat, current: seq<Option<string>>, stack: seq<Job>,
                  t: Tracking, a: seq<nat>, k: nat)
    requires StepPre(n, maxPseudoSize, current, stack, t, a, k)
    ensures JobsOk(NextStack(stack, a, k, maxPseudoSize), NextTracking(n, maxPseudoSize, current, stack, t, a, k).prefixes, n)
    ensures Owned(NextStack(stack, a, k, maxPseudoSize), NextTracking(n, maxPseudoSize, current, stack, t, a, k), n)
  {
    JobsStep(n, maxPseudoSize, current, stack, t, a, k);
    OwnedCellsStep(n, maxPseudoSize, current, stack, t, a, k);
    OwnedJobsStep(n, maxPseudoSize, current, stack, t, a, k);
  }

  lemma LabelsStep(n: nat, maxPseudoSize: nat, current: seq<Option<string>>, stack: seq<Job>,
                   t: Tracking, a: seq<nat>, k: nat)
    requires StepPre(n, maxPseudoSize, current, stack, t, a, k)
    ensures var top := stack[|stack| - 1];
      LabelsMatch(Relabel(current, top.cells, top.prefix, a), NextTracking(n, maxPseudoSize, current, stack, t, a, k).paths)
  {
    var top := stack[|stack| - 1];
    var sub := top.cells;
    var c', t' := Relabel(current, sub, top.prefix, a), NextTracking(n, maxPseudoSize, current, stack, t, a, k);
    forall p | 0 <= p < n ensures c'[p] == if t'.paths[p] == [] then None else Some(Render(t'.paths[p])) {
      if p in sub {
        var i :| 0 <= i < |sub| && sub[i] == p;
        CellInside(n, maxPseudoSize, current, stack, t, a, k, i);
      } else {
        CellOutside(n, maxPseudoSize, current, stack, t, a, k, p);
      }
    }
  }

  lemma FinishedStep(n: nat, maxPseudoSize: nat, current: seq<Option<string>>, stack: seq<Job>,
                     t: Tracking, a: seq<nat>, k: nat)
    requires StepPre(n, maxPseudoSize, current, stack, t, a, k)
    ensures var t' := NextTracking(n, maxPseudoSize, current, stack, t, a, k);
      |t'.paths| == |t'.owner| && FinishedOk(t', maxPseudoSize)
  {
    var last := |stack| - 1;
    var sub, P := stack[last].cells, t.prefixes[last];
    var t' := NextTracking(n, maxPseudoSize, current, stack, t, a, k);
    forall q | 0 <= q < n && q !in sub ensures t'.owner[q] == t.owner[q] && t'.paths[q] == t.paths[q] {
      CellOutside(n, maxPseudoSize, current, stack, t, a, k, q);
    }
    forall i | 0 <= i < |sub| ensures t'.paths[sub[i]] == P + [a[i]] && IsPrefix(P, t'.paths[sub[i]]) {
      CellInside(n, maxPseudoSize, current, stack, t, a, k, i);
      PrefixOfChild(P, a[i]);
    }
    forall p | 0 <= p < n && t'.owner[p] == -1
      ensures 1 <= |t'.paths[p]| && |FinishedWith(t', t'.paths[p])| <= maxPseudoSize
    {
      if p in sub {
        var i :| 0 <= i < |sub| && sub[i] == p;
        CellInside(n, maxPseudoSize, current, stack, t, a, k, i);
        var j := a[i];
        var Q := P + [j];
        var g := Select(sub, a, j);
        PrefixOfChild(P, j);
        forall q | 0 <= q < n && q !in sub && t.owner[q] == -1 ensures t.paths[q] != Q {
          assert !IsPrefix(P, t.paths[q]);
        }
        forall q | q in FinishedWith(t', Q) ensures q in Elements(g) {
          assert q in sub;
          var i2 :| 0 <= i2 < |sub| && sub[i2] == q;
          assert (P + [a[i2]])[|P|] == a[i2];
          SelectMember(sub, a, j, i2);
        }
        SubsetCard(FinishedWith(t', Q), Elements(g));
        SelectIncreasing(sub, a, j);
        DistinctCard(g);
      } else {
        var Q := t.paths[p];
        assert !IsPrefix(P, Q);
        forall q | q in FinishedWith(t', Q) ensures q in FinishedWith(t, Q) {
          assert q !in sub;
        }
        SubsetCard(FinishedWith(t', Q), FinishedWith(t, Q));
      }
    }
  }

  lemma AntichainStep(n: nat, maxPseudoSize: nat, current: seq<Option<string>>, stack: seq<Job>,
                      t: Tracking, a: seq<nat>, k: nat)
    requires StepPre(n, maxPseudoSize, current, stack, t, a, k)
    ensures Antichain(NextTracking(n, maxPseudoSize, current, stack, t, a, k).prefixes)
  {
    var last := |stack| - 1;
    var P := t.prefixes[last];
    var js := Oversized(a, k, maxPseudoSize);
    var ps := NextTracking(n, maxPseudoSize, current, stack, t, a, k).prefixes;
    OversizedIncreasing(a, k, maxPseudoSize);
    forall e, f | 0 <= e < |ps| && 0 <= f < |ps| && e != f ensures !IsPrefix(ps[e], ps[f]) {
      if e < last && f < last {
        assert ps[e] == t.prefixes[e] && ps[f] == t.prefixes[f];
      } else if e < last {
        assert ps[e] == t.prefixes[e] && ps[f] == P + [js[f - last]];
        NotPrefixOfChild(t.prefixes[e], P, js[f - last]);
      } else if f < last {
        assert ps[e] == P + [js[e - last]] && ps[f] == t.prefixes[f];
        ChildNotPrefix(P, js[e - last], t.prefixes[f]);
      } else {
        assert ps[e] == P + [js[e - last]] && ps[f] == P + [js[f - last]];
        assert js[e - last] != js[f - last];
        SiblingsNotPrefix(P, js[e - last], js[f - last]);
      }
    }
  }

  lemma SeparatedStep(n: nat, maxPseudoSize: nat, current: seq<Option<string>>, stack: seq<Job>,
                      t: Tracking, a: seq<nat>, k: nat)
    requires StepPre(n, maxPseudoSize, current, stack, t, a, k)
    ensures var t' := NextTracking(n, maxPseudoSize, current, stack, t, a, k);
      |t'.paths| == |t'.owner| && Separated(t')
  {
    var last := |stack| - 1;
    var sub, P := stack[last].cells, t.prefixes[last];
    var js := Oversized(a, k, maxPseudoSize);
    var t' := NextTracking(n, maxPseudoSize, current, stack, t, a, k);
    forall p, e | 0 <= p < n && t'.owner[p] == -1 && 0 <= e < |t'.prefixes|
      ensures !IsPrefix(t'.prefixes[e], t'.paths[p])
    {
      if p in sub {
        var i :| 0 <= i < |sub| && sub[i] == p;
        CellInside(n, maxPseudoSize, current, stack, t, a, k, i);
        if e < last {
          assert t'.prefixes[e] == t.prefixes[e];
          NotPrefixOfChild(t.prefixes[e], P, a[i]);
        } else {
          var j := js[e - last];
          assert t'.prefixes[e] == P + [j];
          assert maxPseudoSize < Count<nat>(a, j);
          SiblingsNotPrefix(P, j, a[i]);
        }
      } else {
        CellOutside(n, maxPseudoSize, current, stack, t, a, k, p);
        if e < last {
          assert t'.prefixes[e] == t.prefixes[e];
        } else {
          assert t'.prefixes[e] == P + [js[e - last]];
          ChildNotPrefix(P, js[e - last], t.paths[p]);
        }
      }
    }
  }

  /** One iteration of the loop keeps the invariant. */
  lemma StepPreservesInv(n: nat, maxPseudoSize: nat, current: seq<Option<string>>, stack: seq<Job>,
                         t: Tracking, a: seq<nat>, k: nat)
    requires StepPre(n, maxPseudoSize, current, stack, t, a, k)
    ensures var top := stack[|stack| - 1];
      Inv(n, maxPseudoSize, Relabel(current, top.cells, top.prefix, a), NextStack(stack, a, k, maxPseudoSize),
          NextTracking(n, maxPseudoSize, current, stack, t, a, k))
  {
    OwnedStep(n, maxPseudoSize, current, stack, t, a, k);
    LabelsStep(n, maxPseudoSize, current, stack, t, a, k);
    FinishedStep(n, maxPseudoSize, current, stack, t, a, k);
    AntichainStep(n, maxPseudoSize, current, stack, t, a, k);
    SeparatedStep(n, maxPseudoSize, current, stack, t, a, k);
  }

  // ------------------------------------------------- jobs are nodes of the tree

  /**
   * Each pending job holds exactly the cells of the tree node its path names,
   * a node larger than `mps` unless it is the root, and each final cell is
   * settled on its path.
   */
  ghost predicate NodeInv(matrix: seq<Row>, mps: nat, maxK: nat, kmeans: (seq<Row>, nat) -> seq<nat>,
                          stack: seq<Job>, t: Tracking)
  {
    1 <= mps && 2 <= maxK && KMeansContract(kmeans, mps) &&
    |t.prefixes| == |stack| && |t.paths| == |matrix| && |t.owner| == |matrix| &&
    (forall e :: 0 <= e < |stack| ==>
       stack[e].cells == Node(matrix, mps, maxK, kmeans, t.prefixes[e]) &&
       (t.prefixes[e] != [] ==> mps < |stack[e].cells|) &&
       Reached(matrix, mps, maxK, kmeans, t.prefixes[e], |t.prefixes[e]|)) &&
    (forall p :: 0 <= p < |matrix| && t.owner[p] == -1 ==> Settled(matrix, mps, maxK, kmeans, t.paths[p], p))
  }

  /** What a step of the loop adds to `StepPre`: the k-means answer for the popped job. */
  ghost predicate NodeStepPre(matrix: seq<Row>, mps: nat, maxK: nat, kmeans: (seq<Row>, nat) -> seq<nat>,
                              current: seq<Option<string>>, stack: seq<Job>, t: Tracking, a: seq<nat>, k: nat)
  {
    StepPre(|matrix|, mps, current, stack, t, a, k) && NodeInv(matrix, mps, maxK, kmeans, stack, t) &&
    k == SplitFactor(|stack[|stack| - 1].cells|, mps, maxK) &&
    a == Assign(matrix, mps, maxK, kmeans, stack[|stack| - 1].cells)
  }

  /** The pushed children are the tree nodes below the popped one that are larger than `mps`. */
  lemma NodeJobsStep(matrix: seq<Row>, mps: nat, maxK: nat, kmeans: (seq<Row>, nat) -> seq<nat>,
                     current: seq<Option<string>>, stack: seq<Job>, t: Tracking, a: seq<nat>, k: nat)
    requires NodeStepPre(matrix, mps, maxK, kmeans, current, stack, t, a, k)
    ensures var stack' := NextStack(stack, a, k, mps);
      var t' := NextTracking(|matrix|, mps, current, stack, t, a, k);
      |t'.prefixes| == |stack'| &&
      forall e :: 0 <= e < |stack'| ==>
        stack'[e].cells == Node(matrix, mps, maxK, kmeans, t'.prefixes[e]) &&
        (t'.prefixes[e] != [] ==> mps < |stack'[e].cells|) &&
        Reached(matrix, mps, maxK, kmeans, t'.prefixes[e], |t'.prefixes[e]|)
  {
    var n := |matrix|;
    var last := |stack| - 1;
    var sub, P := stack[last].cells, t.prefixes[last];
    var js := Oversized(a, k, mps);
    var stack', t' := NextStack(stack, a, k, mps), NextTracking(n, mps, current, stack, t, a, k);
    forall e | 0 <= e < |stack'|
      ensures stack'[e].cells == Node(matrix, mps, maxK, kmeans, t'.prefixes[e]) &&
        (t'.prefixes[e] != [] ==> mps < |stack'[e].cells|) &&
        Reached(matrix, mps, maxK, kmeans, t'.prefixes[e], |t'.prefixes[e]|)
    {
      if e < last {
        assert stack'[e] == stack[e] && t'.prefixes[e] == t.prefixes[e];
      } else {
        var j := js[e - last];
        assert stack'[e].cells == Select(sub, a, j);
        assert t'.prefixes[e] == P + [j];
        NodeSnoc(matrix, mps, maxK, kmeans, P, j);
        ChildReached(matrix, mps, maxK, kmeans, P, j);
      }
    }
  }

  /** A popped cell whose group is small enough is settled on its parent's path plus its cluster. */
  lemma NodeFinalInside(matrix: seq<Row>, mps: nat, maxK: nat, kmeans: (seq<Row>, nat) -> seq<nat>,
                        current: seq<Option<string>>, stack: seq<Job>, t: Tracking, a: seq<nat>, k: nat, i: nat)
    requires NodeStepPre(matrix, mps, maxK, kmeans, current, stack, t, a, k)
    requires i < |stack[|stack| - 1].cells| && Count<nat>(a, a[i]) <= mps
    ensures Settled(matrix, mps, maxK, kmeans, t.prefixes[|stack| - 1] + [a[i]], stack[|stack| - 1].cells[i])
  {
    var last := |stack| - 1;
    var sub, P := stack[last].cells, t.prefixes[last];
    assert sub == Node(matrix, mps, maxK, kmeans, P);
    assert CellsOk(sub, |matrix|);
    NodeSnoc(matrix, mps, maxK, kmeans, P, a[i]);
    SelectMember(sub, a, a[i], i);
    ChildReached(matrix, mps, maxK, kmeans, P, a[i]);
  }

  /** A cell made final by the step is settled on its new path; other final cells are untouched. */
  lemma NodeFinalStep(matrix: seq<Row>, mps: nat, maxK: nat, kmeans: (seq<Row>, nat) -> seq<nat>,
                      current: seq<Option<string>>, stack: seq<Job>, t: Tracking, a: seq<nat>, k: nat, p: nat)
    requires NodeStepPre(matrix, mps, maxK, kmeans, current, stack, t, a, k)
    requires p < |matrix| && NextTracking(|matrix|, mps, current, stack, t, a, k).owner[p] == -1
    ensures Settled(matrix, mps, maxK, kmeans, NextTracking(|matrix|, mps, current, stack, t, a, k).paths[p], p)
  {
    var last := |stack| - 1;
    var sub := stack[last].cells;
    if p in sub {
      var i := IndexIn(sub, p);
      CellInside(|matrix|, mps, current, stack, t, a, k, i);
      NodeFinalInside(matrix, mps, maxK, kmeans, current, stack, t, a, k, i);
    } else {
      CellOutside(|matrix|, mps, current, stack, t, a, k, p);
    }
  }

  lemma NodeStep(matrix: seq<Row>, mps: nat, maxK: nat, kmeans: (seq<Row>, nat) -> seq<nat>,
                 current: seq<Option<string>>, stack: seq<Job>, t: Tracking, a: seq<nat>, k: nat)
    requires NodeStepPre(matrix, mps, maxK, kmeans, current, stack, t, a, k)
    ensures NodeInv(matrix, mps, maxK, kmeans, NextStack(stack, a, k, mps),
                    NextTracking(|matrix|, mps, current, stack, t, a, k))
  {
    NodeJobsStep(matrix, mps, maxK, kmeans, current, stack, t, a, k);
    OwnedCellsStep(|matrix|, mps, current, stack, t, a, k);
    forall p | 0 <= p < |matrix| && NextTracking(|matrix|, mps, current, stack, t, a, k).owner[p] == -1
      ensures Settled(matrix, mps, maxK, kmeans, NextTracking(|matrix|, mps, current, stack, t, a, k).paths[p], p)
    {
      NodeFinalStep(matrix, mps, maxK, kmeans, current, stack, t, a, k, p);
    }
  }

  // ------------------------------------------------------------ the loop

  /** Once no job is pending, the cells sharing a label are exactly the final cells of one path. */
  lemma FinalGroups(n: nat, maxPseudoSize: nat, current: seq<Option<string>>, t: Tracking, labels: seq<string>)
    requires Inv(n, maxPseudoSize, current, [], t)
    requires |labels| == n && forall p :: 0 <= p < n ==> labels[p] == Render(t.paths[p])
    ensures forall p :: 0 <= p < n ==> Count(labels, labels[p]) <= maxPseudoSize
  {
    forall p | 0 <= p < n ensures Count(labels, labels[p]) <= maxPseudoSize {
      var q := t.paths[p];
      forall r | r in Members(labels, labels[p]) ensures r in FinishedWith(t, q) {
        RenderInjective(t.paths[r], q);
      }
      forall r | r in FinishedWith(t, q) ensures r in Members(labels, labels[p]) {
      }
      assert Members(labels, labels[p]) == FinishedWith(t, q);
      CountIsMembers(labels, labels[p]);
    }
  }

  /** The loop starts with one job holding every cell under the empty prefix, and no labels. */
  lemma InitInv(n: nat, maxPseudoSize: nat)
    requires 1 <= n
    ensures Inv(n, maxPseudoSize, seq(n, _ => None), [Job(Range(n), "")], Tracking(seq(n, _ => []), seq(n, _ => 0), [[]]))
  {
    assert Render([]) == "";
    forall p | 0 <= p < n ensures p in Range(n) {
      assert Range(n)[p] == p;
    }
  }

  /** A step pops a job and pushes groups whose squared sizes add up to less than the popped subset's square. */
  lemma StepDecreases(stack: seq<Job>, a: seq<nat>, k: nat, maxPseudoSize: nat)
    requires stack != [] && 1 <= maxPseudoSize && 1 <= |stack[|stack| - 1].cells|
    requires Fits(a, |stack[|stack| - 1].cells|, k)
    requires maxPseudoSize < |stack[|stack| - 1].cells| ==> 2 <= k && !Constant(a)
    ensures SumSq(NextStack(stack, a, k, maxPseudoSize)) < SumSq(stack)
  {
    var top := stack[|stack| - 1];
    var rest := stack[..|stack| - 1];
    SplitShrinks(top.cells, a, top.prefix, k, maxPseudoSize);
    assert stack == rest + [top];
    SumSqAppend(rest, [top]);
    SumSqSingle(top);
    SumSqAppend(rest, Children(top.cells, a, top.prefix, Oversized(a, k, maxPseudoSize)));
  }

  /** With no job left every cell is labelled, and its label renders its path. */
  lemma FinalLabels(n: nat, maxPseudoSize: nat, current: seq<Option<string>>, t: Tracking, labels: seq<string>)
    requires Inv(n, maxPseudoSize, current, [], t)
    requires labels == seq(n, p requires 0 <= p < n => if current[p].Some? then current[p].value else "")
    ensures |t.paths| == n
    ensures forall p :: 0 <= p < n ==> 1 <= |t.paths[p]| && labels[p] == Render(t.paths[p])
    ensures forall p :: 0 <= p < n ==> Count(labels, labels[p]) <= maxPseudoSize
  {
    FinalGroups(n, maxPseudoSize, current, t, labels);
  }

  /** At the start the only job is the root node, and no cell is final. */
  lemma InitNodeInv(matrix: seq<Row>, mps: nat, maxK: nat, kmeans: (seq<Row>, nat) -> seq<nat>)
    requires 1 <= mps && 2 <= maxK && KMeansContract(kmeans, mps)
    ensures var n := |matrix|;
      NodeInv(matrix, mps, maxK, kmeans, [Job(Range(n), "")], Tracking(seq(n, _ => []), seq(n, _ => 0), [[]]))
  {
    assert Node(matrix, mps, maxK, kmeans, []) == Range(|matrix|);
  }

  /** With no job left every cell is settled, so its label is the one `Division` gives it. */
  lemma FinalDivision(matrix: seq<Row>, mps: nat, maxK: nat, kmeans: (seq<Row>, nat) -> seq<nat>,
                      current: seq<Option<string>>, t: Tracking, labels: seq<string>)
    requires Inv(|matrix|, mps, current, [], t) && NodeInv(matrix, mps, maxK, kmeans, [], t) && 1 < mps
    requires |labels| == |matrix| && forall p :: 0 <= p < |matrix| ==> labels[p] == Render(t.paths[p])
    ensures labels == Division(matrix, mps, maxK, kmeans)
  {
    forall p | 0 <= p < |matrix| ensures labels[p] == Render(PathOf(matrix, mps, maxK, kmeans, p)) {
      assert t.owner[p] == -1;
      PathOfSettled(matrix, mps, maxK, kmeans, p, t.paths[p]);
    }
  }

  /**
   * `_kmeans_division`: label every row of `matrix` so that rows sharing a
   * label form a group of at most `maxPseudoSize` rows. A label is the path
   * of k-means indices that led to the row, rendered as `"|j1|j2..."`.
   * `kmeans` stands for MiniBatchKMeans: given rows and `k` it returns one
   * cluster index per row. The labels are those of the tree `Division`
   * describes, whatever order the stack visits it in.
   */
  method Divide(matrix: seq<Row>, maxPseudoSize: int, maxK: nat, kmeans: (seq<Row>, nat) -> seq<nat>)
    returns (labels: seq<string>)
    requires 2 <= maxK && (1 < maxPseudoSize ==> KMeansContract(kmeans, maxPseudoSize))
    requires 1 < maxPseudoSize ==> 1 <= |matrix|
    ensures labels == Division(matrix, maxPseudoSize, maxK, kmeans)
    ensures 1 < maxPseudoSize ==> forall p :: 0 <= p < |matrix| ==> Count(labels, labels[p]) <= maxPseudoSize
  {
    var n := |matrix|;
    if maxPseudoSize <= 1 {
      labels := DegenerateLabels(n);
      return;
    }
    var mps: nat := maxPseudoSize;
    var current: seq<Option<string>> := seq(n, _ => None);
    var toProcess := [Job(Range(n), "")];
    ghost var t := Tracking(seq(n, _ => []), seq(n, _ => 0), [[]]);
    InitInv(n, mps);
    InitNodeInv(matrix, mps, maxK, kmeans);
    while toProcess != []
      invariant Inv(n, mps, current, toProcess, t)
      invariant NodeInv(matrix, mps, maxK, kmeans, toProcess, t)
      decreases SumSq(toProcess)
    {
      var top := toProcess[|toProcess| - 1];
      var rest := toProcess[..|toProcess| - 1];
      var sub := top.cells;
      var k := SplitFactor(|sub|, mps, maxK);
      var a := kmeans(Rows(matrix, sub), k);
      assert a == Assign(matrix, mps, maxK, kmeans, sub);
      StepPreservesInv(n, mps, current, toProcess, t, a, k);
      NodeStep(matrix, mps, maxK, kmeans, current, toProcess, t, a, k);
      StepDecreases(toProcess, a, k, mps);
      t := NextTracking(n, mps, current, toProcess, t, a, k);
      current := Relabel(current, sub, top.prefix, a);
      toProcess := PushOversized(rest, sub, a, top.prefix, k, mps);
    }
    labels := seq(n, p requires 0 <= p < n => if current[p].Some? then current[p].value else "");
    FinalLabels(n, mps, current, t, labels);
    FinalDivision(matrix, mps, maxK, kmeans, current, t, labels);
  }
}
