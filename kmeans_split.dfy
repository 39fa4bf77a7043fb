/**
 * One split of the size-bounded partitioner `_kmeans_division` of
 * ALLCools/pseudo_cell/pseudo_cell_kmeans.py: the labels it writes, the
 * split factor, the k-means oracle, the groups of a split and the jobs it
 * pushes back, and the measure that makes the worklist loop terminate.
 *
 * Cells are the rows of the embedding matrix, identified by their position;
 * a subset of cells is a strictly increasing sequence of positions, so its
 * rows come out in the original order, as `cells.isin(curr_cells)` does.
 */
module KMeansSplit {
  import opened Wrappers
  import opened Text
  import opened Counting

  /** One row of the embedding matrix (e.g. principal components). */
  type Row = seq<real>

  /** The default bound on the number of clusters of one split (`max_k=50`). */
  const DefaultMaxK: nat := 50

  /** A root-to-leaf path through the partition tree: one k-means index per split. */
  type Path = seq<nat>

  /** A pending job of the worklist: a subset of cell positions and its label prefix. */
  datatype Job = Job(cells: seq<nat>, prefix: string)

  // ---------------------------------------------------------------- labels

  /** The label of a path: `"|" + str(j)` for each split index `j`, root first. */
  function Render(path: Path): (s: string)
    ensures ':' !in s && '.' !in s
    ensures 1 <= |path| ==> 2 <= |s|
  {
    if path == [] then ""
    else Render(path[..|path| - 1]) + "|" + NatToString(path[|path| - 1])
  }

  lemma RenderSnoc(path: Path, j: nat)
    ensures Render(path + [j]) == Render(path) + "|" + NatToString(j)
  {
    assert (path + [j])[..|path|] == path;
  }

  /** A string cut at its last `'|'`: what precedes it and what follows it are determined. */
  lemma LastBar(a: string, d: string, b: string, e: string)
    requires '|' !in d && '|' !in e && a + "|" + d == b + "|" + e
    ensures a == b && d == e
  {
    var s := a + "|" + d;
    var t := b + "|" + e;
    assert forall i :: |s| - |d| <= i < |s| ==> s[i] == d[i - (|s| - |d|)] != '|';
    assert forall i :: |t| - |e| <= i < |t| ==> t[i] == e[i - (|t| - |e|)] != '|';
    assert s[|s| - |d| - 1] == '|' && t[|t| - |e| - 1] == '|';
    assert |d| == |e|;
    assert d == s[|s| - |d|..];
    assert e == t[|t| - |e|..];
    assert a == s[..|a|];
    assert b == t[..|b|];
  }

  /** Different paths give different labels. */
  lemma {:induction false} RenderInjective(p: Path, q: Path)
    requires Render(p) == Render(q)
    ensures p == q
    decreases |p|
  {
    if p == [] || q == [] {
      assert |Render(p)| == |Render(q)|;
    } else {
      var p0, x := p[..|p| - 1], p[|p| - 1];
      var q0, y := q[..|q| - 1], q[|q| - 1];
      var dx, dy := NatToString(x), NatToString(y);
      assert '|' !in dx by { assert forall i :: 0 <= i < |dx| ==> IsDigit(dx[i]); }
      assert '|' !in dy by { assert forall i :: 0 <= i < |dy| ==> IsDigit(dy[i]); }
      LastBar(Render(p0), dx, Render(q0), dy);
      NatToStringInjective(x, y);
      RenderInjective(p0, q0);
    }
  }

  /** `a` is a prefix of `b`. */
  predicate IsPrefix(a: Path, b: Path) {
    |a| <= |b| && b[..|a|] == a
  }

  // -------------------------------------------------- the degenerate case

  /** With `max_pseudo_size <= 1` no clustering: cell `i` is labelled `"|" + str(i)`. */
  function DegenerateLabels(n: nat): (labels: seq<string>)
    ensures |labels| == n
    ensures forall i :: 0 <= i < n ==> labels[i] == Render([i])
  {
    seq(n, (i: nat) => "|" + NatToString(i))
  }

  /** In the degenerate case every cell is a group of its own. */
  lemma DegenerateLabelsDistinct(n: nat, i: nat, j: nat)
    requires i < n && j < n && i != j
    ensures DegenerateLabels(n)[i] != DegenerateLabels(n)[j]
  {
    if DegenerateLabels(n)[i] == DegenerateLabels(n)[j] {
      RenderInjective([i], [j]);
    }
  }

  lemma DegenerateCount(n: nat, i: nat)
    requires i < n
    ensures Count(DegenerateLabels(n), DegenerateLabels(n)[i]) == 1
  {
    var labels := DegenerateLabels(n);
    forall j | 0 <= j < n && j != i ensures labels[j] != labels[i] {
      DegenerateLabelsDistinct(n, j, i);
    }
    assert Members(labels, labels[i]) == {i};
    CountIsMembers(labels, labels[i]);
  }

  // ------------------------------------------------------------ relabelling

  /** `s` with position `sub[i]` overwritten by `vals[i]`, for each `i`: a `.loc` write. */
  function UpdateAt<T>(s: seq<T>, sub: seq<nat>, vals: seq<T>): (r: seq<T>)
    requires |vals| == |sub| && forall i :: 0 <= i < |sub| ==> sub[i] < |s|
    ensures |r| == |s|
    ensures forall p :: 0 <= p < |s| && p !in sub ==> r[p] == s[p]
    decreases |sub|
  {
    if sub == [] then s
    else
      var r := UpdateAt(s, sub[..|sub| - 1], vals[..|vals| - 1]);
      assert forall p :: 0 <= p < |s| && p !in sub ==> p !in sub[..|sub| - 1] by {
        forall p | 0 <= p < |s| && p in sub[..|sub| - 1] ensures p in sub {
          var i :| 0 <= i < |sub| - 1 && sub[..|sub| - 1][i] == p;
          assert sub[i] == p;
        }
      }
      r[sub[|sub| - 1] := vals[|vals| - 1]]
  }

  /** With distinct positions, position `sub[i]` ends up holding `vals[i]`. */
  lemma {:induction false} UpdateAtHit<T>(s: seq<T>, sub: seq<nat>, vals: seq<T>, i: nat)
    requires |vals| == |sub| && forall i :: 0 <= i < |sub| ==> sub[i] < |s|
    requires StrictlyIncreasing(sub) && i < |sub|
    ensures UpdateAt(s, sub, vals)[sub[i]] == vals[i]
    decreases |sub|
  {
    if i < |sub| - 1 {
      assert StrictlyIncreasing(sub[..|sub| - 1]);
      UpdateAtHit(s, sub[..|sub| - 1], vals[..|vals| - 1], i);
      assert sub[i] != sub[|sub| - 1];
    }
  }

  /**
   * `labels.loc[curr_cells] = curr_prefix + '|' + str(mbk.labels_)`: the
   * `i`-th cell of the popped subset gets its cluster index appended to the
   * subset's prefix; every other cell keeps its label.
   */
  function Relabel(labels: seq<Option<string>>, sub: seq<nat>, prefix: string, a: seq<nat>): (r: seq<Option<string>>)
    requires |a| == |sub| && forall i :: 0 <= i < |sub| ==> sub[i] < |labels|
    ensures |r| == |labels|
    ensures forall p :: 0 <= p < |labels| && p !in sub ==> r[p] == labels[p]
  {
    UpdateAt(labels, sub, seq(|sub|, i requires 0 <= i < |sub| => Some(prefix + "|" + NatToString(a[i]))))
  }

  /** Every cell of the popped subset gets `prefix + "|" + j` for its cluster `j`. */
  lemma RelabelHit(labels: seq<Option<string>>, sub: seq<nat>, prefix: string, a: seq<nat>, i: nat)
    requires |a| == |sub| && forall i :: 0 <= i < |sub| ==> sub[i] < |labels|
    requires StrictlyIncreasing(sub) && i < |sub|
    ensures Relabel(labels, sub, prefix, a)[sub[i]] == Some(prefix + "|" + NatToString(a[i]))
  {
    UpdateAtHit(labels, sub, seq(|sub|, i requires 0 <= i < |sub| => Some(prefix + "|" + NatToString(a[i]))), i);
  }

  // ------------------------------------------------------ the split factor

  /**
   * `k = min(len(curr_cells) // max_pseudo_size + 1, max_k)`: enough clusters
   * of `max_pseudo_size` cells to hold the subset, but never more than `max_k`.
   */
  function SplitFactor(n: nat, maxPseudoSize: nat, maxK: nat): (k: nat)
    requires 1 <= maxPseudoSize && 1 <= maxK
    ensures 1 <= k <= maxK
    ensures maxPseudoSize <= n && 2 <= maxK ==> 2 <= k
    ensures k < maxK ==> n < k * maxPseudoSize
  {
    var q := n / maxPseudoSize;
    assert n < (q + 1) * maxPseudoSize;
    if q + 1 < maxK then q + 1 else maxK
  }

  // ---------------------------------------------------------- the oracle

  /** `a` assigns each of `m` rows a cluster index below `k`. */
  predicate Fits(a: seq<nat>, m: nat, k: nat) {
    |a| == m && forall i :: 0 <= i < m ==> a[i] < k
  }

  /** Every row was put in the same cluster. */
  predicate Constant(a: seq<nat>) {
    forall i :: 0 <= i < |a| ==> a[i] == a[0]
  }

  /**
   * What the model relies on from MiniBatchKMeans (random_state=0 makes it a
   * deterministic function of the rows and k), for the cap
   * `maxPseudoSize`: it labels every row with an index in [0, k), and asked
   * for two or more clusters of more than `maxPseudoSize` rows it does not
   * put every row in one cluster. Rows that are all identical break the
   * last property, and on them the source re-queues an unchanged subset
   * forever (`ConstantRequeues`).
   */
  ghost predicate KMeansContract(kmeans: (seq<Row>, nat) -> seq<nat>, maxPseudoSize: int)
  {
    forall rows: seq<Row>, k: nat {:trigger kmeans(rows, k)} ::
      1 <= k ==>
        Fits(kmeans(rows, k), |rows|, k) &&
        (2 <= k && maxPseudoSize < |rows| ==> !Constant(kmeans(rows, k)))
  }

  /**
   * A stand-in k-means that lumps subsets of at most `maxPseudoSize` rows
   * into cluster 0 and, asked for two or more clusters of a larger subset,
   * puts its second row in cluster 1 and the rest in cluster 0.
   */
  function LumpSmall(maxPseudoSize: int, rows: seq<Row>, k: nat): (a: seq<nat>)
    ensures 1 <= k ==> Fits(a, |rows|, k)
    ensures |rows| <= maxPseudoSize ==> Constant(a)
    ensures 2 <= k && maxPseudoSize < |rows| && 2 <= |rows| ==> a[0] == 0 && a[1] == 1
  {
    seq(|rows|, i requires 0 <= i < |rows| => if maxPseudoSize < |rows| && 2 <= k && i == 1 then 1 else 0)
  }

  /**
   * The contract leaves k-means free to put every row of a subset of
   * exactly `maxPseudoSize` rows in one cluster (the root of a cluster
   * whose size equals its cap is still split once).
   */
  lemma ContractAllowsLumpAtCap(maxPseudoSize: nat, rows: seq<Row>)
    requires 1 <= maxPseudoSize && |rows| == maxPseudoSize
    ensures KMeansContract((rs: seq<Row>, k: nat) => LumpSmall(maxPseudoSize, rs, k), maxPseudoSize)
    ensures Constant(LumpSmall(maxPseudoSize, rows, 2))
  {
  }

  /** `matrix[cells.isin(sub)]`: the rows of the subset, in the original order. */
  function Rows(matrix: seq<Row>, sub: seq<nat>): (rows: seq<Row>)
    requires forall i :: 0 <= i < |sub| ==> sub[i] < |matrix|
    ensures |rows| == |sub|
  {
    seq(|sub|, i requires 0 <= i < |sub| => matrix[sub[i]])
  }

  // ------------------------------------------------------------ grouping

  /** The cells of `sub` that k-means put in cluster `j`, in their order in `sub`. */
  function Select(sub: seq<nat>, a: seq<nat>, j: nat): (g: seq<nat>)
    requires |a| == |sub|
    ensures |g| == Count<nat>(a, j)
    ensures forall x :: x in g ==> x in sub
    decreases |sub|
  {
    if sub == [] then []
    else
      var g := Select(sub[..|sub| - 1], a[..|a| - 1], j);
      assert forall x :: x in g ==> x in sub by {
        forall x | x in g ensures x in sub {
          assert x in sub[..|sub| - 1];
        }
      }
      g + (if a[|a| - 1] == j then [sub[|sub| - 1]] else [])
  }

  /** A group keeps the order of the subset. */
  lemma {:induction false} SelectIncreasing(sub: seq<nat>, a: seq<nat>, j: nat)
    requires |a| == |sub| && StrictlyIncreasing(sub)
    ensures StrictlyIncreasing(Select(sub, a, j))
    decreases |sub|
  {
    if sub != [] {
      var init, last := sub[..|sub| - 1], sub[|sub| - 1];
      var g := Select(init, a[..|a| - 1], j);
      assert StrictlyIncreasing(init);
      SelectIncreasing(init, a[..|a| - 1], j);
      forall x | x in g ensures x < last {
        var i :| 0 <= i < |init| && init[i] == x;
      }
      SnocIncreasing(g, last);
      if a[|a| - 1] != j {
        assert Select(sub, a, j) == g + [];
      }
    }
  }

  lemma SnocIncreasing(g: seq<nat>, x: nat)
    requires StrictlyIncreasing(g) && forall y :: y in g ==> y < x
    ensures StrictlyIncreasing(g + [x])
  {
    forall i, j | 0 <= i < j < |g| + 1 ensures (g + [x])[i] < (g + [x])[j] {
      if j == |g| {
        assert g[i] in g;
      }
    }
  }

  /** A cell of the subset lands in group `j` exactly when k-means gave it `j`. */
  lemma {:induction false} SelectMember(sub: seq<nat>, a: seq<nat>, j: nat, i: nat)
    requires |a| == |sub| && StrictlyIncreasing(sub) && i < |sub|
    ensures sub[i] in Select(sub, a, j) <==> a[i] == j
    decreases |sub|
  {
    var init := sub[..|sub| - 1];
    var g := Select(init, a[..|a| - 1], j);
    assert StrictlyIncreasing(init);
    if i < |sub| - 1 {
      SelectMember(init, a[..|a| - 1], j, i);
      assert sub[i] != sub[|sub| - 1];
    } else {
      assert sub[i] !in g;
    }
  }

  /** Not every row in one cluster: every group is smaller than the subset. */
  lemma CountNotAll(a: seq<nat>, j: nat)
    requires 1 <= |a| && !Constant(a)
    ensures Count<nat>(a, j) < |a|
  {
    var i :| 0 <= i < |a| && a[i] != a[0];
    var w := if a[0] != j then 0 else i;
    assert a[w] != j;
    CountMissing(a, j, w);
  }

  lemma {:induction false} CountMissing(a: seq<nat>, j: nat, w: nat)
    requires w < |a| && a[w] != j
    ensures Count<nat>(a, j) < |a|
  {
    CountAtMostLength(a[..|a| - 1], j);
    if w < |a| - 1 {
      CountMissing(a[..|a| - 1], j, w);
    }
  }

  lemma {:induction false} CountAtMostLength(a: seq<nat>, j: nat)
    ensures Count<nat>(a, j) <= |a|
  {
    if a != [] {
      CountAtMostLength(a[..|a| - 1], j);
    }
  }

  /** Number of rows whose cluster index is below `j`. */
  function CountBelow(a: seq<nat>, j: nat): nat
  {
    if j == 0 then 0 else CountBelow(a, j - 1) + Count<nat>(a, j - 1)
  }

  /** `CountBelow(a, j)` equals the number of entries of `a` below `j`, computed along `a`. */
  function Below(a: seq<nat>, j: nat): nat
  {
    if a == [] then 0 else Below(a[..|a| - 1], j) + (if a[|a| - 1] < j then 1 else 0)
  }

  lemma {:induction false} CountBelowIsBelow(a: seq<nat>, j: nat)
    ensures CountBelow(a, j) == Below(a, j)
    decreases j
  {
    if j > 0 {
      CountBelowIsBelow(a, j - 1);
      BelowStep(a, j);
    } else {
      BelowZero(a);
    }
  }

  lemma {:induction false} BelowZero(a: seq<nat>)
    ensures Below(a, 0) == 0
  {
    if a != [] {
      BelowZero(a[..|a| - 1]);
    }
  }

  lemma {:induction false} BelowStep(a: seq<nat>, j: nat)
    requires 1 <= j
    ensures Below(a, j) == Below(a, j - 1) + Count<nat>(a, j - 1)
  {
    if a != [] {
      BelowStep(a[..|a| - 1], j);
    }
  }

  lemma {:induction false} BelowAll(a: seq<nat>, k: nat)
    requires forall i :: 0 <= i < |a| ==> a[i] < k
    ensures Below(a, k) == |a|
  {
    if a != [] {
      BelowAll(a[..|a| - 1], k);
    }
  }

  lemma CountBelowLength(a: seq<nat>, k: nat)
    requires forall i :: 0 <= i < |a| ==> a[i] < k
    ensures CountBelow(a, k) == |a|
  {
    CountBelowIsBelow(a, k);
    BelowAll(a, k);
  }

  /** The cluster indices below `j` whose group is larger than `maxPseudoSize`, ascending. */
  function Oversized(a: seq<nat>, j: nat, maxPseudoSize: nat): (js: seq<nat>)
    ensures forall t :: 0 <= t < |js| ==> js[t] < j && maxPseudoSize < Count<nat>(a, js[t])
    decreases j
  {
    if j == 0 then []
    else
      Oversized(a, j - 1, maxPseudoSize) +
      (if maxPseudoSize < Count<nat>(a, j - 1) then [j - 1] else [])
  }

  lemma {:induction false} OversizedIncreasing(a: seq<nat>, j: nat, maxPseudoSize: nat)
    ensures StrictlyIncreasing(Oversized(a, j, maxPseudoSize))
    decreases j
  {
    if j > 0 {
      var js := Oversized(a, j - 1, maxPseudoSize);
      OversizedIncreasing(a, j - 1, maxPseudoSize);
      OversizedStep(a, j, maxPseudoSize);
      if maxPseudoSize < Count<nat>(a, j - 1) {
        forall y | y in js ensures y < j - 1 {
          var t :| 0 <= t < |js| && js[t] == y;
        }
        SnocIncreasing(js, j - 1);
      }
    }
  }

  /** An oversized group `j` is pushed as the `|Oversized(.., j, ..)|`-th child. */
  lemma {:induction false} OversizedRank(a: seq<nat>, j: nat, k: nat, maxPseudoSize: nat)
    requires j < k && maxPseudoSize < Count<nat>(a, j)
    ensures |Oversized(a, j, maxPseudoSize)| < |Oversized(a, k, maxPseudoSize)|
    ensures Oversized(a, k, maxPseudoSize)[|Oversized(a, j, maxPseudoSize)|] == j
    decreases k
  {
    OversizedStep(a, k, maxPseudoSize);
    var before := Oversized(a, k - 1, maxPseudoSize);
    var r := |Oversized(a, j, maxPseudoSize)|;
    if j < k - 1 {
      OversizedRank(a, j, k - 1, maxPseudoSize);
      assert Oversized(a, k, maxPseudoSize)[r] == before[r];
    } else {
      assert Oversized(a, k, maxPseudoSize) == before + [j];
    }
  }

  /** The `t`-th pushed child is group `js[t]`, and the rank of `js[t]` is `t`. */
  lemma OversizedRankInverse(a: seq<nat>, k: nat, maxPseudoSize: nat, t: nat)
    requires t < |Oversized(a, k, maxPseudoSize)|
    ensures var js := Oversized(a, k, maxPseudoSize);
      |Oversized(a, js[t], maxPseudoSize)| == t
  {
    var js := Oversized(a, k, maxPseudoSize);
    var r := |Oversized(a, js[t], maxPseudoSize)|;
    OversizedRank(a, js[t], k, maxPseudoSize);
    assert js[r] == js[t];
  }

  /** The jobs pushed for the oversized groups `js` of one split. */
  function Children(sub: seq<nat>, a: seq<nat>, prefix: string, js: seq<nat>): (jobs: seq<Job>)
    requires |a| == |sub|
    ensures |jobs| == |js|
  {
    seq(|js|, t requires 0 <= t < |js| => Job(Select(sub, a, js[t]), prefix + "|" + NatToString(js[t])))
  }

  /** The paths of the pushed jobs. */
  ghost function ChildPaths(parent: Path, js: seq<nat>): (ps: seq<Path>)
    ensures |ps| == |js|
  {
    seq(|js|, t requires 0 <= t < |js| => parent + [js[t]])
  }

  /**
   * The `groupby` loop of one split: every group of more than
   * `maxPseudoSize` cells is pushed with the label `prefix + "|" + j`,
   * smaller groups are final.
   */
  method PushOversized(toProcess: seq<Job>, sub: seq<nat>, a: seq<nat>, prefix: string, k: nat, maxPseudoSize: nat)
    returns (next: seq<Job>)
    requires |a| == |sub|
    ensures next == toProcess + Children(sub, a, prefix, Oversized(a, k, maxPseudoSize))
    ensures forall t :: |toProcess| <= t < |next| ==> maxPseudoSize < |next[t].cells|
  {
    next := toProcess;
    for j := 0 to k
      invariant next == toProcess + Children(sub, a, prefix, Oversized(a, j, maxPseudoSize))
    {
      var group := Select(sub, a, j);
      var js := Oversized(a, j, maxPseudoSize);
      if maxPseudoSize < |group| {
        assert Oversized(a, j + 1, maxPseudoSize) == js + [j];
        assert Children(sub, a, prefix, js + [j])
            == Children(sub, a, prefix, js) + [Job(group, prefix + "|" + NatToString(j))];
        next := next + [Job(group, prefix + "|" + NatToString(j))];
      } else {
        assert Oversized(a, j + 1, maxPseudoSize) == js;
      }
    }
  }

  // ---------------------------------------------------------- termination
  //
  // Products are built by repeated addition so that the solver never has to
  // reason about non-linear arithmetic.

  /** `m * x`, by repeated addition. */
  function Scale(m: nat, x: nat): nat
  {
    if x == 0 then 0 else Scale(m, x - 1) + m
  }

  /** `n * n`. */
  function Sq(n: nat): nat
  {
    Scale(n, n)
  }

  lemma {:induction false} ScaleAdd(m: nat, x: nat, y: nat)
    ensures Scale(m, x + y) == Scale(m, x) + Scale(m, y)
    decreases y
  {
    if y > 0 {
      ScaleAdd(m, x, y - 1);
    }
  }

  lemma {:induction false} ScaleMono(c: nat, m: nat, x: nat)
    requires c <= m
    ensures Scale(c, x) <= Scale(m, x)
    decreases x
  {
    if x > 0 {
      ScaleMono(c, m, x - 1);
    }
  }

  lemma {:induction false} ScaleSucc(m: nat, x: nat)
    ensures Scale(m + 1, x) == Scale(m, x) + x
    decreases x
  {
    if x > 0 {
      ScaleSucc(m, x - 1);
    }
  }

  /** Sum of the squared subset sizes of the worklist. */
  function SumSq(jobs: seq<Job>): nat
  {
    if jobs == [] then 0
    else SumSq(jobs[..|jobs| - 1]) + Sq(|jobs[|jobs| - 1].cells|)
  }

  lemma {:induction false} SumSqAppend(a: seq<Job>, b: seq<Job>)
    ensures SumSq(a + b) == SumSq(a) + SumSq(b)
    decreases |b|
  {
    if b == [] {
      assert a + b == a;
    } else {
      assert (a + b)[..|a + b| - 1] == a + b[..|b| - 1];
      SumSqAppend(a, b[..|b| - 1]);
    }
  }

  lemma SumSqSnoc(jobs: seq<Job>, job: Job)
    ensures SumSq(jobs + [job]) == SumSq(jobs) + Sq(|job.cells|)
  {
    assert (jobs + [job])[..|jobs|] == jobs;
  }

  lemma SumSqSingle(job: Job)
    ensures SumSq([job]) == Sq(|job.cells|)
  {
    assert [job][..0] == [];
  }

  lemma OversizedStep(a: seq<nat>, j: nat, maxPseudoSize: nat)
    requires 1 <= j
    ensures maxPseudoSize < Count<nat>(a, j - 1) ==>
      Oversized(a, j, maxPseudoSize) == Oversized(a, j - 1, maxPseudoSize) + [j - 1]
    ensures Count<nat>(a, j - 1) <= maxPseudoSize ==>
      Oversized(a, j, maxPseudoSize) == Oversized(a, j - 1, maxPseudoSize)
  {
    if Count<nat>(a, j - 1) <= maxPseudoSize {
      assert Oversized(a, j - 1, maxPseudoSize) + [] == Oversized(a, j - 1, maxPseudoSize);
    }
  }

  lemma ChildrenSnoc(sub: seq<nat>, a: seq<nat>, prefix: string, js: seq<nat>, j: nat)
    requires |a| == |sub|
    ensures Children(sub, a, prefix, js + [j])
         == Children(sub, a, prefix, js) + [Job(Select(sub, a, j), prefix + "|" + NatToString(j))]
  {
  }

  lemma ChildrenStep(sub: seq<nat>, a: seq<nat>, prefix: string, j: nat, maxPseudoSize: nat)
    requires |a| == |sub| && 1 <= j
    ensures maxPseudoSize < Count<nat>(a, j - 1) ==>
      Children(sub, a, prefix, Oversized(a, j, maxPseudoSize))
      == Children(sub, a, prefix, Oversized(a, j - 1, maxPseudoSize))
         + [Job(Select(sub, a, j - 1), prefix + "|" + NatToString(j - 1))]
    ensures Count<nat>(a, j - 1) <= maxPseudoSize ==>
      Children(sub, a, prefix, Oversized(a, j, maxPseudoSize))
      == Children(sub, a, prefix, Oversized(a, j - 1, maxPseudoSize))
  {
    OversizedStep(a, j, maxPseudoSize);
    var js := Oversized(a, j - 1, maxPseudoSize);
    if maxPseudoSize < Count<nat>(a, j - 1) {
      ChildrenSnoc(sub, a, prefix, js, j - 1);
    } else {
      assert Children(sub, a, prefix, js) + [] == Children(sub, a, prefix, js);
    }
  }

  /** A subset no larger than `maxPseudoSize` has no oversized group. */
  lemma {:induction false} OversizedNone(a: seq<nat>, j: nat, maxPseudoSize: nat)
    requires |a| <= maxPseudoSize
    ensures Oversized(a, j, maxPseudoSize) == []
    decreases j
  {
    if j > 0 {
      OversizedNone(a, j - 1, maxPseudoSize);
      CountAtMostLength(a, j - 1);
      OversizedStep(a, j, maxPseudoSize);
      assert Count<nat>(a, j - 1) <= maxPseudoSize;
    } else {
      assert Oversized(a, 0, maxPseudoSize) == [];
    }
  }

  /** Sum of the squared sizes of the groups below `j` that are larger than `maxPseudoSize`. */
  function OversizedSq(a: seq<nat>, j: nat, maxPseudoSize: nat): nat
  {
    if j == 0 then 0
    else
      var c := Count<nat>(a, j - 1);
      OversizedSq(a, j - 1, maxPseudoSize) + (if maxPseudoSize < c then Sq(c) else 0)
  }

  lemma {:induction false} ChildrenSumSqIsOversizedSq(sub: seq<nat>, a: seq<nat>, prefix: string, j: nat, maxPseudoSize: nat)
    requires |a| == |sub|
    ensures SumSq(Children(sub, a, prefix, Oversized(a, j, maxPseudoSize))) == OversizedSq(a, j, maxPseudoSize)
    decreases j
  {
    if j > 0 {
      var x, x', o, o' := SumSq(Children(sub, a, prefix, Oversized(a, j, maxPseudoSize))),
        SumSq(Children(sub, a, prefix, Oversized(a, j - 1, maxPseudoSize))),
        OversizedSq(a, j, maxPseudoSize), OversizedSq(a, j - 1, maxPseudoSize);
      ChildrenSumSqIsOversizedSq(sub, a, prefix, j - 1, maxPseudoSize);
      assert x' == o';
      ChildrenSumSqStep(sub, a, prefix, j, maxPseudoSize);
      assert x + o' == x' + o;
    } else {
      assert Oversized(a, 0, maxPseudoSize) == [];
      assert Children(sub, a, prefix, []) == [];
      assert SumSq([]) == 0 == OversizedSq(a, 0, maxPseudoSize);
    }
  }

  /** Group `j - 1` adds the same amount to both sides: its squared size if it is oversized, nothing otherwise. */
  lemma ChildrenSumSqStep(sub: seq<nat>, a: seq<nat>, prefix: string, j: nat, maxPseudoSize: nat)
    requires |a| == |sub| && 1 <= j
    ensures SumSq(Children(sub, a, prefix, Oversized(a, j, maxPseudoSize))) + OversizedSq(a, j - 1, maxPseudoSize)
         == SumSq(Children(sub, a, prefix, Oversized(a, j - 1, maxPseudoSize))) + OversizedSq(a, j, maxPseudoSize)
  {
    var now := Children(sub, a, prefix, Oversized(a, j, maxPseudoSize));
    var before := Children(sub, a, prefix, Oversized(a, j - 1, maxPseudoSize));
    ChildrenStep(sub, a, prefix, j, maxPseudoSize);
    var c := Count<nat>(a, j - 1);
    if maxPseudoSize < c {
      var child := Job(Select(sub, a, j - 1), prefix + "|" + NatToString(j - 1));
      SumSqSnoc(before, child);
      assert SumSq(now) == SumSq(before) + Sq(c);
      assert OversizedSq(a, j, maxPseudoSize) == OversizedSq(a, j - 1, maxPseudoSize) + Sq(c);
    } else {
      assert now == before;
      assert OversizedSq(a, j, maxPseudoSize) == OversizedSq(a, j - 1, maxPseudoSize);
    }
  }

  /** The oversized groups below `j`, each of fewer than `m + 1` cells, hold at most `m * CountBelow(a, j)` in squared size. */
  lemma {:induction false} OversizedSqBound(a: seq<nat>, j: nat, maxPseudoSize: nat, m: nat)
    requires forall i: nat :: i < j ==> Count<nat>(a, i) <= m
    ensures OversizedSq(a, j, maxPseudoSize) <= Scale(m, CountBelow(a, j))
    decreases j
  {
    if j > 0 {
      var i := j - 1;
      OversizedSqBound(a, i, maxPseudoSize, m);
      var c, lo := Count<nat>(a, i), CountBelow(a, i);
      assert CountBelow(a, j) == lo + c;
      ScaleAdd(m, lo, c);
      ScaleMono(c, m, c);
    }
  }

  /**
   * One split shrinks the worklist measure: the pushed groups are each
   * smaller than the popped subset and together no larger than it.
   */
  lemma SplitShrinks(sub: seq<nat>, a: seq<nat>, prefix: string, k: nat, maxPseudoSize: nat)
    requires 1 <= maxPseudoSize && 1 <= |sub| && Fits(a, |sub|, k)
    requires maxPseudoSize < |sub| ==> 2 <= k && !Constant(a)
    ensures SumSq(Children(sub, a, prefix, Oversized(a, k, maxPseudoSize))) < Sq(|sub|)
  {
    var js := Oversized(a, k, maxPseudoSize);
    if |sub| <= maxPseudoSize {
      OversizedNone(a, k, maxPseudoSize);
      assert Children(sub, a, prefix, js) == [];
    } else {
      forall i: nat | i < k ensures Count<nat>(a, i) < |sub| {
        CountNotAll(a, i);
      }
      ChildrenSumSqIsOversizedSq(sub, a, prefix, k, maxPseudoSize);
      OversizedSqBound(a, k, maxPseudoSize, |sub| - 1);
      CountBelowLength(a, k);
      ScaleSucc(|sub| - 1, |sub|);
    }
  }

  /** A group of a split that put every cell in cluster `j` is the whole subset. */
  lemma {:induction false} SelectAll(sub: seq<nat>, a: seq<nat>, j: nat)
    requires |a| == |sub| && forall i :: 0 <= i < |a| ==> a[i] == j
    ensures Select(sub, a, j) == sub
    decreases |sub|
  {
    if sub != [] {
      SelectAll(sub[..|sub| - 1], a[..|a| - 1], j);
      assert sub == sub[..|sub| - 1] + [sub[|sub| - 1]];
    }
  }

  /** When every cell is in cluster `j` and there are more than `maxPseudoSize` cells, only `j` is oversized. */
  lemma {:induction false} OversizedOnly(a: seq<nat>, j: nat, m: nat, maxPseudoSize: nat)
    requires maxPseudoSize < |a| && forall i :: 0 <= i < |a| ==> a[i] == j
    ensures m <= j ==> Oversized(a, m, maxPseudoSize) == []
    ensures j < m ==> Oversized(a, m, maxPseudoSize) == [j]
    decreases m
  {
    if m > 0 {
      var before := Oversized(a, m - 1, maxPseudoSize);
      OversizedOnly(a, j, m - 1, maxPseudoSize);
      OversizedStep(a, m, maxPseudoSize);
      CountConstant(a, j, m - 1);
      if m - 1 == j {
        assert before == [] && Oversized(a, m, maxPseudoSize) == before + [j];
      } else {
        assert Oversized(a, m, maxPseudoSize) == before;
      }
    }
  }

  /** When every cell is in cluster `j`, cluster `j` holds them all and every other cluster none. */
  lemma CountConstant(a: seq<nat>, j: nat, x: nat)
    requires forall i :: 0 <= i < |a| ==> a[i] == j
    ensures Count<nat>(a, x) == if x == j then |a| else 0
  {
    if x == j {
      SelectAll(a, a, j);
    } else {
      CountAbsent<nat>(a, x);
    }
  }

  /**
   * A k-means answer that puts every cell of a subset larger than
   * `maxPseudoSize` in one cluster (as MiniBatchKMeans does when the rows
   * are identical) pushes back one job: the same subset under a longer
   * label. The squared-size measure does not drop, and the loop never ends.
   */
  lemma ConstantRequeues(sub: seq<nat>, a: seq<nat>, prefix: string, k: nat, maxPseudoSize: nat)
    requires 1 <= maxPseudoSize < |sub| && Fits(a, |sub|, k) && Constant(a)
    ensures Children(sub, a, prefix, Oversized(a, k, maxPseudoSize)) == [Job(sub, prefix + "|" + NatToString(a[0]))]
    ensures SumSq(Children(sub, a, prefix, Oversized(a, k, maxPseudoSize))) == Sq(|sub|)
  {
    var j := a[0];
    OversizedOnly(a, j, k, maxPseudoSize);
    SelectAll(sub, a, j);
    var job := Job(sub, prefix + "|" + NatToString(j));
    var jobs := Children(sub, a, prefix, [j]);
    assert jobs[0] == job;
    assert jobs == [job];
    SumSqSingle(job);
  }

  /**
   * With `max_k = 1`, a subset larger than `maxPseudoSize` is split into one
   * cluster, and the one job pushed back is the same subset under a longer
   * label: the worklist never shrinks, so the loop does not terminate.
   */
  lemma MaxKOneRequeues(sub: seq<nat>, a: seq<nat>, prefix: string, maxPseudoSize: nat)
    requires 1 <= maxPseudoSize < |sub| && Fits(a, |sub|, SplitFactor(|sub|, maxPseudoSize, 1))
    ensures SplitFactor(|sub|, maxPseudoSize, 1) == 1
    ensures Children(sub, a, prefix, Oversized(a, 1, maxPseudoSize)) == [Job(sub, prefix + "|0")]
    ensures SumSq(Children(sub, a, prefix, Oversized(a, 1, maxPseudoSize))) == Sq(|sub|)
  {
    assert a[0] == 0 && Constant(a);
    ConstantRequeues(sub, a, prefix, 1, maxPseudoSize);
    assert NatToString(0) == "0";
    assert prefix + "|" + "0" == prefix + "|0";
  }
}
