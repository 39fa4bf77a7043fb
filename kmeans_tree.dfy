/**
 * The division `_kmeans_division` computes, stated without the worklist
 * (ALLCools/pseudo_cell/pseudo_cell_kmeans.py).
 *
 * The cells are the nodes of a tree: the root holds every cell, and the
 * children of a node are the groups k-means makes of its cells when asked
 * for `SplitFactor` clusters. A cell's label is the path to the first node
 * on its way down that holds at most `max_pseudo_size` cells, the root
 * excepted: the root is always split once.
 */
module KMeansTree {
  import opened Counting
  import opened KMeansSplit

  /** The k-means answer for the subset `sub`: one cluster index per cell. */
  function Assign(matrix: seq<Row>, mps: nat, maxK: nat, kmeans: (seq<Row>, nat) -> seq<nat>, sub: seq<nat>): (a: seq<nat>)
    requires 1 <= mps && 1 <= maxK && KMeansContract(kmeans, mps)
    requires forall i :: 0 <= i < |sub| ==> sub[i] < |matrix|
    ensures Fits(a, |sub|, SplitFactor(|sub|, mps, maxK))
    ensures mps < |sub| && 2 <= maxK ==> !Constant(a)
  {
    kmeans(Rows(matrix, sub), SplitFactor(|sub|, mps, maxK))
  }

  /**
   * The cells at the end of `path`: all cells for the empty path, and for
   * `path + [j]` the cells of `path` that k-means puts in cluster `j`.
   */
  function Node(matrix: seq<Row>, mps: nat, maxK: nat, kmeans: (seq<Row>, nat) -> seq<nat>, path: Path): (cells: seq<nat>)
    requires 1 <= mps && 1 <= maxK && KMeansContract(kmeans, mps)
    ensures forall i :: 0 <= i < |cells| ==> cells[i] < |matrix|
    decreases |path|
  {
    if path == [] then Range(|matrix|)
    else
      var parent := Node(matrix, mps, maxK, kmeans, path[..|path| - 1]);
      var g := Select(parent, Assign(matrix, mps, maxK, kmeans, parent), path[|path| - 1]);
      assert forall i :: 0 <= i < |g| ==> g[i] in parent;
      g
  }

  lemma NodeSnoc(matrix: seq<Row>, mps: nat, maxK: nat, kmeans: (seq<Row>, nat) -> seq<nat>, path: Path, j: nat)
    requires 1 <= mps && 1 <= maxK && KMeansContract(kmeans, mps)
    ensures var parent := Node(matrix, mps, maxK, kmeans, path);
      Node(matrix, mps, maxK, kmeans, path + [j]) == Select(parent, Assign(matrix, mps, maxK, kmeans, parent), j)
  {
    assert (path + [j])[..|path|] == path;
  }

  /** Every node lists its cells in their original order. */
  lemma {:induction false} NodeIncreasing(matrix: seq<Row>, mps: nat, maxK: nat, kmeans: (seq<Row>, nat) -> seq<nat>, path: Path)
    requires 1 <= mps && 1 <= maxK && KMeansContract(kmeans, mps)
    ensures StrictlyIncreasing(Node(matrix, mps, maxK, kmeans, path))
    decreases |path|
  {
    if path != [] {
      var init := path[..|path| - 1];
      var parent := Node(matrix, mps, maxK, kmeans, init);
      NodeIncreasing(matrix, mps, maxK, kmeans, init);
      SelectIncreasing(parent, Assign(matrix, mps, maxK, kmeans, parent), path[|path| - 1]);
    }
  }

  /** A cell of a node is a cell of each of its ancestors. */
  lemma {:induction false} NodeAncestor(matrix: seq<Row>, mps: nat, maxK: nat, kmeans: (seq<Row>, nat) -> seq<nat>,
                                        path: Path, l: nat, p: nat)
    requires 1 <= mps && 1 <= maxK && KMeansContract(kmeans, mps)
    requires l <= |path| && p in Node(matrix, mps, maxK, kmeans, path)
    ensures p in Node(matrix, mps, maxK, kmeans, path[..l])
    decreases |path|
  {
    if l < |path| {
      var init := path[..|path| - 1];
      assert init[..l] == path[..l];
      NodeAncestor(matrix, mps, maxK, kmeans, init, l, p);
    } else {
      assert path[..l] == path;
    }
  }

  /** Every proper non-root prefix of `q` is a node of more than `mps` cells: the loop split it. */
  ghost predicate Reached(matrix: seq<Row>, mps: nat, maxK: nat, kmeans: (seq<Row>, nat) -> seq<nat>, q: Path, upto: nat)
    requires 1 <= mps && 1 <= maxK && KMeansContract(kmeans, mps)
    requires upto <= |q|
  {
    forall l :: 1 <= l < upto ==> mps < |Node(matrix, mps, maxK, kmeans, q[..l])|
  }

  /**
   * Where cell `p` ends: a non-root node holding `p` with at most `mps`
   * cells, all of whose non-root ancestors were larger than `mps`.
   */
  ghost predicate Settled(matrix: seq<Row>, mps: nat, maxK: nat, kmeans: (seq<Row>, nat) -> seq<nat>, q: Path, p: nat)
    requires 1 <= mps && 1 <= maxK && KMeansContract(kmeans, mps)
  {
    1 <= |q| && p in Node(matrix, mps, maxK, kmeans, q) && |Node(matrix, mps, maxK, kmeans, q)| <= mps &&
    Reached(matrix, mps, maxK, kmeans, q, |q|)
  }

  /** The position of `x` in `s`. */
  function IndexIn(s: seq<nat>, x: nat): (i: nat)
    requires x in s
    ensures i < |s| && s[i] == x
  {
    if s[0] == x then 0 else 1 + IndexIn(s[1..], x)
  }

  /** Below a root or oversized node every proper prefix of a child was split. */
  lemma ChildReached(matrix: seq<Row>, mps: nat, maxK: nat, kmeans: (seq<Row>, nat) -> seq<nat>, P: Path, j: nat)
    requires 1 <= mps && 1 <= maxK && KMeansContract(kmeans, mps)
    requires Reached(matrix, mps, maxK, kmeans, P, |P|)
    requires P != [] ==> mps < |Node(matrix, mps, maxK, kmeans, P)|
    ensures Reached(matrix, mps, maxK, kmeans, P + [j], |P| + 1)
  {
    var c := P + [j];
    forall l | 1 <= l < |P| + 1 ensures mps < |Node(matrix, mps, maxK, kmeans, c[..l])| {
      if l < |P| {
        assert c[..l] == P[..l];
        assert mps < |Node(matrix, mps, maxK, kmeans, P[..l])|;
      } else {
        assert c[..l] == P;
      }
    }
  }

  /**
   * The walk down from node `path` (which holds `p`, and which is the root
   * or was split for being larger than `mps`): take the child holding `p`,
   * stop there if it is small enough, else go on.
   */
  function Descent(matrix: seq<Row>, mps: nat, maxK: nat, kmeans: (seq<Row>, nat) -> seq<nat>, path: Path, p: nat): (q: Path)
    requires 1 <= mps && 2 <= maxK && KMeansContract(kmeans, mps)
    requires p in Node(matrix, mps, maxK, kmeans, path)
    requires path != [] ==> mps < |Node(matrix, mps, maxK, kmeans, path)|
    decreases |Node(matrix, mps, maxK, kmeans, path)|
  {
    var parent := Node(matrix, mps, maxK, kmeans, path);
    var a := Assign(matrix, mps, maxK, kmeans, parent);
    var i := IndexIn(parent, p);
    var child := path + [a[i]];
    NodeSnoc(matrix, mps, maxK, kmeans, path, a[i]);
    NodeIncreasing(matrix, mps, maxK, kmeans, path);
    SelectMember(parent, a, a[i], i);
    if |Node(matrix, mps, maxK, kmeans, child)| <= mps then child
    else
      CountAtMostLength(a, a[i]);
      CountNotAll(a, a[i]);
      Descent(matrix, mps, maxK, kmeans, child, p)
  }

  /** The walk ends where `p` is settled, below the node it started from. */
  lemma {:induction false} DescentSettles(matrix: seq<Row>, mps: nat, maxK: nat, kmeans: (seq<Row>, nat) -> seq<nat>,
                                          path: Path, p: nat)
    requires 1 <= mps && 2 <= maxK && KMeansContract(kmeans, mps)
    requires p in Node(matrix, mps, maxK, kmeans, path)
    requires path != [] ==> mps < |Node(matrix, mps, maxK, kmeans, path)|
    requires Reached(matrix, mps, maxK, kmeans, path, |path|)
    ensures var q := Descent(matrix, mps, maxK, kmeans, path, p);
      |path| < |q| && q[..|path|] == path && Settled(matrix, mps, maxK, kmeans, q, p)
    decreases |Node(matrix, mps, maxK, kmeans, path)|
  {
    var parent := Node(matrix, mps, maxK, kmeans, path);
    var a := Assign(matrix, mps, maxK, kmeans, parent);
    var i := IndexIn(parent, p);
    var child := path + [a[i]];
    NodeSnoc(matrix, mps, maxK, kmeans, path, a[i]);
    NodeIncreasing(matrix, mps, maxK, kmeans, path);
    SelectMember(parent, a, a[i], i);
    ChildReached(matrix, mps, maxK, kmeans, path, a[i]);
    assert child[..|path|] == path;
    if |Node(matrix, mps, maxK, kmeans, child)| > mps {
      CountAtMostLength(a, a[i]);
      CountNotAll(a, a[i]);
      DescentSettles(matrix, mps, maxK, kmeans, child, p);
      var q := Descent(matrix, mps, maxK, kmeans, child, p);
      assert q[..|path|] == q[..|child|][..|path|];
    }
  }

  /** A cell of the child `path + [j]` is a cell of `path` that k-means put in cluster `j`. */
  lemma ChildCell(matrix: seq<Row>, mps: nat, maxK: nat, kmeans: (seq<Row>, nat) -> seq<nat>, path: Path, j: nat, p: nat)
    requires 1 <= mps && 1 <= maxK && KMeansContract(kmeans, mps)
    requires p in Node(matrix, mps, maxK, kmeans, path + [j])
    ensures var parent := Node(matrix, mps, maxK, kmeans, path);
      p in parent && Assign(matrix, mps, maxK, kmeans, parent)[IndexIn(parent, p)] == j
  {
    var parent := Node(matrix, mps, maxK, kmeans, path);
    var a := Assign(matrix, mps, maxK, kmeans, parent);
    NodeSnoc(matrix, mps, maxK, kmeans, path, j);
    assert p in parent;
    var i := IndexIn(parent, p);
    NodeIncreasing(matrix, mps, maxK, kmeans, path);
    SelectMember(parent, a, j, i);
  }

  /** A cell lies in one child of a node only. */
  lemma OneChild(matrix: seq<Row>, mps: nat, maxK: nat, kmeans: (seq<Row>, nat) -> seq<nat>, path: Path, j1: nat, j2: nat, p: nat)
    requires 1 <= mps && 1 <= maxK && KMeansContract(kmeans, mps)
    requires p in Node(matrix, mps, maxK, kmeans, path + [j1]) && p in Node(matrix, mps, maxK, kmeans, path + [j2])
    ensures j1 == j2
  {
    ChildCell(matrix, mps, maxK, kmeans, path, j1, p);
    ChildCell(matrix, mps, maxK, kmeans, path, j2, p);
  }

  /** A cell of the node at `q` is in the child `q[l]` of the node at `q[..l]`. */
  lemma InPrefixChild(matrix: seq<Row>, mps: nat, maxK: nat, kmeans: (seq<Row>, nat) -> seq<nat>, q: Path, l: nat, p: nat)
    requires 1 <= mps && 1 <= maxK && KMeansContract(kmeans, mps)
    requires l < |q| && p in Node(matrix, mps, maxK, kmeans, q)
    ensures p in Node(matrix, mps, maxK, kmeans, q[..l] + [q[l]])
  {
    NodeAncestor(matrix, mps, maxK, kmeans, q, l + 1, p);
    PrefixSnoc(q, l);
  }

  /** Two paths agreeing up to `l` pick the same next cluster for a cell both end at. */
  lemma SameStep(matrix: seq<Row>, mps: nat, maxK: nat, kmeans: (seq<Row>, nat) -> seq<nat>, q1: Path, q2: Path, l: nat, p: nat)
    requires 1 <= mps && 1 <= maxK && KMeansContract(kmeans, mps)
    requires l < |q1| && l < |q2| && q1[..l] == q2[..l]
    requires p in Node(matrix, mps, maxK, kmeans, q1) && p in Node(matrix, mps, maxK, kmeans, q2)
    ensures q1[..l + 1] == q2[..l + 1]
  {
    InPrefixChild(matrix, mps, maxK, kmeans, q1, l, p);
    InPrefixChild(matrix, mps, maxK, kmeans, q2, l, p);
    OneChild(matrix, mps, maxK, kmeans, q1[..l], q1[l], q2[l], p);
    PrefixSnoc(q1, l);
    PrefixSnoc(q2, l);
  }

  /** The first `l + 1` indices of a path are its first `l` and then index `l`. */
  lemma PrefixSnoc(q: Path, l: nat)
    requires l < |q|
    ensures q[..l + 1] == q[..l] + [q[l]]
  {
  }

  /** A path where `p` is settled is no proper prefix of another such path: that one was split there. */
  lemma PrefixNotLonger(matrix: seq<Row>, mps: nat, maxK: nat, kmeans: (seq<Row>, nat) -> seq<nat>, q: Path, r: Path, p: nat)
    requires 1 <= mps && 1 <= maxK && KMeansContract(kmeans, mps)
    requires Settled(matrix, mps, maxK, kmeans, q, p) && Settled(matrix, mps, maxK, kmeans, r, p)
    requires |q| <= |r| && r[..|q|] == q
    ensures |q| == |r|
  {
  }

  /** Two paths holding `p` agree on their first `m` indices. */
  lemma {:induction false} CommonPrefix(matrix: seq<Row>, mps: nat, maxK: nat, kmeans: (seq<Row>, nat) -> seq<nat>,
                                        q1: Path, q2: Path, m: nat, p: nat)
    requires 1 <= mps && 1 <= maxK && KMeansContract(kmeans, mps)
    requires m <= |q1| && m <= |q2|
    requires p in Node(matrix, mps, maxK, kmeans, q1) && p in Node(matrix, mps, maxK, kmeans, q2)
    ensures q1[..m] == q2[..m]
  {
    if m > 0 {
      CommonPrefix(matrix, mps, maxK, kmeans, q1, q2, m - 1, p);
      SameStep(matrix, mps, maxK, kmeans, q1, q2, m - 1, p);
    }
  }

  /** A cell is settled on one path only. */
  lemma SettledUnique(matrix: seq<Row>, mps: nat, maxK: nat, kmeans: (seq<Row>, nat) -> seq<nat>, q1: Path, q2: Path, p: nat)
    requires 1 <= mps && 1 <= maxK && KMeansContract(kmeans, mps)
    requires Settled(matrix, mps, maxK, kmeans, q1, p) && Settled(matrix, mps, maxK, kmeans, q2, p)
    ensures q1 == q2
  {
    // the shorter path is a prefix of the longer one, so it cannot be both small and split
    if |q1| <= |q2| {
      CommonPrefix(matrix, mps, maxK, kmeans, q1, q2, |q1|, p);
      assert q1[..|q1|] == q1;
      PrefixNotLonger(matrix, mps, maxK, kmeans, q1, q2, p);
      assert q2[..|q2|] == q2;
    } else {
      CommonPrefix(matrix, mps, maxK, kmeans, q1, q2, |q2|, p);
      assert q2[..|q2|] == q2;
      PrefixNotLonger(matrix, mps, maxK, kmeans, q2, q1, p);
    }
  }

  /** The path of cell `p < |matrix|`: the walk from the root. */
  function PathOf(matrix: seq<Row>, mps: nat, maxK: nat, kmeans: (seq<Row>, nat) -> seq<nat>, p: nat): (q: Path)
    requires 1 <= mps && 2 <= maxK && KMeansContract(kmeans, mps)
    requires p < |matrix|
  {
    assert Range(|matrix|)[p] == p;
    Descent(matrix, mps, maxK, kmeans, [], p)
  }

  /** The walk from the root settles `p`, and only that path does. */
  lemma PathOfSettled(matrix: seq<Row>, mps: nat, maxK: nat, kmeans: (seq<Row>, nat) -> seq<nat>, p: nat, q: Path)
    requires 1 <= mps && 2 <= maxK && KMeansContract(kmeans, mps)
    requires p < |matrix|
    ensures Settled(matrix, mps, maxK, kmeans, PathOf(matrix, mps, maxK, kmeans, p), p)
    ensures Settled(matrix, mps, maxK, kmeans, q, p) ==> q == PathOf(matrix, mps, maxK, kmeans, p)
  {
    assert Range(|matrix|)[p] == p;
    DescentSettles(matrix, mps, maxK, kmeans, [], p);
    if Settled(matrix, mps, maxK, kmeans, q, p) {
      SettledUnique(matrix, mps, maxK, kmeans, q, PathOf(matrix, mps, maxK, kmeans, p), p);
    }
  }

  /**
   * The labels `_kmeans_division` returns: `"|" + p` for the `p`-th cell when
   * `max_pseudo_size <= 1`, else the rendered path of each cell.
   */
  function Division(matrix: seq<Row>, maxPseudoSize: int, maxK: nat, kmeans: (seq<Row>, nat) -> seq<nat>): (labels: seq<string>)
    requires 2 <= maxK && (1 < maxPseudoSize ==> KMeansContract(kmeans, maxPseudoSize))
    ensures |labels| == |matrix|
    ensures forall p :: 0 <= p < |labels| ==> ':' !in labels[p]
  {
    if maxPseudoSize <= 1 then DegenerateLabels(|matrix|)
    else seq(|matrix|, p requires 0 <= p < |matrix| => Render(PathOf(matrix, maxPseudoSize, maxK, kmeans, p)))
  }

  /** Cells sharing a label in `Division` are the cells of one node, so at most `maxPseudoSize` of them. */
  lemma DivisionBound(matrix: seq<Row>, maxPseudoSize: int, maxK: nat, kmeans: (seq<Row>, nat) -> seq<nat>, p: nat)
    requires 2 <= maxK && KMeansContract(kmeans, maxPseudoSize)
    requires 1 < maxPseudoSize && p < |matrix|
    ensures var labels := Division(matrix, maxPseudoSize, maxK, kmeans);
      Count(labels, labels[p]) <= maxPseudoSize
  {
    var mps: nat := maxPseudoSize;
    var labels := Division(matrix, maxPseudoSize, maxK, kmeans);
    var q := PathOf(matrix, mps, maxK, kmeans, p);
    var node := Node(matrix, mps, maxK, kmeans, q);
    PathOfSettled(matrix, mps, maxK, kmeans, p, q);
    forall r | r in Members(labels, labels[p]) ensures r in Elements(node) {
      var qr := PathOf(matrix, mps, maxK, kmeans, r);
      RenderInjective(qr, q);
      PathOfSettled(matrix, mps, maxK, kmeans, r, qr);
    }
    SubsetCard(Members(labels, labels[p]), Elements(node));
    NodeIncreasing(matrix, mps, maxK, kmeans, q);
    DistinctCard(node);
    CountIsMembers(labels, labels[p]);
  }
}
