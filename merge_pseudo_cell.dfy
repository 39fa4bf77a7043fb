/**
 * `_merge_pseudo_cell` and `generate_pseudo_cells` in
 * ALLCools/pseudo_cell/pseudo_cell_kmeans.py: the rows of the cells sharing
 * a pseudo-group name are collapsed into one row, and each pseudo-cell
 * records how many cells it stands for.
 */
module MergePseudoCell {
  import opened Wrappers
  import opened Counting
  import opened KMeansSplit
  import opened PseudoLabel
  import opened PseudoGroup

  /**
   * How a merge can fail: `median` calls a method matrices do not have, any
   * other unknown name is refused, and with no group at all `vstack` has no
   * block to stack.
   */
  datatype MergeError = AttributeError | ValueError(aggregateFunc: string) | EmptyStack

  /** The merged table: pseudo-cell names, their rows, and `obs['n_cells']`. */
  datatype PseudoCells = PseudoCells(names: seq<string>, rows: seq<Row>, nCells: seq<nat>)

  /** Every row has `width` columns. */
  predicate Matrix(rows: seq<Row>, width: nat) {
    forall i :: 0 <= i < |rows| ==> |rows[i]| == width
  }

  // --------------------------------------------------------- column arithmetic

  function AddRows(a: Row, b: Row): (r: Row)
    requires |a| == |b|
    ensures |r| == |a| && forall j :: 0 <= j < |a| ==> r[j] == a[j] + b[j]
  {
    seq(|a|, j requires 0 <= j < |a| => a[j] + b[j])
  }

  function ScaleRow(a: Row, c: real): (r: Row)
    ensures |r| == |a| && forall j :: 0 <= j < |a| ==> r[j] == c * a[j]
  {
    seq(|a|, j requires 0 <= j < |a| => c * a[j])
  }

  /** The sum of column `j` over `rows`. */
  function SumColumn(rows: seq<Row>, j: nat): real
    requires forall i :: 0 <= i < |rows| ==> j < |rows[i]|
  {
    if rows == [] then 0.0 else SumColumn(rows[..|rows| - 1], j) + rows[|rows| - 1][j]
  }

  /** `X.sum(axis=0)`: the column-wise sum of a matrix. */
  function ColumnSum(rows: seq<Row>, width: nat): (r: Row)
    requires Matrix(rows, width)
    ensures |r| == width
  {
    if rows == [] then seq(width, _ => 0.0)
    else AddRows(ColumnSum(rows[..|rows| - 1], width), rows[|rows| - 1])
  }

  /** Entry `j` of the column-wise sum is the sum of column `j`. */
  lemma {:induction false} ColumnSumEntry(rows: seq<Row>, width: nat, j: nat)
    requires Matrix(rows, width) && j < width
    ensures ColumnSum(rows, width)[j] == SumColumn(rows, j)
  {
    if rows != [] {
      ColumnSumEntry(rows[..|rows| - 1], width, j);
    }
  }

  /** The column-wise sum of one row is that row. */
  lemma ColumnSumSingle(row: Row)
    ensures ColumnSum([row], |row|) == row
  {
    assert [row][..0] == [];
  }

  /** `X.mean(axis=0)`: the column-wise mean of a non-empty matrix. */
  function ColumnMean(rows: seq<Row>, width: nat): (r: Row)
    requires Matrix(rows, width) && 1 <= |rows|
    ensures |r| == width
  {
    ScaleRow(ColumnSum(rows, width), 1.0 / (|rows| as real))
  }

  /** Each mean entry times the number of rows gives back the column sum. */
  lemma ColumnMeanTimesCount(rows: seq<Row>, width: nat, j: nat)
    requires Matrix(rows, width) && 1 <= |rows| && j < width
    ensures (|rows| as real) * ColumnMean(rows, width)[j] == SumColumn(rows, j)
  {
    ColumnSumEntry(rows, width, j);
  }

  // ------------------------------------------------------------------ merge

  /** The aggregation names the merge handles for groups of several cells. */
  predicate Known(aggregateFunc: string) {
    aggregateFunc == "sum" || aggregateFunc == "mean" || aggregateFunc == "downsample"
  }

  /** The error an unhandled name raises. */
  function FuncError(aggregateFunc: string): MergeError {
    if aggregateFunc == "median" then AttributeError else ValueError(aggregateFunc)
  }

  /** Some group holds more than one cell. */
  predicate HasMultiGroup(keys: seq<string>) {
    exists i :: 0 <= i < |keys| && 1 < Count(keys, keys[i])
  }

  /** The rows of the cells in group `name`, in cell order. */
  function GroupRows(matrix: seq<Row>, keys: seq<string>, name: string): seq<Row>
    requires |matrix| == |keys|
  {
    Rows(matrix, Positions(keys, name))
  }

  /** What one output row holds for group `name`. */
  predicate GroupMerged(matrix: seq<Row>, width: nat, keys: seq<string>, aggregateFunc: string,
                        name: string, row: Row, n: nat)
    requires |matrix| == |keys| && Matrix(matrix, width)
  {
    n == Count(keys, name) && 1 <= n && |row| == width &&
    (n == 1 ==> row == matrix[Positions(keys, name)[0]]) &&
    (1 < n && aggregateFunc == "sum" ==> row == ColumnSum(GroupRows(matrix, keys, name), width)) &&
    (1 < n && aggregateFunc == "mean" ==> row == ColumnMean(GroupRows(matrix, keys, name), width)) &&
    (1 < n && aggregateFunc == "downsample" ==> exists q :: 0 <= q < |keys| && keys[q] == name && row == matrix[q])
  }

  /** The merged table: one row per distinct name, each merged from its group. */
  predicate Merged(matrix: seq<Row>, width: nat, keys: seq<string>, aggregateFunc: string, out: PseudoCells)
    requires |matrix| == |keys| && Matrix(matrix, width)
  {
    out.names == Distinct(keys) && |out.rows| == |out.names| && |out.nCells| == |out.names| &&
    forall g :: 0 <= g < |out.names| ==>
      GroupMerged(matrix, width, keys, aggregateFunc, out.names[g], out.rows[g], out.nCells[g])
  }

  /** Row `g` of `rows` is merged from group `names[g]`, for every `g`. */
  ghost predicate AllMerged(matrix: seq<Row>, width: nat, keys: seq<string>, aggregateFunc: string,
                            names: seq<string>, rows: seq<Row>, nCells: seq<nat>)
    requires |matrix| == |keys| && Matrix(matrix, width)
  {
    |rows| == |names| && |nCells| == |names| &&
    forall g :: 0 <= g < |names| ==> GroupMerged(matrix, width, keys, aggregateFunc, names[g], rows[g], nCells[g])
  }

  lemma AllMergedSnoc(matrix: seq<Row>, width: nat, keys: seq<string>, aggregateFunc: string,
                      names: seq<string>, rows: seq<Row>, nCells: seq<nat>, name: string, row: Row, n: nat)
    requires |matrix| == |keys| && Matrix(matrix, width)
    requires AllMerged(matrix, width, keys, aggregateFunc, names, rows, nCells)
    requires GroupMerged(matrix, width, keys, aggregateFunc, name, row, n)
    ensures AllMerged(matrix, width, keys, aggregateFunc, names + [name], rows + [row], nCells + [n])
  {
    var names', rows', nCells' := names + [name], rows + [row], nCells + [n];
    forall g | 0 <= g < |names'| ensures GroupMerged(matrix, width, keys, aggregateFunc, names'[g], rows'[g], nCells'[g]) {
      if g < |names| {
        assert names'[g] == names[g] && rows'[g] == rows[g] && nCells'[g] == nCells[g];
      }
    }
  }

  lemma MergedFromAll(matrix: seq<Row>, width: nat, keys: seq<string>, aggregateFunc: string, out: PseudoCells)
    requires |matrix| == |keys| && Matrix(matrix, width) && out.names == Distinct(keys)
    requires AllMerged(matrix, width, keys, aggregateFunc, out.names, out.rows, out.nCells)
    ensures Merged(matrix, width, keys, aggregateFunc, out)
  {
  }

  lemma MultiGroupWitness(keys: seq<string>, name: string)
    requires name in keys && 1 < Count(keys, name)
    ensures HasMultiGroup(keys)
  {
    var w :| 0 <= w < |keys| && keys[w] == name;
  }

  lemma NoMultiGroup(keys: seq<string>)
    requires forall g :: 0 <= g < |Distinct(keys)| ==> Count(keys, Distinct(keys)[g]) <= 1
    ensures !HasMultiGroup(keys)
  {
    var d := Distinct(keys);
    forall i | 0 <= i < |keys| ensures Count(keys, keys[i]) <= 1 {
      var g :| 0 <= g < |d| && d[g] == keys[i];
    }
  }

  /**
   * The body of `_merge_pseudo_cell`'s loop for group `name`: its row, or
   * the error an unknown `aggregateFunc` raises on a group of several cells.
   */
  method MergeGroup(matrix: seq<Row>, width: nat, keys: seq<string>, aggregateFunc: string, name: string)
    returns (r: Result<Row, MergeError>)
    requires |matrix| == |keys| && Matrix(matrix, width) && name in keys
    ensures r.Failure? <==> !Known(aggregateFunc) && 1 < Count(keys, name)
    ensures r.Failure? ==> r.error == FuncError(aggregateFunc)
    ensures r.Success? ==> GroupMerged(matrix, width, keys, aggregateFunc, name, r.value, Count(keys, name))
  {
    var cells := Positions(keys, name);
    CountPresent(keys, name);
    var n := |cells|;
    if n == 1 {
      r := Success(matrix[cells[0]]);
    } else if aggregateFunc == "sum" {
      r := Success(ColumnSum(Rows(matrix, cells), width));
    } else if aggregateFunc == "mean" {
      r := Success(ColumnMean(Rows(matrix, cells), width));
    } else if aggregateFunc == "downsample" {
      var i :| 0 <= i < n;
      r := Success(matrix[cells[i]]);
    } else if aggregateFunc == "median" {
      r := Failure(AttributeError);
    } else {
      r := Failure(ValueError(aggregateFunc));
    }
  }

  /**
   * `_merge_pseudo_cell`: one row per pseudo-group name of `keys`. A
   * singleton copies its cell's row whatever `aggregateFunc` is; a larger
   * group is summed, averaged or represented by one of its cells, and any
   * other `aggregateFunc` fails once such a group is reached. With no cell
   * there is nothing to stack, which fails too.
   */
  method Merge(matrix: seq<Row>, width: nat, keys: seq<string>, aggregateFunc: string)
    returns (r: Result<PseudoCells, MergeError>)
    requires |matrix| == |keys| && Matrix(matrix, width)
    ensures r.Failure? <==> keys == [] || (!Known(aggregateFunc) && HasMultiGroup(keys))
    ensures r.Failure? ==> r.error == if keys == [] then EmptyStack else FuncError(aggregateFunc)
    ensures r.Success? ==> Merged(matrix, width, keys, aggregateFunc, r.value)
  {
    var d := Distinct(keys);
    var names: seq<string> := [];
    var rows: seq<Row> := [];
    var nCells: seq<nat> := [];
    for gi := 0 to |d|
      invariant names == d[..gi] && AllMerged(matrix, width, keys, aggregateFunc, names, rows, nCells)
      invariant forall g :: 0 <= g < gi ==> Count(keys, d[g]) <= 1 || Known(aggregateFunc)
    {
      var name := d[gi];
      var row := MergeGroup(matrix, width, keys, aggregateFunc, name);
      if row.Failure? {
        MultiGroupWitness(keys, name);
        return Failure(row.error);
      }
      AllMergedSnoc(matrix, width, keys, aggregateFunc, names, rows, nCells, name, row.value, Count(keys, name));
      assert d[..gi + 1] == names + [name];
      names := names + [name];
      rows := rows + [row.value];
      nCells := nCells + [Count(keys, name)];
    }
    assert d[..|d|] == d;
    if !Known(aggregateFunc) {
      NoMultiGroup(keys);
    }
    if keys == [] {
      // no group was stacked: `vstack([])`
      return Failure(EmptyStack);
    }
    r := Success(PseudoCells(names, rows, nCells));
    MergedFromAll(matrix, width, keys, aggregateFunc, r.value);
  }

  // ------------------------------------------------------------- n_cells totals

  /** The sum of a sequence of counts. */
  function Total(ns: seq<nat>): nat
  {
    if ns == [] then 0 else Total(ns[..|ns| - 1]) + ns[|ns| - 1]
  }

  /** The sum of `ns[g]` over the `g` whose tag is `c`. */
  function TotalWhere(ns: seq<nat>, tags: seq<string>, c: string): nat
    requires |ns| == |tags|
  {
    if ns == [] then 0
    else TotalWhere(ns[..|ns| - 1], tags[..|tags| - 1], c) + (if tags[|tags| - 1] == c then ns[|ns| - 1] else 0)
  }

  lemma {:induction false} TotalIsSumCounts(keys: seq<string>, names: seq<string>, ns: seq<nat>, recover: string -> string)
    requires |ns| == |names| && forall g :: 0 <= g < |names| ==> ns[g] == Count(keys, names[g])
    ensures Total(ns) == SumCounts(keys, names)
    ensures forall c :: TotalWhere(ns, MapSeq(recover, names), c) == SumCountsWhere(keys, names, recover, c)
  {
    if ns != [] {
      var names' := names[..|names| - 1];
      TotalIsSumCounts(keys, names', ns[..|ns| - 1], recover);
      assert MapSeq(recover, names)[..|names| - 1] == MapSeq(recover, names');
    }
  }

  /** The `n_cells` column adds up to the number of cells. */
  lemma MergeConservesCells(matrix: seq<Row>, width: nat, keys: seq<string>, aggregateFunc: string, out: PseudoCells)
    requires |matrix| == |keys| && Matrix(matrix, width)
    requires Merged(matrix, width, keys, aggregateFunc, out)
    ensures Total(out.nCells) == |keys|
  {
    TotalIsSumCounts(keys, out.names, out.nCells, RecoverCluster);
    SumCountsDistinct(keys);
  }

  /**
   * Whatever function recovers a cluster from a name, `n_cells` summed over
   * the pseudo-cells recovered as `c` counts the cells whose name recovers as `c`.
   */
  lemma MergeConservesClusterCells(matrix: seq<Row>, width: nat, keys: seq<string>, aggregateFunc: string,
                                   out: PseudoCells, recover: string -> string, c: string)
    requires |matrix| == |keys| && Matrix(matrix, width)
    requires Merged(matrix, width, keys, aggregateFunc, out)
    ensures TotalWhere(out.nCells, MapSeq(recover, out.names), c) == Count(MapSeq(recover, keys), c)
  {
    TotalIsSumCounts(keys, out.names, out.nCells, recover);
    SumCountsWhereDistinct(keys, recover, c);
  }

  // -------------------------------------------------------- generate_pseudo_cells

  /** The position of the first record for cell `p`. */
  function RecordOf(records: seq<Record>, p: nat): (r: Option<nat>)
    ensures r.Some? ==> r.value < |records| && records[r.value].cell == p
    ensures r.None? ==> forall i :: 0 <= i < |records| ==> records[i].cell != p
  {
    if records == [] then None
    else
      match RecordOf(records[..|records| - 1], p)
      case Some(i) => Some(i)
      case None => if records[|records| - 1].cell == p then Some(|records| - 1) else None
  }

  /** `adata.obs[key] = pseudo_group`: the column aligned on the cells, missing where no record is. */
  function Align(records: seq<Record>, n: nat): (column: seq<Option<string>>)
    ensures |column| == n
  {
    seq(n, p requires 0 <= p < n => match RecordOf(records, p) case None => None case Some(i) => Some(records[i].name))
  }

  /** With exactly one record per cell, alignment gives every cell its record's name. */
  lemma AlignFills(records: seq<Record>, n: nat)
    requires forall i :: 0 <= i < |records| ==> records[i].cell < n
    requires forall p :: 0 <= p < n ==> Count(CellsOf(records), p) == 1
    ensures forall p :: 0 <= p < n ==> Align(records, n)[p].Some?
    ensures forall p, i :: 0 <= p < n && 0 <= i < |records| && records[i].cell == p ==>
      Align(records, n)[p] == Some(records[i].name)
  {
    var aligned := Align(records, n);
    var cells := CellsOf(records);
    forall p | 0 <= p < n ensures aligned[p].Some? {
      CountPositive(cells, p);
      assert RecordOf(records, p).Some?;
    }
    forall p, i | 0 <= p < n && 0 <= i < |records| && records[i].cell == p ensures aligned[p] == Some(records[i].name) {
      assert aligned[p].Some?;
      var i' := RecordOf(records, p).value;
      CountAtMostOnce(cells, p, i, i');
    }
  }

  /** `adata.obs['pseudo_group']`: each cell's name from its record ("" where none, which a full plan rules out). */
  function Column(records: seq<Record>, n: nat): (column: seq<string>)
    ensures |column| == n
  {
    var aligned := Align(records, n);
    seq(n, p requires 0 <= p < n => if aligned[p].Some? then aligned[p].value else "")
  }

  /** With one record per cell, the column gives cell `p` the name of the record for `p`. */
  lemma ColumnCell(records: seq<Record>, n: nat, p: nat)
    requires forall i :: 0 <= i < |records| ==> records[i].cell < n
    requires forall q :: 0 <= q < n ==> Count(CellsOf(records), q) == 1
    requires p < n
    ensures var i := RecordOf(records, p);
      i.Some? && Column(records, n)[p] == records[i.value].name
  {
    AlignFills(records, n);
    var aligned := Align(records, n);
    assert aligned[p].Some?;
    var i := RecordOf(records, p);
    assert aligned[p] == match i case None => None case Some(j) => Some(records[j].name);
    assert i.Some?;
  }

  /** With exactly one record per cell, the aligned column keeps every name's group size. */
  lemma AlignKeepsGroups(records: seq<Record>, n: nat)
    requires forall i :: 0 <= i < |records| ==> records[i].cell < n
    requires forall p :: 0 <= p < n ==> Count(CellsOf(records), p) == 1
    ensures forall x :: Count(Column(records, n), x) == Count(NamesOf(records), x)
  {
    var column := Column(records, n);
    AlignFills(records, n);
    forall p | 0 <= p < n ensures Align(records, n)[p] == Some(column[p]) {
      ColumnCell(records, n, p);
    }
    var cells := CellsOf(records);
    forall x ensures Count(column, x) == Count(NamesOf(records), x) {
      var A := Members(NamesOf(records), x);
      forall a, b | a in A && b in A && cells[a] == cells[b] ensures a == b {
        assert cells[a] < n;
        CountAtMostOnce(cells, cells[a], a, b);
      }
      ImageCard(A, cells);
      var img := set a | a in A :: cells[a];
      forall p | p in Members(column, x) ensures p in img {
        var i := RecordOf(records, p).value;
        assert i in A && cells[i] == p;
      }
      forall p | p in img ensures p in Members(column, x) {
        var a :| a in A && cells[a] == p;
      }
      assert img == Members(column, x);
      CountIsMembers(column, x);
      CountIsMembers(NamesOf(records), x);
    }
  }

  /** No cluster name holds a `':'`. */
  predicate ColonFree(clusters: seq<string>) {
    forall p :: 0 <= p < |clusters| ==> ':' !in clusters[p]
  }

  /** A name tagged by a colon-free cluster gives that cluster back under the source's recovery. */
  lemma TaggedRecoverAsWritten(name: string, cluster: string)
    requires TaggedBy(name, cluster) && ':' !in cluster
    ensures RecoverClusterAsWritten(name) == cluster
  {
    var suffix := name[|cluster| + 2..];
    assert name == Tag(cluster, suffix);
    RecoverAsWrittenPlain(cluster, suffix);
  }

  /** With one record per cell, a cell's column entry is tagged by its cluster and its group is within bound. */
  lemma ColumnCellOk(clusters: seq<string>, pseudoable: int, maxPseudoSize: int, records: seq<Record>, p: nat)
    requires pseudoable != 0 && p < |clusters|
    requires forall q :: 0 <= q < |clusters| ==> Count(CellsOf(records), q) == 1
    requires forall i :: 0 <= i < |records| ==> records[i].cell < |clusters|
    requires forall i :: 0 <= i < |records| ==> RecordOk(clusters, pseudoable, maxPseudoSize, Distinct(clusters), records, i)
    ensures var g := Column(records, |clusters|);
      TaggedBy(g[p], clusters[p]) && Count(g, g[p]) <= GroupBound(Count(clusters, clusters[p]), pseudoable, maxPseudoSize)
  {
    var n := |clusters|;
    var g := Column(records, n);
    ColumnCell(records, n, p);
    AlignKeepsGroups(records, n);
    var i := RecordOf(records, p).value;
    assert RecordOk(clusters, pseudoable, maxPseudoSize, Distinct(clusters), records, i);
  }

  /** The pseudo-group column of a successful plan: every cell tagged by its cluster, groups within bound. */
  lemma ColumnFacts(clusters: seq<string>, embedding: seq<Row>, pseudoable: int, maxPseudoSize: int,
                    kmeans: (seq<Row>, nat) -> seq<nat>)
    requires |embedding| == |clusters| && PlanKMeans(clusters, pseudoable, maxPseudoSize, kmeans)
    requires clusters != [] && pseudoable != 0
    ensures var g := Column(Plan(clusters, embedding, pseudoable, maxPseudoSize, kmeans).value, |clusters|);
      (forall p :: 0 <= p < |clusters| ==> TaggedBy(g[p], clusters[p])) &&
      (forall p :: 0 <= p < |clusters| ==>
        Count(g, g[p]) <= GroupBound(Count(clusters, clusters[p]), pseudoable, maxPseudoSize))
  {
    PlanSound(clusters, embedding, pseudoable, maxPseudoSize, kmeans);
    var records := Plan(clusters, embedding, pseudoable, maxPseudoSize, kmeans).value;
    forall i | 0 <= i < |records| ensures RecordOk(clusters, pseudoable, maxPseudoSize, Distinct(clusters), records, i) {
      assert records[i].cell < |clusters|;
    }
    forall p | 0 <= p < |clusters|
      ensures var g := Column(records, |clusters|);
        TaggedBy(g[p], clusters[p]) && Count(g, g[p]) <= GroupBound(Count(clusters, clusters[p]), pseudoable, maxPseudoSize)
    {
      ColumnCellOk(clusters, pseudoable, maxPseudoSize, records, p);
    }
  }

  /** With colon-free clusters, recovering every cell's name gives back the cluster column. */
  lemma ColonFreeRecovery(clusters: seq<string>, g: seq<string>)
    requires ColonFree(clusters) && |g| == |clusters|
    requires forall p :: 0 <= p < |clusters| ==> TaggedBy(g[p], clusters[p])
    ensures MapSeq(RecoverClusterAsWritten, g) == clusters
  {
    forall p | 0 <= p < |g| ensures RecoverClusterAsWritten(g[p]) == clusters[p] {
      TaggedRecoverAsWritten(g[p], clusters[p]);
    }
  }

  /** Why `generate_pseudo_cells` raises: in planning or in merging. */
  datatype PseudoCellError = Planning(plan: PlanError) | Merging(merge: MergeError)

  /** The cells' pseudo-group column, the pseudo-cells, and their recovered cluster column. */
  datatype Generated = Generated(pseudoGroup: seq<string>, cells: PseudoCells, clusterColumn: seq<string>)

  /**
   * `generate_pseudo_cells`: plan the pseudo-groups on `embedding` (the
   * `obsm` matrix), store them as the cells' pseudo-group column, merge the
   * rows of `matrix` by that column, and give every pseudo-cell the cluster
   * recovered from its name by splitting on `"::"`, dropping the last piece
   * and joining the rest. That recovery gives the right cluster whenever no
   * cluster name holds a `':'`.
   */
  method GeneratePseudoCells(matrix: seq<Row>, width: nat, clusters: seq<string>, embedding: seq<Row>,
                             pseudoable: int, maxPseudoSize: int, aggregateFunc: string,
                             kmeans: (seq<Row>, nat) -> seq<nat>)
    returns (r: Result<Generated, PseudoCellError>)
    requires |matrix| == |clusters| && |embedding| == |clusters| && Matrix(matrix, width)
    requires PlanKMeans(clusters, pseudoable, maxPseudoSize, kmeans)
    ensures r.Failure? ==>
              r.error == if clusters == [] then Planning(NoObjectsToConcatenate)
                         else if pseudoable == 0 then Planning(NonFiniteCap)
                         else Merging(FuncError(aggregateFunc))
    ensures r.Failure? && clusters != [] && pseudoable != 0 ==>
      !Known(aggregateFunc) && HasMultiGroup(Column(Plan(clusters, embedding, pseudoable, maxPseudoSize, kmeans).value, |clusters|))
    ensures r.Success? ==>
              clusters != [] && pseudoable != 0 &&
              r.value.pseudoGroup == Column(Plan(clusters, embedding, pseudoable, maxPseudoSize, kmeans).value, |clusters|)
    ensures r.Success? ==> Known(aggregateFunc) || !HasMultiGroup(r.value.pseudoGroup)
    ensures r.Success? ==> var g := r.value.pseudoGroup;
      |g| == |clusters| &&
      (forall p :: 0 <= p < |clusters| ==> TaggedBy(g[p], clusters[p])) &&
      (forall p :: 0 <= p < |clusters| ==>
        Count(g, g[p]) <= GroupBound(Count(clusters, clusters[p]), pseudoable, maxPseudoSize))
    ensures r.Success? ==> Merged(matrix, width, r.value.pseudoGroup, aggregateFunc, r.value.cells)
    ensures r.Success? ==> Total(r.value.cells.nCells) == |clusters|
    ensures r.Success? ==> r.value.clusterColumn == MapSeq(RecoverClusterAsWritten, r.value.cells.names)
    ensures r.Success? ==> forall c ::
      TotalWhere(r.value.cells.nCells, r.value.clusterColumn, c) == Count(MapSeq(RecoverClusterAsWritten, r.value.pseudoGroup), c)
    ensures r.Success? && ColonFree(clusters) ==> var out := r.value;
      forall g, p :: 0 <= g < |out.clusterColumn| && 0 <= p < |clusters| && out.pseudoGroup[p] == out.cells.names[g] ==>
        clusters[p] == out.clusterColumn[g]
    ensures r.Success? && ColonFree(clusters) ==> forall c ::
      TotalWhere(r.value.cells.nCells, r.value.clusterColumn, c) == Count(clusters, c)
  {
    var n := |clusters|;
    var plan := CalculatePseudoGroup(clusters, embedding, pseudoable, maxPseudoSize, kmeans);
    if plan.Failure? {
      return Failure(Planning(plan.error));
    }
    ColumnFacts(clusters, embedding, pseudoable, maxPseudoSize, kmeans);
    var pseudoGroup := Column(plan.value, n);
    var merged := Merge(matrix, width, pseudoGroup, aggregateFunc);
    if merged.Failure? {
      return Failure(Merging(merged.error));
    }
    var out := merged.value;
    var clusterColumn := MapSeq(RecoverClusterAsWritten, out.names);
    MergeConservesCells(matrix, width, pseudoGroup, aggregateFunc, out);
    forall c ensures TotalWhere(out.nCells, clusterColumn, c) == Count(MapSeq(RecoverClusterAsWritten, pseudoGroup), c) {
      MergeConservesClusterCells(matrix, width, pseudoGroup, aggregateFunc, out, RecoverClusterAsWritten, c);
    }
    if ColonFree(clusters) {
      ColonFreeRecovery(clusters, pseudoGroup);
    }
    r := Success(Generated(pseudoGroup, out, clusterColumn));
  }
}
