/**
 * `_calculate_pseudo_group` in ALLCools/pseudo_cell/pseudo_cell_kmeans.py:
 * every cluster is divided on its own, with a size cap that grows with the
 * cluster, and each label is tagged with its cluster.
 */
module PseudoGroup {
  import opened Wrappers
  import opened Text
  import opened Counting
  import opened KMeansSplit
  import opened KMeansTree
  import opened KMeansDivision
  import opened PseudoLabel

  /** The default `pseudoable_cluster_size`. */
  const DefaultPseudoableClusterSize: nat := 100
  /** The default `max_pseudo_size`. */
  const DefaultMaxPseudoSize: int := 25

  /** One entry of the concatenated result: a cell position and its tagged label. */
  datatype Record = Record(cell: nat, name: string)

  function CellsOf(records: seq<Record>): (cells: seq<nat>)
    ensures |cells| == |records| && forall i :: 0 <= i < |records| ==> cells[i] == records[i].cell
  {
    seq(|records|, i requires 0 <= i < |records| => records[i].cell)
  }

  function NamesOf(records: seq<Record>): (names: seq<string>)
    ensures |names| == |records| && forall i :: 0 <= i < |records| ==> names[i] == records[i].name
  {
    seq(|records|, i requires 0 <= i < |records| => records[i].name)
  }

  lemma NamesAppend(a: seq<Record>, b: seq<Record>)
    ensures NamesOf(a + b) == NamesOf(a) + NamesOf(b)
  {
  }

  /** Python's `a // b`, which rounds toward negative infinity (Dafny's `/` is Euclidean). */
  function FloorDiv(a: int, b: int): (q: int)
    requires b != 0
  {
    if b > 0 then a / b else (-a) / (-b)
  }

  /** `a // b` is the largest `q` with `q * b` not past `a` on `b`'s side. */
  lemma FloorDivBounds(a: int, b: int)
    requires b != 0
    ensures var q := FloorDiv(a, b);
      (b > 0 ==> q * b <= a < q * b + b) && (b < 0 ==> q * b + b < a <= q * b)
  {
    var q := FloorDiv(a, b);
    if b < 0 {
      assert -a == (-b) * q + (-a) % (-b);
    }
  }

  /** Why `_calculate_pseudo_group` raises. */
  datatype PlanError =
    | NoObjectsToConcatenate  // `pd.concat([])`: there are no cells, hence no cluster
    | NonFiniteCap            // `pseudoable_cluster_size == 0`: the caps are infinite and `astype(int)` refuses them

  /**
   * The cap for a cluster of `count` cells: `count // pseudoable + 1`,
   * lowered to `maxPseudoSize` when larger.
   */
  function PseudoCap(count: nat, pseudoable: int, maxPseudoSize: int): int
    requires pseudoable != 0
  {
    var c := FloorDiv(count, pseudoable) + 1;
    if c > maxPseudoSize then maxPseudoSize else c
  }

  /**
   * The cap is the smaller of `maxPseudoSize` and one more than the number
   * of whole `pseudoable` blocks in the cluster: for a positive `pseudoable`
   * it is at least 1 when `maxPseudoSize` is, and it grows by one per block.
   */
  lemma PseudoCapBounds(count: nat, pseudoable: int, maxPseudoSize: int)
    requires 0 < pseudoable
    ensures var cap := PseudoCap(count, pseudoable, maxPseudoSize);
      cap <= maxPseudoSize &&
      (cap == maxPseudoSize || (cap - 1) * pseudoable <= count < cap * pseudoable) &&
      (1 <= maxPseudoSize ==> 1 <= cap)
  {
    FloorDivBounds(count, pseudoable);
  }

  /** A cluster smaller than `pseudoable` gets cap 1: its cells are not merged. */
  lemma SmallClusterCap(count: nat, pseudoable: int, maxPseudoSize: int)
    requires 0 < pseudoable && count < pseudoable && 1 <= maxPseudoSize
    ensures PseudoCap(count, pseudoable, maxPseudoSize) == 1
  {
  }

  /** A negative `pseudoable` floors every cluster's cap to 0 or below: no cluster is merged. */
  lemma NegativePseudoableCap(count: nat, pseudoable: int, maxPseudoSize: int)
    requires pseudoable < 0 && 1 <= count
    ensures PseudoCap(count, pseudoable, maxPseudoSize) <= 0
  {
    FloorDivBounds(count, pseudoable);
  }

  /** The most cells one label of the cluster can carry: the cap, or 1 when no division happens. */
  function GroupBound(count: nat, pseudoable: int, maxPseudoSize: int): nat
    requires pseudoable != 0
  {
    var cap := PseudoCap(count, pseudoable, maxPseudoSize);
    if cap <= 1 then 1 else cap
  }

  /** `name` is `"<cluster>::"` followed by a suffix without `':'`. */
  predicate TaggedBy(name: string, cluster: string) {
    |cluster| + 2 <= |name| && name[..|cluster| + 2] == cluster + Sep && ':' !in name[|cluster| + 2..]
  }

  lemma TaggedRecover(name: string, cluster: string)
    requires TaggedBy(name, cluster)
    ensures RecoverCluster(name) == cluster
  {
    var suffix := name[|cluster| + 2..];
    assert name == Tag(cluster, suffix);
    RecoverTag(cluster, suffix);
  }

  /** Tagging every label with the same cluster keeps the group sizes. */
  lemma {:induction false} TagCount(cluster: string, labels: seq<string>, x: string)
    requires ':' !in x && forall i :: 0 <= i < |labels| ==> ':' !in labels[i]
    ensures Count(seq(|labels|, i requires 0 <= i < |labels| => Tag(cluster, labels[i])), Tag(cluster, x)) == Count(labels, x)
  {
    var tagged := seq(|labels|, i requires 0 <= i < |labels| => Tag(cluster, labels[i]));
    if labels != [] {
      var init := labels[..|labels| - 1];
      TagCount(cluster, init, x);
      assert tagged[..|tagged| - 1] == seq(|init|, i requires 0 <= i < |init| => Tag(cluster, init[i]));
      if tagged[|tagged| - 1] == Tag(cluster, x) {
        TagInjective(cluster, labels[|labels| - 1], cluster, x);
      }
    }
  }

  /**
   * Record `i` is of a cluster in `done`, tagged by it, and its name is
   * carried by no more records than that cluster's bound.
   */
  ghost predicate RecordOk(clusters: seq<string>, pseudoable: int, maxPseudoSize: int, done: seq<string>, records: seq<Record>, i: nat)
    requires pseudoable != 0 && i < |records|
  {
    records[i].cell < |clusters| && clusters[records[i].cell] in done &&
    TaggedBy(records[i].name, clusters[records[i].cell]) &&
    Count(NamesOf(records), records[i].name)
      <= GroupBound(Count(clusters, clusters[records[i].cell]), pseudoable, maxPseudoSize)
  }

  /** Exactly the cells of the clusters in `done` have a record, one each. */
  ghost predicate CellsOnce(clusters: seq<string>, done: seq<string>, records: seq<Record>) {
    forall p :: 0 <= p < |clusters| ==> Count(CellsOf(records), p) == if clusters[p] in done then 1 else 0
  }

  /** The records of one cluster `c`: cell `cells[i]` named `"<c>::<labels[i]>"`. */
  function Block(c: string, cells: seq<nat>, labels: seq<string>): seq<Record>
    requires |labels| == |cells|
  {
    seq(|cells|, i requires 0 <= i < |cells| => Record(cells[i], Tag(c, labels[i])))
  }

  /** What the records for the first clusters `done` satisfy. */
  ghost predicate Planned(clusters: seq<string>, pseudoable: int, maxPseudoSize: int, done: seq<string>, records: seq<Record>)
    requires pseudoable != 0
  {
    (forall i :: 0 <= i < |records| ==> RecordOk(clusters, pseudoable, maxPseudoSize, done, records, i)) &&
    CellsOnce(clusters, done, records)
  }

  /** The names `"<cluster>::<label>"` given to the cells of one cluster. */
  lemma BlockTagged(c: string, labels: seq<string>, i: nat)
    requires i < |labels| && ':' !in labels[i]
    ensures TaggedBy(Tag(c, labels[i]), c)
  {
    var name := Tag(c, labels[i]);
    assert name[..|c| + 2] == c + Sep;
  }

  /** The facts a planning step starts from: `block` holds the tagged labels of cluster `d[idx]`. */
  ghost predicate StepFacts(clusters: seq<string>, pseudoable: int, maxPseudoSize: int, d: seq<string>, idx: nat,
                            records: seq<Record>, cells: seq<nat>, labels: seq<string>, block: seq<Record>)
  {
    pseudoable != 0 &&
    d == Distinct(clusters) && idx < |d| &&
    Planned(clusters, pseudoable, maxPseudoSize, d[..idx], records) &&
    cells == Positions(clusters, d[idx]) &&
    |labels| == |cells| &&
    (forall p :: 0 <= p < |cells| ==> ':' !in labels[p]) &&
    (var cap := PseudoCap(Count(clusters, d[idx]), pseudoable, maxPseudoSize);
      (cap <= 1 ==> labels == DegenerateLabels(|cells|)) &&
      (1 < cap ==> forall p :: 0 <= p < |cells| ==> Count(labels, labels[p]) <= cap)) &&
    |labels| == |cells| && block == Block(d[idx], cells, labels)
  }

  /** Every record of a cluster's block is tagged by that cluster. */
  lemma BlockTaggedAll(c: string, cells: seq<nat>, labels: seq<string>, block: seq<Record>)
    requires |labels| == |cells|
    requires forall p :: 0 <= p < |labels| ==> ':' !in labels[p]
    requires block == Block(c, cells, labels)
    ensures forall j :: 0 <= j < |block| ==> TaggedBy(block[j].name, c)
  {
    forall j | 0 <= j < |block| ensures TaggedBy(block[j].name, c) {
      BlockTagged(c, labels, j);
    }
  }

  /** An earlier record, tagged by another cluster: no name of the new cluster's block equals its name. */
  lemma OldRecordStep(records: seq<Record>, block: seq<Record>, i: nat, own: string, c: string)
    requires i < |records| && TaggedBy(records[i].name, own) && own != c
    requires forall j :: 0 <= j < |block| ==> TaggedBy(block[j].name, c)
    ensures Count(NamesOf(records + block), records[i].name) == Count(NamesOf(records), records[i].name)
  {
    var name := records[i].name;
    NamesAppend(records, block);
    CountAppend(NamesOf(records), NamesOf(block), name);
    TaggedRecover(name, own);
    forall j | 0 <= j < |block| ensures NamesOf(block)[j] != name {
      TaggedRecover(block[j].name, c);
    }
    CountAbsent(NamesOf(block), name);
  }

  /** A name of the new cluster is tagged by it, so no earlier record carries it. */
  lemma NewNameFresh(clusters: seq<string>, pseudoable: int, maxPseudoSize: int, d: seq<string>, idx: nat,
                     records: seq<Record>, cells: seq<nat>, labels: seq<string>, block: seq<Record>, j: nat)
    requires StepFacts(clusters, pseudoable, maxPseudoSize, d, idx, records, cells, labels, block)
    requires j < |block|
    ensures block[j].cell < |clusters| && clusters[block[j].cell] == d[idx] && TaggedBy(block[j].name, d[idx])
    ensures block[j].name !in NamesOf(records)
  {
    var c := d[idx];
    assert c !in d[..idx];
    var name := block[j].name;
    BlockTagged(c, labels, j);
    TaggedRecover(name, c);
    forall e | 0 <= e < |records| ensures NamesOf(records)[e] != name {
      assert RecordOk(clusters, pseudoable, maxPseudoSize, d[..idx], records, e);
      TaggedRecover(records[e].name, clusters[records[e].cell]);
    }
  }

  /** Within the block, a name is carried as often as its label within the cluster. */
  lemma BlockCount(clusters: seq<string>, pseudoable: int, maxPseudoSize: int, d: seq<string>, idx: nat,
                   records: seq<Record>, cells: seq<nat>, labels: seq<string>, block: seq<Record>, j: nat)
    requires StepFacts(clusters, pseudoable, maxPseudoSize, d, idx, records, cells, labels, block)
    requires j < |block|
    ensures Count(NamesOf(block), block[j].name) <= GroupBound(Count(clusters, d[idx]), pseudoable, maxPseudoSize)
  {
    var c := d[idx];
    BlockTagged(c, labels, j);
    assert NamesOf(block) == seq(|labels|, i requires 0 <= i < |labels| => Tag(c, labels[i]));
    TagCount(c, labels, labels[j]);
    if PseudoCap(Count(clusters, c), pseudoable, maxPseudoSize) <= 1 {
      DegenerateCount(|cells|, j);
    }
  }

  /** A record of the new cluster: its name is carried only within the block, at most `bound` times. */
  lemma NewRecordStep(clusters: seq<string>, pseudoable: int, maxPseudoSize: int, d: seq<string>, idx: nat,
                      records: seq<Record>, cells: seq<nat>, labels: seq<string>, block: seq<Record>, j: nat)
    requires StepFacts(clusters, pseudoable, maxPseudoSize, d, idx, records, cells, labels, block)
    requires j < |block|
    ensures block[j].cell < |clusters| && clusters[block[j].cell] == d[idx] && TaggedBy(block[j].name, d[idx])
    ensures Count(NamesOf(records + block), block[j].name) <= GroupBound(Count(clusters, d[idx]), pseudoable, maxPseudoSize)
  {
    NewNameFresh(clusters, pseudoable, maxPseudoSize, d, idx, records, cells, labels, block, j);
    BlockCount(clusters, pseudoable, maxPseudoSize, d, idx, records, cells, labels, block, j);
    NamesAppend(records, block);
    CountAfterAbsent(NamesOf(records), NamesOf(block), block[j].name);
  }

  /** Appending the cells of a new cluster `c`, once each, counts them once and leaves the others. */
  lemma CellsStep(clusters: seq<string>, done: seq<string>, c: string, records: seq<Record>, block: seq<Record>)
    requires c !in done && CellsOf(block) == Positions(clusters, c)
    requires CellsOnce(clusters, done, records)
    ensures CellsOnce(clusters, done + [c], records + block)
  {
    var cells := CellsOf(block);
    assert CellsOf(records + block) == CellsOf(records) + cells;
    PositionsDistinct(clusters, c);
    forall p | 0 <= p < |clusters| ensures Count(CellsOf(records + block), p) == if clusters[p] in done + [c] then 1 else 0 {
      CountAppend(CellsOf(records), cells, p);
      CountNoDuplicates(cells, p);
      assert p in cells <==> clusters[p] == c;
      assert clusters[p] in done + [c] <==> clusters[p] in done || clusters[p] == c;
    }
  }

  /** An earlier record stays valid once the block of a new cluster `c` is appended. */
  lemma OldRecordOk(clusters: seq<string>, pseudoable: int, maxPseudoSize: int, done: seq<string>, c: string,
                    records: seq<Record>, block: seq<Record>, i: nat)
    requires pseudoable != 0 && i < |records| && c !in done
    requires RecordOk(clusters, pseudoable, maxPseudoSize, done, records, i)
    requires forall j :: 0 <= j < |block| ==> TaggedBy(block[j].name, c)
    ensures RecordOk(clusters, pseudoable, maxPseudoSize, done + [c], records + block, i)
  {
    OldRecordStep(records, block, i, clusters[records[i].cell], c);
    assert (records + block)[i] == records[i];
  }

  /** A record of the appended block is valid. */
  lemma NewRecordOk(clusters: seq<string>, pseudoable: int, maxPseudoSize: int, d: seq<string>, idx: nat,
                    records: seq<Record>, cells: seq<nat>, labels: seq<string>, block: seq<Record>, j: nat)
    requires StepFacts(clusters, pseudoable, maxPseudoSize, d, idx, records, cells, labels, block)
    requires j < |block|
    ensures RecordOk(clusters, pseudoable, maxPseudoSize, d[..idx] + [d[idx]], records + block, |records| + j)
  {
    NewRecordStep(clusters, pseudoable, maxPseudoSize, d, idx, records, cells, labels, block, j);
    assert (records + block)[|records| + j] == block[j];
  }

  /** Appending the records of the next cluster keeps `Planned`. */
  lemma PlanStep(clusters: seq<string>, pseudoable: int, maxPseudoSize: int, d: seq<string>, idx: nat,
                 records: seq<Record>, cells: seq<nat>, labels: seq<string>, block: seq<Record>)
    requires StepFacts(clusters, pseudoable, maxPseudoSize, d, idx, records, cells, labels, block)
    ensures Planned(clusters, pseudoable, maxPseudoSize, d[..idx + 1], records + block)
  {
    var c, done := d[idx], d[..idx];
    assert d[..idx + 1] == done + [c];
    assert c !in done;
    BlockTaggedAll(c, cells, labels, block);
    forall i | 0 <= i < |records + block|
      ensures RecordOk(clusters, pseudoable, maxPseudoSize, done + [c], records + block, i)
    {
      if i < |records| {
        OldRecordOk(clusters, pseudoable, maxPseudoSize, done, c, records, block, i);
      } else {
        NewRecordOk(clusters, pseudoable, maxPseudoSize, d, idx, records, cells, labels, block, i - |records|);
      }
    }
    assert CellsOf(block) == cells;
    CellsStep(clusters, done, c, records, block);
  }

  /** Once every cluster is planned, every cell has exactly one record, and every record is valid. */
  lemma PlannedAll(clusters: seq<string>, pseudoable: int, maxPseudoSize: int, done: seq<string>, records: seq<Record>)
    requires pseudoable != 0 && Planned(clusters, pseudoable, maxPseudoSize, done, records)
    requires forall p :: 0 <= p < |clusters| ==> clusters[p] in done
    ensures forall p :: 0 <= p < |clusters| ==> Count(CellsOf(records), p) == 1
    ensures forall i :: 0 <= i < |records| ==>
      records[i].cell < |clusters| && TaggedBy(records[i].name, clusters[records[i].cell])
    ensures forall i :: 0 <= i < |records| ==>
      Count(NamesOf(records), records[i].name) <= GroupBound(Count(clusters, clusters[records[i].cell]), pseudoable, maxPseudoSize)
  {
    assert CellsOnce(clusters, done, records);
    forall i | 0 <= i < |records|
      ensures records[i].cell < |clusters| && TaggedBy(records[i].name, clusters[records[i].cell])
      ensures Count(NamesOf(records), records[i].name) <= GroupBound(Count(clusters, clusters[records[i].cell]), pseudoable, maxPseudoSize)
    {
      assert RecordOk(clusters, pseudoable, maxPseudoSize, done, records, i);
    }
  }

  // ---------------------------------------------------------- the plan

  /**
   * What the division of each cluster relies on from MiniBatchKMeans: the
   * k-means contract under that cluster's cap, wherever the cap is above 1.
   */
  ghost predicate PlanKMeans(clusters: seq<string>, pseudoable: int, maxPseudoSize: int, kmeans: (seq<Row>, nat) -> seq<nat>) {
    forall c :: pseudoable != 0 && 1 < PseudoCap(Count(clusters, c), pseudoable, maxPseudoSize) ==>
      KMeansContract(kmeans, PseudoCap(Count(clusters, c), pseudoable, maxPseudoSize))
  }

  /** The records of cluster `c`: its cells, in order, named by the division of its rows under its cap. */
  function ClusterBlock(clusters: seq<string>, matrix: seq<Row>, pseudoable: int, maxPseudoSize: int,
                        kmeans: (seq<Row>, nat) -> seq<nat>, c: string): seq<Record>
    requires |matrix| == |clusters| && pseudoable != 0 && PlanKMeans(clusters, pseudoable, maxPseudoSize, kmeans)
  {
    var cells := Positions(clusters, c);
    var cap := PseudoCap(Count(clusters, c), pseudoable, maxPseudoSize);
    Block(c, cells, Division(Rows(matrix, cells), cap, DefaultMaxK, kmeans))
  }

  /** The blocks of the clusters `d`, concatenated in order. */
  function PlanRecords(clusters: seq<string>, matrix: seq<Row>, pseudoable: int, maxPseudoSize: int,
                       kmeans: (seq<Row>, nat) -> seq<nat>, d: seq<string>): seq<Record>
    requires |matrix| == |clusters| && pseudoable != 0 && PlanKMeans(clusters, pseudoable, maxPseudoSize, kmeans)
  {
    if d == [] then []
    else PlanRecords(clusters, matrix, pseudoable, maxPseudoSize, kmeans, d[..|d| - 1]) +
         ClusterBlock(clusters, matrix, pseudoable, maxPseudoSize, kmeans, d[|d| - 1])
  }

  /**
   * What `_calculate_pseudo_group` returns: an error when there are no cells
   * or `pseudoable` is 0, else the blocks of the clusters in order of first
   * appearance.
   */
  function Plan(clusters: seq<string>, matrix: seq<Row>, pseudoable: int, maxPseudoSize: int,
                kmeans: (seq<Row>, nat) -> seq<nat>): Result<seq<Record>, PlanError>
    requires |matrix| == |clusters| && PlanKMeans(clusters, pseudoable, maxPseudoSize, kmeans)
  {
    if clusters == [] then Failure(NoObjectsToConcatenate)
    else if pseudoable == 0 then Failure(NonFiniteCap)
    else Success(PlanRecords(clusters, matrix, pseudoable, maxPseudoSize, kmeans, Distinct(clusters)))
  }

  /** The block of the next cluster satisfies what `PlanStep` needs. */
  lemma BlockFacts(clusters: seq<string>, matrix: seq<Row>, pseudoable: int, maxPseudoSize: int,
                   kmeans: (seq<Row>, nat) -> seq<nat>, idx: nat)
    requires |matrix| == |clusters| && pseudoable != 0 && PlanKMeans(clusters, pseudoable, maxPseudoSize, kmeans)
    requires idx < |Distinct(clusters)|
    requires Planned(clusters, pseudoable, maxPseudoSize, Distinct(clusters)[..idx],
                     PlanRecords(clusters, matrix, pseudoable, maxPseudoSize, kmeans, Distinct(clusters)[..idx]))
    ensures var d := Distinct(clusters);
      var c := d[idx];
      var cells := Positions(clusters, c);
      var labels := Division(Rows(matrix, cells), PseudoCap(Count(clusters, c), pseudoable, maxPseudoSize), DefaultMaxK, kmeans);
      StepFacts(clusters, pseudoable, maxPseudoSize, d, idx,
                PlanRecords(clusters, matrix, pseudoable, maxPseudoSize, kmeans, d[..idx]), cells, labels,
                ClusterBlock(clusters, matrix, pseudoable, maxPseudoSize, kmeans, c))
  {
    var d := Distinct(clusters);
    var c := d[idx];
    var cells := Positions(clusters, c);
    var cap := PseudoCap(Count(clusters, c), pseudoable, maxPseudoSize);
    var rows := Rows(matrix, cells);
    forall p | 0 <= p < |cells| && 1 < cap
      ensures var labels := Division(rows, cap, DefaultMaxK, kmeans); Count(labels, labels[p]) <= cap
    {
      DivisionBound(rows, cap, DefaultMaxK, kmeans, p);
    }
  }

  /** The blocks of the first `idx` distinct clusters satisfy `Planned`. */
  lemma {:induction false} PlanRecordsPlanned(clusters: seq<string>, matrix: seq<Row>, pseudoable: int, maxPseudoSize: int,
                                              kmeans: (seq<Row>, nat) -> seq<nat>, idx: nat)
    requires |matrix| == |clusters| && pseudoable != 0 && PlanKMeans(clusters, pseudoable, maxPseudoSize, kmeans)
    requires idx <= |Distinct(clusters)|
    ensures var d := Distinct(clusters);
      Planned(clusters, pseudoable, maxPseudoSize, d[..idx], PlanRecords(clusters, matrix, pseudoable, maxPseudoSize, kmeans, d[..idx]))
  {
    var d := Distinct(clusters);
    if idx == 0 {
      assert d[..0] == [];
    } else {
      PlanRecordsPlanned(clusters, matrix, pseudoable, maxPseudoSize, kmeans, idx - 1);
      PlanRecordsStep(clusters, matrix, pseudoable, maxPseudoSize, kmeans, idx);
    }
  }

  /** One step of `PlanRecordsPlanned`: the next cluster's block keeps `Planned`. */
  lemma PlanRecordsStep(clusters: seq<string>, matrix: seq<Row>, pseudoable: int, maxPseudoSize: int,
                        kmeans: (seq<Row>, nat) -> seq<nat>, idx: nat)
    requires |matrix| == |clusters| && pseudoable != 0 && PlanKMeans(clusters, pseudoable, maxPseudoSize, kmeans)
    requires 1 <= idx <= |Distinct(clusters)|
    requires var d := Distinct(clusters);
      Planned(clusters, pseudoable, maxPseudoSize, d[..idx - 1], PlanRecords(clusters, matrix, pseudoable, maxPseudoSize, kmeans, d[..idx - 1]))
    ensures var d := Distinct(clusters);
      Planned(clusters, pseudoable, maxPseudoSize, d[..idx], PlanRecords(clusters, matrix, pseudoable, maxPseudoSize, kmeans, d[..idx]))
  {
    var d := Distinct(clusters);
    BlockFacts(clusters, matrix, pseudoable, maxPseudoSize, kmeans, idx - 1);
    var c := d[idx - 1];
    var cells := Positions(clusters, c);
    var labels := Division(Rows(matrix, cells), PseudoCap(Count(clusters, c), pseudoable, maxPseudoSize), DefaultMaxK, kmeans);
    var prev := PlanRecords(clusters, matrix, pseudoable, maxPseudoSize, kmeans, d[..idx - 1]);
    var block := ClusterBlock(clusters, matrix, pseudoable, maxPseudoSize, kmeans, c);
    PlanStep(clusters, pseudoable, maxPseudoSize, d, idx - 1, prev, cells, labels, block);
    PlanRecordsSnoc(clusters, matrix, pseudoable, maxPseudoSize, kmeans, d, idx);
  }

  /** The records of the first `idx` clusters extend those of the first `idx - 1` by one block. */
  lemma PlanRecordsSnoc(clusters: seq<string>, matrix: seq<Row>, pseudoable: int, maxPseudoSize: int,
                        kmeans: (seq<Row>, nat) -> seq<nat>, d: seq<string>, idx: nat)
    requires |matrix| == |clusters| && pseudoable != 0 && PlanKMeans(clusters, pseudoable, maxPseudoSize, kmeans)
    requires 1 <= idx <= |d|
    ensures PlanRecords(clusters, matrix, pseudoable, maxPseudoSize, kmeans, d[..idx]) ==
            PlanRecords(clusters, matrix, pseudoable, maxPseudoSize, kmeans, d[..idx - 1]) +
            ClusterBlock(clusters, matrix, pseudoable, maxPseudoSize, kmeans, d[idx - 1])
  {
    assert d[..idx][..idx - 1] == d[..idx - 1];
  }

  /**
   * A successful plan names every cell exactly once, tags each name with the
   * cell's own cluster, and lets no name be carried by more cells than its
   * cluster's bound. It fails exactly when there are no cells or
   * `pseudoable` is 0.
   */
  lemma PlanSound(clusters: seq<string>, matrix: seq<Row>, pseudoable: int, maxPseudoSize: int,
                  kmeans: (seq<Row>, nat) -> seq<nat>)
    requires |matrix| == |clusters| && PlanKMeans(clusters, pseudoable, maxPseudoSize, kmeans)
    ensures var r := Plan(clusters, matrix, pseudoable, maxPseudoSize, kmeans);
      (r.Failure? <==> clusters == [] || pseudoable == 0) &&
      (r.Success? ==>
        (forall p :: 0 <= p < |clusters| ==> Count(CellsOf(r.value), p) == 1) &&
        (forall i :: 0 <= i < |r.value| ==>
          r.value[i].cell < |clusters| && TaggedBy(r.value[i].name, clusters[r.value[i].cell])) &&
        (forall i :: 0 <= i < |r.value| ==>
          Count(NamesOf(r.value), r.value[i].name) <= GroupBound(Count(clusters, clusters[r.value[i].cell]), pseudoable, maxPseudoSize)))
  {
    if clusters != [] && pseudoable != 0 {
      var d := Distinct(clusters);
      PlanRecordsPlanned(clusters, matrix, pseudoable, maxPseudoSize, kmeans, |d|);
      assert d[..|d|] == d;
      PlannedAll(clusters, pseudoable, maxPseudoSize, d, PlanRecords(clusters, matrix, pseudoable, maxPseudoSize, kmeans, d));
    }
  }

  /**
   * `_calculate_pseudo_group`: divide each cluster's rows of `matrix` with
   * the cluster's cap and concatenate the tagged labels, cluster by cluster.
   */
  method CalculatePseudoGroup(clusters: seq<string>, matrix: seq<Row>, pseudoable: int, maxPseudoSize: int,
                              kmeans: (seq<Row>, nat) -> seq<nat>)
    returns (r: Result<seq<Record>, PlanError>)
    requires |matrix| == |clusters| && PlanKMeans(clusters, pseudoable, maxPseudoSize, kmeans)
    ensures r == Plan(clusters, matrix, pseudoable, maxPseudoSize, kmeans)
  {
    if clusters == [] {
      // no cluster, so `records` stays empty and `pd.concat` refuses it
      return Failure(NoObjectsToConcatenate);
    }
    if pseudoable == 0 {
      return Failure(NonFiniteCap);
    }
    var d := Distinct(clusters);
    var records := [];
    for idx := 0 to |d|
      invariant records == PlanRecords(clusters, matrix, pseudoable, maxPseudoSize, kmeans, d[..idx])
    {
      var c := d[idx];
      var cells := Positions(clusters, c);
      var cap := PseudoCap(Count(clusters, c), pseudoable, maxPseudoSize);
      CountPresent(clusters, c);
      var labels := Divide(Rows(matrix, cells), cap, DefaultMaxK, kmeans);
      records := records + Block(c, cells, labels);
      assert d[..idx + 1][..idx] == d[..idx];
    }
    assert d[..|d|] == d;
    r := Success(records);
  }
}
