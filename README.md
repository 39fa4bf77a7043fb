# ALLCools pseudo-cells and the C-motif database, in Dafny

This project models two parts of ALLCools, a toolkit for single-cell DNA
methylation data.

**Pseudo-cells** (`ALLCools/pseudo_cell/pseudo_cell_kmeans.py`). Cells of
each cluster are divided by repeated k-means into groups of at most
`max_pseudo_size` cells. The cap grows with the cluster size. Every group is
named `"<cluster>::|j1|j2..."`. The count rows of each group are then merged
into one pseudo-cell by sum, mean or down-sampling, and each pseudo-cell gets
its cluster back from its name.
- `kmeans_split.dfy` (`KMeansSplit`) holds one split of the worklist: label rendering, the cluster count `k`, the `.loc` relabelling, the groups pushed back, and the termination measure.
- `kmeans_tree.dfy` (`KMeansTree`) holds the partition tree the repeated splits describe, and `Division`, the labels `_kmeans_division` returns.
- `kmeans_division.dfy` (`KMeansDivision`) holds the `_kmeans_division` loop, its invariant, and the proof that it returns `Division`.
- `pseudo_label.dfy` (`PseudoLabel`) holds the `"<cluster>::<label>"` names and how the cluster is read back.
- `pseudo_group.dfy` (`PseudoGroup`) holds `_calculate_pseudo_group`.
- `merge_pseudo_cell.dfy` (`MergePseudoCell`) holds `_merge_pseudo_cell` and `generate_pseudo_cells`.

**C-motif database** (`ALLCools/motif/cmotif.py`, `_generate_c_motif_database`).
A BED file of motif hits is read against the genome. Every C or G that a hit
covers gets a `(strand flag, motif id)` entry at its 1-based position. The
entries are written one file per chromosome, and those files are then split
into 20 Mb bin files. A lookup table lists each bin file's chromosome and
window. The chromosome of a per-chromosome file is read back as the part of
its name before the first `'.'`, as the source does; a corrected reading
(the name without its suffix) is kept beside it as the intended behaviour.
- `cmotif_names.dfy` (`CMotifNames`) holds the file names, the bins and the parsing of file names.
- `cmotif_records.dfy` (`CMotifRecords`) holds the per-position records and the per-base loop.
- `cmotif_scan.dfy` (`CMotifScan`) holds the BED loop with name interning and the per-chromosome dumps.
- `cmotif_bins.dfy` (`CMotifBins`) holds the split into bin files and the lookup table.
- `cmotif.dfy` (`CMotif`) holds the whole procedure.

Shared modules:
- `wrappers.dfy` holds `Option` and `Result`.
- `text.dfy` holds integer text and splitting.
- `counting.dfy` holds occurrence counts and first-appearance order.
- `ordered_map.dfy` holds insertion-ordered dictionaries.

Cells are identified by their row position. Matrix entries are `real`, so sums
and means are exact. MiniBatchKMeans is a function parameter `kmeans`. Its
only assumed property (`KMeansSplit.KMeansContract`) is that it returns one
index below `k` per row and does not put every row of a subset larger than
`max_pseudo_size` into one cluster when `k >= 2`. The genome is a map from chromosome name
to its upper-case sequence. Output files are maps from file name to contents.

## Model

| member | source | states |
|---|---|---|
| KMeansDivision.Divide | ALLCools/pseudo_cell/pseudo_cell_kmeans.py:7-42 | the labels are exactly `Division` of the rows: `"|" + str(i)` per row when `max_pseudo_size <= 1`, else each row's rendered path down the k-means tree; with a cap above 1 no label is carried by more than `max_pseudo_size` rows; the loop ends |
| KMeansDivision.StepPreservesInv | ALLCools/pseudo_cell/pseudo_cell_kmeans.py:12-41 | one pop, split, relabel and push keeps the loop invariant (ownership of each cell by one pending job, labels render paths, pending paths form an antichain, final groups within the bound) |
| KMeansDivision.NodeStep | ALLCools/pseudo_cell/pseudo_cell_kmeans.py:12-41 | after one step every pending job holds exactly the cells of the tree node its label names, and every final cell is settled on its path |
| KMeansDivision.NodeJobsStep | ALLCools/pseudo_cell/pseudo_cell_kmeans.py:37-41 | the jobs pushed by a step are the children of the popped node that are larger than `max_pseudo_size`, with their cells |
| KMeansDivision.NodeFinalInside | ALLCools/pseudo_cell/pseudo_cell_kmeans.py:37-39 | a popped cell whose group is within the cap is settled on the popped path plus its cluster index |
| KMeansDivision.NodeFinalStep | ALLCools/pseudo_cell/pseudo_cell_kmeans.py:33-41 | after a step every final cell is settled on its tracked path |
| KMeansTree.ChildReached | ALLCools/pseudo_cell/pseudo_cell_kmeans.py:37-41 | below the root or a node larger than the cap, every proper prefix of a child was split |
| KMeansDivision.InitNodeInv | ALLCools/pseudo_cell/pseudo_cell_kmeans.py:10-11 | the first job is the root of the tree, holding every cell |
| KMeansDivision.FinalDivision | ALLCools/pseudo_cell/pseudo_cell_kmeans.py:42 | with no job left, the labels are those of `Division` |
| KMeansDivision.FinalGroups | ALLCools/pseudo_cell/pseudo_cell_kmeans.py:37-42 | once the stack is empty, every label is shared by at most `max_pseudo_size` cells |
| KMeansDivision.InitInv | ALLCools/pseudo_cell/pseudo_cell_kmeans.py:10-11 | the loop starts with every cell unlabelled and owned by the single job holding all cells with the empty prefix |
| KMeansDivision.StepDecreases | ALLCools/pseudo_cell/pseudo_cell_kmeans.py:13-41 | one pop, split and push strictly lowers the sum of squared sizes of the pending subsets |
| KMeansDivision.FinalLabels | ALLCools/pseudo_cell/pseudo_cell_kmeans.py:42 | with the stack empty, every cell carries a label rendering a non-empty path, and no label is carried by more than `max_pseudo_size` cells |
| KMeansDivision.OwnedStep | ALLCools/pseudo_cell/pseudo_cell_kmeans.py:13-41 | after a step every cell is either final or owned by the one pending job whose cells hold it, and a pending cell's path is its job's path |
| KMeansDivision.LabelsStep | ALLCools/pseudo_cell/pseudo_cell_kmeans.py:33-35 | after relabelling, every labelled cell's label renders its tracked path |
| KMeansDivision.FinishedStep | ALLCools/pseudo_cell/pseudo_cell_kmeans.py:37-39 | after a step every final cell has a non-empty path shared by at most `max_pseudo_size` final cells |
| KMeansDivision.AntichainStep | ALLCools/pseudo_cell/pseudo_cell_kmeans.py:37-41 | after a step no pending job's path is a prefix of another's |
| KMeansDivision.SeparatedStep | ALLCools/pseudo_cell/pseudo_cell_kmeans.py:33-41 | after a step no final cell's path lies under a pending job's path |
| KMeansTree.Assign | ALLCools/pseudo_cell/pseudo_cell_kmeans.py:17-32 | the k-means answer for the rows of a subset (`Rows`) gives each cell an index below `k = min(n // cap + 1, max_k)`, and does not put all cells of an oversized subset in one cluster |
| KMeansTree.Node | ALLCools/pseudo_cell/pseudo_cell_kmeans.py:13-41 | the cells at a path: all cells at the root, and at `path + [j]` the cells of `path` that k-means put in cluster `j`; all of them are rows of the matrix |
| KMeansTree.NodeSnoc | ALLCools/pseudo_cell/pseudo_cell_kmeans.py:37 | the child `j` of a node is the group `j` of its k-means answer |
| KMeansTree.NodeIncreasing | ALLCools/pseudo_cell/pseudo_cell_kmeans.py:14 | every node lists its cells in matrix order |
| KMeansTree.NodeAncestor | ALLCools/pseudo_cell/pseudo_cell_kmeans.py:37-41 | a cell of a node is a cell of each of its ancestors |
| KMeansTree.DescentSettles | ALLCools/pseudo_cell/pseudo_cell_kmeans.py:12-41 | walking down from a split node by each cell's cluster ends at a node within the cap that holds the cell and whose ancestors were all split |
| KMeansTree.ChildCell | ALLCools/pseudo_cell/pseudo_cell_kmeans.py:33-37 | a cell of child `j` is a cell of the parent that k-means put in cluster `j` |
| KMeansTree.SameStep | ALLCools/pseudo_cell/pseudo_cell_kmeans.py:33-37 | two paths that agree so far and both hold a cell take the same next index |
| KMeansTree.PrefixNotLonger | ALLCools/pseudo_cell/pseudo_cell_kmeans.py:37-41 | a path where a cell is settled is no proper prefix of another such path |
| KMeansTree.OneChild | ALLCools/pseudo_cell/pseudo_cell_kmeans.py:33-37 | a cell sits in at most one child of a node: two children holding it have the same index |
| KMeansTree.InPrefixChild | ALLCools/pseudo_cell/pseudo_cell_kmeans.py:33-37 | a cell in a node is in every node on the way down to it |
| KMeansTree.CommonPrefix | ALLCools/pseudo_cell/pseudo_cell_kmeans.py:33-37 | two paths whose nodes both hold a cell agree index by index |
| KMeansTree.SettledUnique | ALLCools/pseudo_cell/pseudo_cell_kmeans.py:37-41 | each cell is settled on one path only |
| KMeansTree.PathOfSettled | ALLCools/pseudo_cell/pseudo_cell_kmeans.py:12-42 | the walk from the root settles each cell, and every path settling it is that walk |
| KMeansTree.Division | ALLCools/pseudo_cell/pseudo_cell_kmeans.py:7-42 | one label per row, none holding `':'` |
| KMeansTree.DivisionBound | ALLCools/pseudo_cell/pseudo_cell_kmeans.py:37-42 | with a cap above 1, the rows sharing a label of `Division` number at most the cap |
| KMeansSplit.DegenerateLabels | ALLCools/pseudo_cell/pseudo_cell_kmeans.py:8-9 | one label per cell, label `i` is `"|" + str(i)` |
| KMeansSplit.DegenerateLabelsDistinct | ALLCools/pseudo_cell/pseudo_cell_kmeans.py:8-9 | without division, different cells get different labels |
| KMeansSplit.DegenerateCount | ALLCools/pseudo_cell/pseudo_cell_kmeans.py:8-9 | without division every label is carried by exactly one cell |
| KMeansSplit.Render | ALLCools/pseudo_cell/pseudo_cell_kmeans.py:33 | a label holds no `':'` and no `'.'` |
| KMeansSplit.RenderInjective | ALLCools/pseudo_cell/pseudo_cell_kmeans.py:33 | different k-means paths never render to the same label |
| KMeansSplit.SplitFactor | ALLCools/pseudo_cell/pseudo_cell_kmeans.py:17 | `1 <= k <= max_k`; `k >= 2` once the subset reaches `max_pseudo_size` cells and `max_k >= 2`; below `max_k`, `k` groups of the cap hold more than the subset |
| KMeansSplit.UpdateAtHit | ALLCools/pseudo_cell/pseudo_cell_kmeans.py:34 | the `.loc` write `UpdateAt` puts the `i`-th value at the `i`-th selected position |
| KMeansSplit.RelabelHit | ALLCools/pseudo_cell/pseudo_cell_kmeans.py:33-35 | `Relabel` gives every popped cell the label `prefix + "|" + j` for its cluster `j`; other cells keep their labels |
| KMeansSplit.Relabel | ALLCools/pseudo_cell/pseudo_cell_kmeans.py:33-34 | the `.loc` write leaves every cell outside the popped subset with its label |
| KMeansSplit.Select | ALLCools/pseudo_cell/pseudo_cell_kmeans.py:37 | group `j` holds as many cells as k-means put in cluster `j`, all from the popped subset |
| KMeansSplit.Oversized | ALLCools/pseudo_cell/pseudo_cell_kmeans.py:38-41 | every group pushed back has an index below `k` and more cells than `max_pseudo_size` |
| KMeansSplit.SelectMember | ALLCools/pseudo_cell/pseudo_cell_kmeans.py:37 | a cell is in group `j` (`Select`) exactly when k-means gave it `j` |
| KMeansSplit.SelectIncreasing | ALLCools/pseudo_cell/pseudo_cell_kmeans.py:37 | a group keeps the order of its subset |
| KMeansSplit.SelectAll | ALLCools/pseudo_cell/pseudo_cell_kmeans.py:37 | when k-means puts every cell in cluster `j`, group `j` is the whole subset |
| KMeansSplit.PushOversized | ALLCools/pseudo_cell/pseudo_cell_kmeans.py:37-41 | the stack grows by the jobs `Children` makes of the groups larger than `max_pseudo_size` (`Oversized`), in cluster order, and every pushed group is larger than the cap |
| KMeansSplit.OversizedRank | ALLCools/pseudo_cell/pseudo_cell_kmeans.py:37-41 | an oversized group is pushed, at the rank given by the oversized groups before it |
| KMeansSplit.OversizedRankInverse | ALLCools/pseudo_cell/pseudo_cell_kmeans.py:37-41 | the `t`-th pushed group has exactly `t` oversized groups before it |
| KMeansSplit.OversizedIncreasing | ALLCools/pseudo_cell/pseudo_cell_kmeans.py:37 | the pushed groups are visited in strictly increasing cluster order |
| KMeansSplit.ChildrenSumSqIsOversizedSq | ALLCools/pseudo_cell/pseudo_cell_kmeans.py:37-41 | the squared sizes of the pushed jobs add up to those of the oversized groups |
| KMeansSplit.OversizedSqBound | ALLCools/pseudo_cell/pseudo_cell_kmeans.py:37-41 | groups of at most `m` cells hold at most `m` times their total size in squared size |
| KMeansSplit.CountNotAll | ALLCools/pseudo_cell/pseudo_cell_kmeans.py:32-37 | when k-means does not put all rows into one cluster, each group is smaller than the subset |
| KMeansSplit.OversizedNone | ALLCools/pseudo_cell/pseudo_cell_kmeans.py:38-39 | a subset within the cap pushes nothing |
| KMeansSplit.SplitShrinks | ALLCools/pseudo_cell/pseudo_cell_kmeans.py:12-41 | with `k >= 2` and a split that is not constant, the squared sizes of the pushed groups add up to less than the square of the popped subset, so the loop ends |
| KMeansSplit.ConstantRequeues | ALLCools/pseudo_cell/pseudo_cell_kmeans.py:32-41 | a k-means answer putting every cell of an oversized subset in one cluster pushes back one job, the same subset under a longer label, so the squared-size measure does not drop |
| KMeansSplit.ContractAllowsLumpAtCap | ALLCools/pseudo_cell/pseudo_cell_kmeans.py:17-41 | the k-means assumption lets a subset of exactly `max_pseudo_size` rows, such as the root of a cluster whose size equals its cap, land in one cluster |
| KMeansSplit.MaxKOneRequeues | ALLCools/pseudo_cell/pseudo_cell_kmeans.py:17-41 | with `max_k = 1` an oversized subset gets `k = 1` and is pushed back whole under a longer label, so the squared sizes do not shrink |
| PseudoGroup.CalculatePseudoGroup | ALLCools/pseudo_cell/pseudo_cell_kmeans.py:45-58 | the records are `Plan`'s: no cells fails as `pd.concat([])` does, `pseudoable_cluster_size == 0` fails, else each cluster's cells named by the division of its own rows under its cap, cluster by cluster |
| PseudoGroup.PlanSound | ALLCools/pseudo_cell/pseudo_cell_kmeans.py:45-58 | `Plan` fails exactly on no cells or a zero `pseudoable_cluster_size`; on success every cell has exactly one record, tagged by its own cluster, and no name is carried by more cells than its cluster's bound |
| PseudoGroup.PlanRecordsPlanned | ALLCools/pseudo_cell/pseudo_cell_kmeans.py:50-57 | the blocks of the first clusters satisfy the plan invariant |
| PseudoGroup.BlockFacts | ALLCools/pseudo_cell/pseudo_cell_kmeans.py:51-55 | the next cluster's block (`ClusterBlock`) is its cells, tagged division labels within the cap |
| PseudoGroup.FloorDivBounds | ALLCools/pseudo_cell/pseudo_cell_kmeans.py:47 | `FloorDiv`, Python's `//`, rounds toward negative infinity, for either sign of divisor |
| PseudoGroup.PseudoCapBounds | ALLCools/pseudo_cell/pseudo_cell_kmeans.py:46-48 | the cap `PseudoCap` is `count // pseudoable + 1` lowered to `max_pseudo_size`: at most both, equal to one of them, positive when `max_pseudo_size` is |
| PseudoGroup.SmallClusterCap | ALLCools/pseudo_cell/pseudo_cell_kmeans.py:47 | a cluster smaller than `pseudoable_cluster_size` gets cap 1, so its cells stay single |
| PseudoGroup.NegativePseudoableCap | ALLCools/pseudo_cell/pseudo_cell_kmeans.py:47 | a negative `pseudoable_cluster_size` gives every cluster a cap of 0 or less, so no cell is merged |
| PseudoGroup.PlanStep | ALLCools/pseudo_cell/pseudo_cell_kmeans.py:51-56 | appending one cluster's tagged labels keeps every earlier record's count and bounds the new ones |
| PseudoGroup.PlannedAll | ALLCools/pseudo_cell/pseudo_cell_kmeans.py:50-58 | once every cluster is processed, each cell has exactly one record, tagged by its cluster, and each name is within its cluster's bound |
| PseudoGroup.NewNameFresh | ALLCools/pseudo_cell/pseudo_cell_kmeans.py:54-56 | a name produced for a new cluster is tagged by that cluster and was not produced before |
| PseudoGroup.BlockCount | ALLCools/pseudo_cell/pseudo_cell_kmeans.py:54-55 | within one cluster, no tagged name is carried by more cells than the cluster's bound |
| PseudoGroup.CellsStep | ALLCools/pseudo_cell/pseudo_cell_kmeans.py:52-56 | appending a cluster's block records each of its cells once and keeps earlier cells recorded once |
| PseudoGroup.OldRecordOk | ALLCools/pseudo_cell/pseudo_cell_kmeans.py:56 | an earlier record keeps its count and bound when another cluster's block is appended |
| PseudoGroup.NewRecordOk | ALLCools/pseudo_cell/pseudo_cell_kmeans.py:54-56 | a record of the new block has its cluster, its tag and its bound |
| PseudoGroup.BlockTagged | ALLCools/pseudo_cell/pseudo_cell_kmeans.py:55 | a rendered label holds no `':'`, so its tagged name is tagged by the cluster |
| PseudoGroup.TagCount | ALLCools/pseudo_cell/pseudo_cell_kmeans.py:55 | tagging every label with the same cluster keeps each group's size |
| PseudoGroup.TaggedRecover | ALLCools/pseudo_cell/pseudo_cell_kmeans.py:55 | a tagged name gives back its cluster under the corrected recovery |
| PseudoLabel.Tag | ALLCools/pseudo_cell/pseudo_cell_kmeans.py:55 | the name is the cluster, two characters, then the label |
| PseudoLabel.RecoverAsWrittenPlain | ALLCools/pseudo_cell/pseudo_cell_kmeans.py:126 | the as-written recovery `RecoverClusterAsWritten` is right for clusters without `':'` |
| PseudoLabel.RecoverAsWrittenLosesColon | ALLCools/pseudo_cell/pseudo_cell_kmeans.py:126 | cluster `"x:"` comes back as `"x"` |
| PseudoLabel.RecoverAsWrittenColonRuns | ALLCools/pseudo_cell/pseudo_cell_kmeans.py:126 | for a colon-free stem `c` and a colon-free label, cluster `c + "::"` comes back whole and `c + ":::"` comes back as `c + "::"`, losing one colon |
| PseudoLabel.RecoverTag | ALLCools/pseudo_cell/pseudo_cell_kmeans.py:126 | the corrected recovery gives back every cluster name from its tagged name |
| PseudoLabel.TagInjective | ALLCools/pseudo_cell/pseudo_cell_kmeans.py:55 | two tagged names are equal only when cluster and label both are |
| Counting.SumCountsWhereDistinct | ALLCools/pseudo_cell/pseudo_cell_kmeans.py:65-94 | for any map `f`, summing group sizes over the distinct names with `f(name) == c` counts the cells whose name maps to `c` |
| Counting.SumCountsDistinct | ALLCools/pseudo_cell/pseudo_cell_kmeans.py:65-94 | the group sizes of the distinct names add up to the number of cells |
| MergePseudoCell.MergeGroup | ALLCools/pseudo_cell/pseudo_cell_kmeans.py:66-94 | a singleton copies its row; a larger group is summed, averaged or one of its rows; an unknown `aggregate_func` fails (ValueError, or AttributeError for `median`) exactly when the group has several cells |
| MergePseudoCell.Merge | ALLCools/pseudo_cell/pseudo_cell_kmeans.py:60-102 | fails exactly when there are no cells (`vstack([])`) or `aggregate_func` is unknown and some group has several cells, with the matching error; otherwise one row per distinct name, merged from its group, with `n_cells` its size |
| MergePseudoCell.AllMergedSnoc | ALLCools/pseudo_cell/pseudo_cell_kmeans.py:65-94 | merging one more group extends the rows merged so far by that group's row (`GroupMerged`) and size |
| MergePseudoCell.MergedFromAll | ALLCools/pseudo_cell/pseudo_cell_kmeans.py:65-102 | once every distinct name is merged in order, the result is the merged table `Merged` |
| MergePseudoCell.TotalIsSumCounts | ALLCools/pseudo_cell/pseudo_cell_kmeans.py:94 | the `n_cells` column adds up to the group sizes, overall and per recovered cluster, for any recovery |
| MergePseudoCell.ColumnSumEntry | ALLCools/pseudo_cell/pseudo_cell_kmeans.py:72 | entry `j` of the column-wise sum `ColumnSum` is the sum of column `j` |
| MergePseudoCell.ColumnSumSingle | ALLCools/pseudo_cell/pseudo_cell_kmeans.py:67-68 | the column-wise sum of one row is that row |
| MergePseudoCell.ColumnMeanTimesCount | ALLCools/pseudo_cell/pseudo_cell_kmeans.py:77 | the mean `ColumnMean` times the number of rows is the column sum |
| MergePseudoCell.MergeConservesCells | ALLCools/pseudo_cell/pseudo_cell_kmeans.py:66-94 | the `n_cells` column adds up to the number of cells |
| MergePseudoCell.MergeConservesClusterCells | ALLCools/pseudo_cell/pseudo_cell_kmeans.py:94-126 | for any recovery of a cluster from a name, `n_cells` summed over the pseudo-cells recovered as `c` counts the cells whose name recovers as `c` |
| MergePseudoCell.AlignFills | ALLCools/pseudo_cell/pseudo_cell_kmeans.py:122 | with one record per cell, the stored column `Align` gives each cell its record's name |
| MergePseudoCell.ColumnCell | ALLCools/pseudo_cell/pseudo_cell_kmeans.py:122 | with one record per cell, cell `p`'s entry of `Column` is the name of its record |
| MergePseudoCell.AlignKeepsGroups | ALLCools/pseudo_cell/pseudo_cell_kmeans.py:122 | the aligned column keeps every name's group size |
| MergePseudoCell.ColumnCellOk | ALLCools/pseudo_cell/pseudo_cell_kmeans.py:118-122 | each cell's column entry is tagged by its cluster and carried by no more cells than the cluster's bound |
| MergePseudoCell.ColumnFacts | ALLCools/pseudo_cell/pseudo_cell_kmeans.py:118-122 | the column of a successful plan tags every cell by its cluster and keeps every group within bound |
| MergePseudoCell.TaggedRecoverAsWritten | ALLCools/pseudo_cell/pseudo_cell_kmeans.py:126 | a name tagged by a cluster without `':'` gives that cluster back under the source's recovery |
| MergePseudoCell.ColonFreeRecovery | ALLCools/pseudo_cell/pseudo_cell_kmeans.py:126 | when no cluster holds `':'`, the source's recovery of every cell's name gives back the cluster column |
| MergePseudoCell.GeneratePseudoCells | ALLCools/pseudo_cell/pseudo_cell_kmeans.py:106-127 | fails with the planning error (no cells, zero `pseudoable_cluster_size`) or the merge error; on success the pseudo-group column is the plan's, tagged by each cell's cluster and within bound, the rows are merged by it, `n_cells` adds up to all cells, the cluster column is the source's `split('::')[:-1]` recovery, whose totals count the cells recovering to each name; when no cluster holds `':'`, each pseudo-cell's cluster is its cells' cluster and the totals are the cluster sizes |
| CMotifNames.BinOfBounds | ALLCools/motif/cmotif.py:75-86 | a position lies in the 20 Mb window of its bin `BinOf` |
| CMotifNames.BinOfUnique | ALLCools/motif/cmotif.py:86 | that window is the only one holding the position |
| CMotifNames.ChromOfFileAsWrittenPlain | ALLCools/motif/cmotif.py:81 | `split('.')[0]` (`ChromOfFileAsWritten`) of a chromosome file name gives back a chromosome without `'.'` |
| CMotifNames.ChromOfFileAsWrittenTruncates | ALLCools/motif/cmotif.py:81 | `"GL000192.1"` comes back as `"GL000192"` |
| CMotifNames.AsWrittenStemsCollide | ALLCools/motif/cmotif.py:81 | `"GL000192.1"` and `"GL000192.2"` come back as the same chromosome |
| CMotifNames.FirstPieceDotFree | ALLCools/motif/cmotif.py:81 | the first `'.'`-piece of any name holds no `'.'` |
| CMotifNames.ChromOf | ALLCools/motif/cmotif.py:81 | the chromosome the source reads back never holds a `'.'` |
| CMotifNames.ChromOfAgrees | ALLCools/motif/cmotif.py:81 | for a chromosome without `'.'`, both readings give it back |
| CMotifNames.ChromOfFileRoundTrip | ALLCools/motif/cmotif.py:81 | stripping the suffix from `ChromFileName` gives back every chromosome name |
| CMotifNames.ChromFileNameOf | ALLCools/motif/cmotif.py:81 | a name with the suffix is the file name of its chromosome |
| CMotifNames.ChromOfFileInjective | ALLCools/motif/cmotif.py:81 | two suffixed names with the same chromosome are the same name |
| CMotifNames.BinRange | ALLCools/motif/cmotif.py:89 | the window text holds no `'.'` |
| CMotifNames.ParseRangeRoundTrip | ALLCools/motif/cmotif.py:100-101 | `ParseRange` reads `"<a>-<b>"` back as start `a` and end `b` |
| CMotifNames.ParseRangeNoDash | ALLCools/motif/cmotif.py:101 | a range without `'-'` has no end, so the row cannot be read |
| CMotifNames.ParseRangeEmptyStart | ALLCools/motif/cmotif.py:100 | a range starting with `'-'` has an empty start, which is no integer |
| CMotifNames.AsWrittenSplitsStem | ALLCools/motif/cmotif.py:99-101 | for chromosome and window without `'.'`, the as-written reading `ParseBinFileNameAsWritten` agrees with the reading from the end |
| CMotifNames.AsWrittenAgrees | ALLCools/motif/cmotif.py:89-101 | for a chromosome without `'.'`, the first-two-pieces reading and the reading from the end give the same row for every bin file name |
| CMotifNames.SplitsStem | ALLCools/motif/cmotif.py:99-101 | reading from the end separates any chromosome from its window |
| CMotifNames.BinFileNameRoundTrip | ALLCools/motif/cmotif.py:89-101 | every `BinFileName` of a non-negative bin reads back as its chromosome and window |
| CMotifNames.ParseBinFileNameNegative | ALLCools/motif/cmotif.py:89-100 | a negative bin's file name cannot be read back |
| CMotifNames.ParseBinFileNameOf | ALLCools/motif/cmotif.py:89-101 | the lookup row of a bin file name is its window exactly when the bin is non-negative |
| CMotifNames.BinFileNameInjective | ALLCools/motif/cmotif.py:89 | distinct chromosomes or distinct non-negative bins never share a bin file name |
| Text.IntToStringRoundTrip | ALLCools/motif/cmotif.py:89-101 | `int()` reads back every number `str()` writes, negative ones included |
| Text.NatToStringInjective | ALLCools/motif/cmotif.py:89 | different bin numbers are written as different text |
| CMotifRecords.SliceBound | ALLCools/motif/cmotif.py:52 | a slice bound is clamped into `[0, n]`, a negative one counted from the end |
| CMotifRecords.PySliceAt | ALLCools/motif/cmotif.py:52 | from a non-negative start, base `i` of the motif `PySlice` cuts is base `start + i` of the chromosome |
| CMotifRecords.HitOf | ALLCools/motif/cmotif.py:53-64 | only a C or a G gives a hit; the flag is 1 exactly when the cytosine is on the hit's strand |
| CMotifRecords.EmitMotif | ALLCools/motif/cmotif.py:52-64 | keys stay unique; at every position the new list is the old one plus the hit of the motif base at `pos - start - 1` |
| CMotifRecords.AddMotifGet | ALLCools/motif/cmotif.py:59-64 | adding a motif (`AddMotif`) appends its own hit at each position it covers and changes no other position |
| CMotifRecords.AddMotifHitsBelow | ALLCools/motif/cmotif.py:59-64 | every hit has a 0/1 flag and an id already handed out |
| CMotifRecords.AddMotifOnCytosines | ALLCools/motif/cmotif.py:52-64 | only C and G positions of the chromosome are recorded |
| CMotifRecords.AddSliceOnCytosines | ALLCools/motif/cmotif.py:52-64 | with a non-negative start, the hits of `seq[start:end]` land only on C and G positions |
| CMotifRecords.AddBaseOnCytosines | ALLCools/motif/cmotif.py:60-64 | a base that is the chromosome's base at `pos` keeps all records on C and G positions |
| CMotifRecords.AddBaseGet | ALLCools/motif/cmotif.py:60-64 | one base (`AddBase`) appends its hit at position `pos` and changes no other position |
| CMotifRecords.AddMotifUnique | ALLCools/motif/cmotif.py:59-64 | adding a motif's hits keeps one entry per position |
| CMotifRecords.MotifHitsAtSnoc | ALLCools/motif/cmotif.py:59-64 | the last base of a motif adds its hit only at its own position |
| CMotifScan.ScanLinesInterns | ALLCools/motif/cmotif.py:28-33 | motif ids handed out by `Intern` are the ranks of the names in first-appearance order, including lines of skipped chromosomes |
| CMotifScan.ScanLineEffect | ALLCools/motif/cmotif.py:37-64 | `ScanLine`: an unknown chromosome changes nothing but the names; the current one gains the motif's hits; a new one flushes the previous records (`Flush`) and starts afresh |
| CMotifScan.ScanAllConsistent | ALLCools/motif/cmotif.py:26-71 | after `ScanAll` every chromosome file is listed, named after a genome chromosome, and holds well-formed hits |
| CMotifScan.ScanAllLocated | ALLCools/motif/cmotif.py:26-71 | with non-negative starts, every recorded position is a C or a G of its chromosome |
| CMotifScan.BuildChromFiles | ALLCools/motif/cmotif.py:19-73 | the loop computes the names, the listed paths and the files of the scan; ids follow first appearance; listed paths and files coincide |
| CMotifScan.ScanBedLines | ALLCools/motif/cmotif.py:26-65 | the loop over the BED lines computes the scan of all lines |
| CMotifScan.ScanLineNames | ALLCools/motif/cmotif.py:28-33 | every line interns its motif name, even on a skipped chromosome |
| CMotifScan.ScanLinesConsistent | ALLCools/motif/cmotif.py:26-65 | after `ScanLines` the listed paths are exactly the dumped files, each named after a genome chromosome, with one entry per position and every motif id already handed out |
| CMotifScan.ScanLinesLocated | ALLCools/motif/cmotif.py:26-65 | with non-negative starts, every recorded position is a C or a G of its chromosome |
| CMotifScan.ScanLinesUnique | ALLCools/motif/cmotif.py:59-64 | the records of the current chromosome keep one entry per position |
| CMotifBins.SplitBins | ALLCools/motif/cmotif.py:80-87 | the bins are well formed, each entry lies in its bin's window, and every position keeps its hits in its own bin |
| CMotifBins.BinsOfGet | ALLCools/motif/cmotif.py:85-87 | a position is found in bin `k // bin_size` of `BinsOf` with the same hits |
| CMotifBins.BinsOfInWindows | ALLCools/motif/cmotif.py:85-87 | each bin holds only positions of its window |
| CMotifBins.BinsNonEmpty | ALLCools/motif/cmotif.py:85-88 | no bin is written empty |
| CMotifBins.SplitAllFails | ALLCools/motif/cmotif.py:79-93 | under either reading, with every listed file present, the split `SplitAll` fails exactly when a path is listed twice; on success the chromosome files are gone and the rest kept |
| CMotifBins.SplitAllError | ALLCools/motif/cmotif.py:83-93 | a failing split reports a missing file |
| CMotifBins.SplitAllKeys | ALLCools/motif/cmotif.py:88-92 | under either reading, the bin files written are exactly the listed bin paths |
| CMotifBins.SplitAllParses | ALLCools/motif/cmotif.py:89-90 | under either reading, non-negative positions give bin names with a readable window |
| CMotifBins.SplitAllAgrees | ALLCools/motif/cmotif.py:79-101 | as written, every listed bin path reads back the same from its first two `'.'`-pieces as from its end |
| CMotifBins.BinNamesAgree | ALLCools/motif/cmotif.py:88-101 | the bin names of a chromosome without `'.'` read back the same either way |
| CMotifBins.SplitAllReadings | ALLCools/motif/cmotif.py:79-93 | when no chromosome holds a `'.'`, the source's split and the corrected one are the same |
| CMotifBins.AllEmptySnoc | ALLCools/motif/cmotif.py:79-93 | every listed file is empty exactly when all but the last are and the last is |
| CMotifBins.SplitAllNoBins | ALLCools/motif/cmotif.py:79-93 | no bin path is listed exactly when every per-chromosome file is empty |
| CMotifBins.SplitAllSound | ALLCools/motif/cmotif.py:79-93 | with the corrected reading, every bin file holds only positions of its chromosome's file within its window |
| CMotifBins.SplitAllComplete | ALLCools/motif/cmotif.py:79-93 | with the corrected reading and non-negative positions, every position of every chromosome file ends up in its bin file with the same hits |
| CMotifBins.CoverAllStep | ALLCools/motif/cmotif.py:79-93 | with the corrected reading, writing one more chromosome's bins covers it and keeps the earlier chromosomes covered |
| CMotifBins.WriteBinsCovers | ALLCools/motif/cmotif.py:85-92 | after `WriteBins` every position of a chromosome file is in the bin file of its window with the same hits |
| CMotifBins.WriteBinsKeepsCovered | ALLCools/motif/cmotif.py:88-92 | with the corrected reading, writing another chromosome's bins never overwrites a covered position |
| CMotifBins.WriteBinsSound | ALLCools/motif/cmotif.py:88-92 | with the corrected reading, the written bin files hold only positions of their chromosome file within their window |
| CMotifBins.WriteBinsKeys | ALLCools/motif/cmotif.py:88-92 | the written bin files are exactly the listed bin paths |
| CMotifBins.BinNamesDistinct | ALLCools/motif/cmotif.py:88-89 | the bins of one chromosome get different file names |
| CMotifBins.SplitAllKeepsFiles | ALLCools/motif/cmotif.py:79-93 | a chromosome file still present after the loop is untouched and was not listed |
| CMotifBins.SplitAllFailureSticks | ALLCools/motif/cmotif.py:79-93 | once a file is missing, the rest of the loop does not change the outcome |
| CMotifBins.SplitOneSingle | ALLCools/motif/cmotif.py:80-93 | `SplitOne` on a chromosome file holding one position writes that position's bin alone and lists it |
| CMotifBins.SingleAfter | ALLCools/motif/cmotif.py:79-93 | the loop's visit to a file holding one position extends the split by that one bin |
| CMotifBins.FirstOfTwo | ALLCools/motif/cmotif.py:79-93 | the first of two single-position files writes its one bin |
| CMotifBins.SameChromCollide | ALLCools/motif/cmotif.py:79-93 | two files read back as the same chromosome, each with one position of the same bin, list the same bin path twice and the second write replaces the first |
| CMotifBins.StemCollision | ALLCools/motif/cmotif.py:79-93 | as written, `"GL000192.1"` and `"GL000192.2"` write positions of one bin to the same file: the path is listed twice and the first scaffold's position is in no bin file |
| CMotifBins.WriteBinFiles | ALLCools/motif/cmotif.py:88-92 | the loop writing one chromosome's bins lists each bin path in order and writes each bin's entries |
| CMotifBins.SplitChromFiles | ALLCools/motif/cmotif.py:79-93 | the source's split of the chromosome files; with every listed file present, it fails exactly on a duplicated path |
| CMotifBins.SplitLoop | ALLCools/motif/cmotif.py:79-93 | the loop over the chromosome files, reading each chromosome as `split('.')[0]`, computes the source's split, stopping at the first missing file |
| CMotifBins.LookupTable | ALLCools/motif/cmotif.py:96-103 | reading each name's first two `'.'`-pieces, it succeeds exactly when there is a bin path and every one parses, with the rows in order and each row naming its file; otherwise a ValueError names an unparsable file, or an empty table raises KeyError |
| CMotif.GenerateCMotifDatabase | ALLCools/motif/cmotif.py:12-105 | names interned in first-appearance order; a repeated chromosome run fails with a missing file; no recorded position fails with KeyError; with non-negative starts it succeeds exactly without repeats and with some position; on success no chromosome file is left and bin files and rows match; for a genome without dotted names every row is sound and every position is found in the bin file its window names |
| CMotif.ScannedReadings | ALLCools/motif/cmotif.py:19-93 | for a genome without dotted names, the source's split of the scanned files is the corrected one |
| CMotif.ScannedNonNegative | ALLCools/motif/cmotif.py:26-65 | with non-negative starts, the scanned files are listed and hold only non-negative positions |
| CMotif.SplitOutcomeShape | ALLCools/motif/cmotif.py:19-93 | the split fails exactly on a repeated chromosome file; on success no chromosome file is left, the bin files are the listed paths, and no path is listed exactly when no position was scanned |
| CMotif.SplitOutcomeSound | ALLCools/motif/cmotif.py:79-93 | with the corrected reading or a dot-free genome, every bin file holds only positions of its chromosome and window; with non-negative starts every scanned position is in its bin file |
| CMotif.SplitOutcome | ALLCools/motif/cmotif.py:19-93 | splitting the scanned files fails exactly on a repeated chromosome; on success all chromosome files are gone, bin files and paths match, no path exactly when no position; with non-negative starts the names read back; with the corrected reading or a dot-free genome the bins are sound, and complete with non-negative starts |
| CMotif.RowsCover | ALLCools/motif/cmotif.py:88-103 | every bin file written has a lookup row and every row names one |
| CMotif.RowsSound | ALLCools/motif/cmotif.py:96-102 | each lookup row read from a sound split names an existing bin file holding only its window's hits |
| CMotif.DotFreeBuildSound | ALLCools/motif/cmotif.py:79-103 | for a genome without dotted names, the source's rows are sound and every recorded position is in the bin file of its window with its hits |

## Left out

- MiniBatchKMeans itself is a parameter. The model assumes it never puts all rows of a subset larger than `max_pseudo_size` into one cluster when `k >= 2`; each cluster of `_calculate_pseudo_group` is assumed this under its own cap. This rules out a subset of more than `max_pseudo_size` identical rows, on which the source never ends (see Findings).
- KMeansDivision.Divide: requires `max_k >= 2`. With `max_k = 1` the source still returns when `max_pseudo_size <= 1` or when no subset has more than `max_pseudo_size` cells. It never ends once a subset exceeds a `max_pseudo_size > 1` (see Findings). `_calculate_pseudo_group` always passes the default 50.
- KMeansDivision.Divide: an empty matrix with `max_pseudo_size > 1` is excluded by a precondition, because MiniBatchKMeans refuses empty input. `_calculate_pseudo_group` never passes one.
- PseudoGroup.CalculatePseudoGroup: `pseudoable_cluster_size == 0` is modelled as a failure (`NonFiniteCap`). Current pandas refuses to cast the infinite caps to `int`; older versions cast them to a large negative number instead, and that outcome is not modelled.
- Group and iteration order: the model's orders differ from the source's in three places.
  - `_kmeans_division`: the model pushes oversized groups in ascending cluster index, where pandas sorts the label strings (`"p|10"` before `"p|2"`). Only the stack order differs, not the labels: `Divide` is proved equal to the order-free `Division`.
  - `_calculate_pseudo_group`: the model visits clusters in order of first appearance, where `value_counts` orders them by descending count. Only the order of the records differs.
  - `_merge_pseudo_cell`: the model merges groups in order of first appearance, where pandas sorts the group names. Only the order of the merged rows differs.
- Matrix entries are exact reals. Floating-point rounding of sums and means is not modelled.
- `median`: matrices have no `median` method, so that name always fails with AttributeError on groups of several cells. The model states this outcome.
- `downsample` draws one cell at random. The model picks any member of the group.
- Sparse versus dense storage, `var`, the AnnData container and the `obsm` lookup are not modelled. The rows are plain sequences.
- BED lines arrive already split at tabs, with `int()` already applied to the bounds. A malformed line and Python's lenient `int()` syntax are not modelled.
- Reading the `.fai` index and FASTA is not modelled. The genome is a map of upper-case sequences. A chromosome missing from it is skipped, as the `KeyError` branch does.
- `mkdir`, `print`, msgpack encoding and `subprocess` are not modelled. Files are maps from name to contents, and `rm -f` removes a map entry.
- Chromosome files and bin files are kept in two separate maps. A bin file whose name equals a chromosome file name is not modelled.
- `MOTIF_NAMES.msg` is written before the split. In the source it stays on disk even when the split later fails; the model returns only the error.
- `LOOKUP_TABLE.msg` is written to the working directory with `DataFrame.to_msgpack`. That method no longer exists in current pandas. The model returns the rows instead.
- CMotifBins.LookupTable: a bin name with fewer than two `'.'`-pieces, or a window without `'-'`, raises `IndexError` in the source; the model reports it as `ValueError`. The build never produces such a name.
- Bins are walked in first-insertion order. `defaultdict` iterates the same way.
- CMotifRecords.PySliceAt: stated only for a non-negative start, because BED starts are never negative. A negative start slices from the chromosome's end, and the model computes that without a lemma about it.
- CMotif.GenerateCMotifDatabase: the success condition is stated only when every BED start is non-negative. With a negative start, a position can fall in a negative bin, and that bin's lookup row fails with ValueError. The model computes this outcome, but its contract does not state when it happens.
- CMotif.GenerateCMotifDatabase: soundness of the rows and completeness of the bin files are stated only for a genome without dotted chromosome names. For dotted names the source loses positions, as StemCollision shows.
- CMotif.SplitOutcome: soundness and completeness are stated for the corrected reading, and for the source's reading only on a genome without dotted names.
- CMotifBins.SplitAllSound: stated for the corrected reading; the source's reading meets it only when no chromosome holds a `'.'` (SplitAllReadings).
- CMotifBins.SplitAllComplete: stated for the corrected reading; the source's reading can lose positions (StemCollision).
- CMotifBins.CoverAllStep: stated for the corrected reading; under the source's reading a later scaffold with the same stem uncovers an earlier one.
- CMotifBins.WriteBinsKeepsCovered: stated for the corrected reading; under the source's reading two scaffolds with the same stem write the same bin file.
- CMotifBins.WriteBinsSound: stated for the corrected reading; under the source's reading a dotted chromosome's bins name a chromosome with no file.

## Findings

| source | as written | input that shows it | evidently intended | confidence | as-written member | corrected member |
|---|---|---|---|---|---|---|
| ALLCools/pseudo_cell/pseudo_cell_kmeans.py:126 | the cluster is read back as the pieces before the last `"::"` after splitting at every `"::"`, so a cluster name ending in an odd number of `':'` loses its last one (`"x::"` comes back whole, `"x:::"` as `"x::"`) | cluster `"x:"`: name `"x:::|0"` splits into `["x", ":|0"]`, giving cluster `"x"` | the text before the last `"::"` of the name | not executed | PseudoLabel.RecoverAsWrittenLosesColon | PseudoLabel.RecoverTag |
| ALLCools/motif/cmotif.py:81 | the chromosome of a file is `name.split('.')[0]`, so scaffolds sharing a stem write the same bin files and the later one replaces the earlier one's positions | chromosomes `"GL000192.1"` and `"GL000192.2"`, each with a position in bin 0: both write `"GL000192.0-20000000.c_motif.msg"`, listed twice, and the first position is in no bin file | the file name without its `.c_motif.msg` suffix, so each chromosome keeps its own bins | not executed | CMotifBins.StemCollision | CMotifBins.SplitAllComplete |
| ALLCools/pseudo_cell/pseudo_cell_kmeans.py:17 | `k = min(n // max_pseudo_size + 1, max_k)` is 1 whenever `max_k = 1`, so an oversized subset is put back on the stack whole and the loop never ends | `max_k = 1`, `max_pseudo_size = 2`, three cells: k-means with one cluster labels all three `0`, and the same three cells are pushed again under `"|0"`, then `"|0|0"`, and so on | at least two clusters for a subset larger than the cap, so every split shrinks it | not executed | KMeansSplit.MaxKOneRequeues | KMeansSplit.SplitShrinks |
| ALLCools/pseudo_cell/pseudo_cell_kmeans.py:38-41 | a group larger than `max_pseudo_size` is pushed back whatever k-means did with it, so when k-means puts a whole oversized subset in one cluster, as MiniBatchKMeans does with identical rows, the same subset is pushed again and the loop never ends; unlike the `max_k = 1` case this happens with the default `max_k = 50` | `max_pseudo_size = 2` and three identical rows: `k = 2`, every row lands in cluster 0, and the three cells are pushed again under `"|0"`, then `"|0|0"`, and so on | a split that leaves the subset whole is not pushed again (it stops, or the subset is divided some other way), so every pushed job is smaller than its parent | not executed | KMeansSplit.ConstantRequeues | KMeansSplit.SplitShrinks |
