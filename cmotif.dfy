/**
 * `_generate_c_motif_database` in ALLCools/motif/cmotif.py as a whole: scan
 * the motif BED lines into per-chromosome files, split each into 20 Mb bin
 * files, and list the bin files in a lookup table.
 */
module CMotif {
  import opened Wrappers
  import opened Counting
  import opened OrderedMap
  import opened CMotifNames
  import opened CMotifRecords
  import opened CMotifScan
  import opened CMotifBins

  /**
   * What a successful build leaves: the motif name table, the
   * per-chromosome files still on disk, the bin files and the lookup table.
   */
  datatype Database = Database(
    motifNames: map<string, nat>,
    chromFiles: map<string, PosRecords>,
    binFiles: map<string, PosRecords>,
    lookup: seq<LookupRecord>)

  /** BED coordinates are never negative. */
  predicate StartsNonNegative(lines: seq<BedLine>) {
    forall i :: 0 <= i < |lines| ==> 0 <= lines[i].start
  }

  /**
   * A lookup row is sound when its bin file exists, the per-chromosome file
   * of its chromosome was written, and every position of the bin file lies
   * in the row's window with the hits that per-chromosome file recorded.
   */
  ghost predicate RowSound(row: LookupRecord, binFiles: map<string, PosRecords>, files: map<string, PosRecords>) {
    && row.fileName in binFiles
    && ChromFileName(row.chrom) in files
    && forall j :: 0 <= j < |binFiles[row.fileName]| ==>
         var e := binFiles[row.fileName][j];
         && row.start <= e.key < row.end
         && Find(files[ChromFileName(row.chrom)], e.key).Some?
         && Get(files[ChromFileName(row.chrom)], e.key, []) == e.value
  }

  /** No chromosome of the genome holds a `'.'`, as in the primary assemblies. */
  predicate DotFreeGenome(genome: map<string, string>) {
    forall c :: c in genome ==> '.' !in c
  }

  /** Some per-chromosome file holds at least one position. */
  predicate HasRecords(files: map<string, PosRecords>) {
    exists p :: p in files && files[p] != []
  }

  /** The files of a dot-free genome read back the same either way. */
  lemma ScannedReadings(lines: seq<BedLine>, genome: map<string, string>)
    requires DotFreeGenome(genome)
    ensures var s := ScanAll(lines, genome);
      SplitAll(AsWritten, s.chromFilePaths, s.files) == SplitAll(Corrected, s.chromFilePaths, s.files)
  {
    var s := ScanAll(lines, genome);
    ScanAllConsistent(lines, genome);
    SplitAllReadings(s.chromFilePaths, s.files);
  }

  /**
   * Scanning, then splitting under either reading of the chromosome: the
   * split fails exactly when a file is listed twice; on success no
   * per-chromosome file is left, the bin files are the listed paths, and no
   * bin path is listed exactly when no file holds a position.
   */
  lemma SplitOutcomeShape(rd: Reading, lines: seq<BedLine>, genome: map<string, string>)
    ensures var s := ScanAll(lines, genome);
      SplitAll(rd, s.chromFilePaths, s.files).Failure? <==> !NoDuplicates(s.chromFilePaths)
    ensures var s := ScanAll(lines, genome);
      SplitAll(rd, s.chromFilePaths, s.files).Success? ==>
        var st := SplitAll(rd, s.chromFilePaths, s.files).value;
        && st.files == map[]
        && KeysListed(st)
        && (st.binPaths == [] <==> !HasRecords(s.files))
  {
    var s := ScanAll(lines, genome);
    ScanAllConsistent(lines, genome);
    assert ReadyToSplit(s.chromFilePaths, s.files);
    SplitAllFails(rd, s.chromFilePaths, s.files);
    SplitAllNoBins(rd, s.chromFilePaths, s.files);
    SplitAllKeys(rd, s.chromFilePaths, s.files);
    if SplitAll(rd, s.chromFilePaths, s.files).Success? {
      var st := SplitAll(rd, s.chromFilePaths, s.files).value;
      assert forall p :: p !in st.files;
      assert AllEmpty(s.chromFilePaths, s.files) <==> !HasRecords(s.files) by {
        if HasRecords(s.files) {
          var p :| p in s.files && s.files[p] != [];
          var i :| 0 <= i < |s.chromFilePaths| && s.chromFilePaths[i] == p;
        }
      }
    }
  }

  /** With non-negative starts the scanned files hold only non-negative positions. */
  lemma ScannedNonNegative(lines: seq<BedLine>, genome: map<string, string>)
    requires StartsNonNegative(lines)
    ensures var s := ScanAll(lines, genome); ReadyToSplit(s.chromFilePaths, s.files) && NonNegativeKeys(s.files)
  {
    var s := ScanAll(lines, genome);
    ScanAllConsistent(lines, genome);
    ScanAllLocated(lines, genome);
    forall p | p in s.files ensures forall j :: 0 <= j < |s.files[p]| ==> 0 <= s.files[p][j].key {
      assert OnCytosines(s.files[p], genome[ChromOfFile(p)]);
    }
  }

  /** With the corrected reading, or a genome without dotted names, the split's bin files are sound and complete. */
  lemma SplitOutcomeSound(rd: Reading, lines: seq<BedLine>, genome: map<string, string>)
    requires rd == Corrected || DotFreeGenome(genome)
    ensures var s := ScanAll(lines, genome);
      SplitAll(rd, s.chromFilePaths, s.files).Success? ==>
        SoundBins(SplitAll(rd, s.chromFilePaths, s.files).value.binFiles, s.files)
    ensures var s := ScanAll(lines, genome);
      StartsNonNegative(lines) && SplitAll(rd, s.chromFilePaths, s.files).Success? ==>
        var st := SplitAll(rd, s.chromFilePaths, s.files).value;
        forall p :: p in s.files ==> Covered(p, s.files, st.binFiles)
  {
    var s := ScanAll(lines, genome);
    ScanAllConsistent(lines, genome);
    if rd == AsWritten {
      ScannedReadings(lines, genome);
    }
    if SplitAll(Corrected, s.chromFilePaths, s.files).Success? {
      SplitAllSound(s.chromFilePaths, s.files);
      if StartsNonNegative(lines) {
        ScannedNonNegative(lines, genome);
        SplitAllComplete(s.chromFilePaths, s.files);
        var st := SplitAll(Corrected, s.chromFilePaths, s.files).value;
        forall p | p in s.files ensures Covered(p, s.files, st.binFiles) {
          var i :| 0 <= i < |s.chromFilePaths| && s.chromFilePaths[i] == p;
        }
      }
    }
  }

  /**
   * Scanning, then splitting under either reading of the chromosome. The
   * split fails exactly when a file is listed twice; on success no
   * per-chromosome file is left and no bin path is listed exactly when no
   * file holds a position, and the bin files are the listed paths. With
   * non-negative starts every bin path has a readable window. With the
   * corrected reading, or a genome without dotted names, the bin files are
   * sound; with non-negative starts as well, every recorded position is in
   * its bin file.
   */
  lemma SplitOutcome(rd: Reading, lines: seq<BedLine>, genome: map<string, string>)
    ensures var s := ScanAll(lines, genome);
      SplitAll(rd, s.chromFilePaths, s.files).Failure? <==> !NoDuplicates(s.chromFilePaths)
    ensures var s := ScanAll(lines, genome);
      SplitAll(rd, s.chromFilePaths, s.files).Success? ==>
        var st := SplitAll(rd, s.chromFilePaths, s.files).value;
        && st.files == map[]
        && KeysListed(st)
        && (st.binPaths == [] <==> !HasRecords(s.files))
    ensures var s := ScanAll(lines, genome);
      StartsNonNegative(lines) && SplitAll(rd, s.chromFilePaths, s.files).Success? ==>
        var st := SplitAll(rd, s.chromFilePaths, s.files).value;
        forall j :: 0 <= j < |st.binPaths| ==> Readable(st.binPaths[j])
    ensures var s := ScanAll(lines, genome);
      (rd == Corrected || DotFreeGenome(genome)) && SplitAll(rd, s.chromFilePaths, s.files).Success? ==>
        SoundBins(SplitAll(rd, s.chromFilePaths, s.files).value.binFiles, s.files)
    ensures var s := ScanAll(lines, genome);
      (rd == Corrected || DotFreeGenome(genome)) && StartsNonNegative(lines) && SplitAll(rd, s.chromFilePaths, s.files).Success? ==>
        var st := SplitAll(rd, s.chromFilePaths, s.files).value;
        forall p :: p in s.files ==> Covered(p, s.files, st.binFiles)
  {
    var s := ScanAll(lines, genome);
    SplitOutcomeShape(rd, lines, genome);
    if StartsNonNegative(lines) {
      ScannedNonNegative(lines, genome);
      SplitAllParses(rd, s.chromFilePaths, s.files);
    }
    if rd == Corrected || DotFreeGenome(genome) {
      SplitOutcomeSound(rd, lines, genome);
    }
  }

  /** The rows read from the bin paths of a sound split are sound. */
  lemma RowsSound(st: Split, rows: seq<LookupRecord>, files: map<string, PosRecords>)
    requires SoundBins(st.binFiles, files)
    requires forall name :: name in st.binFiles <==> name in st.binPaths
    requires |rows| == |st.binPaths|
    requires forall i :: 0 <= i < |rows| ==> ParseBinFileName(st.binPaths[i]) == Some(rows[i])
    ensures forall i :: 0 <= i < |rows| ==> RowSound(rows[i], st.binFiles, files)
  {
    forall i | 0 <= i < |rows| ensures RowSound(rows[i], st.binFiles, files) {
      assert rows[i].fileName == st.binPaths[i];
      assert SoundBin(st.binPaths[i], st.binFiles[st.binPaths[i]], files);
    }
  }

  /** Every bin file has a row, and every row names a bin file. */
  lemma RowsCover(st: Split, rows: seq<LookupRecord>)
    requires forall name :: name in st.binFiles <==> name in st.binPaths
    requires |rows| == |st.binPaths|
    requires forall i :: 0 <= i < |rows| ==> rows[i].fileName == st.binPaths[i]
    ensures forall name :: name in st.binFiles <==> exists i :: 0 <= i < |rows| && rows[i].fileName == name
  {
    forall name | name in st.binFiles ensures exists i :: 0 <= i < |rows| && rows[i].fileName == name {
      var i :| 0 <= i < |st.binPaths| && st.binPaths[i] == name;
    }
  }

  /**
   * For a genome without dotted chromosome names, the rows the source reads
   * from its bin paths are sound and, with non-negative starts, every
   * recorded position is in the bin file its row names.
   */
  lemma DotFreeBuildSound(lines: seq<BedLine>, genome: map<string, string>, st: Split, rows: seq<LookupRecord>)
    requires DotFreeGenome(genome)
    requires var s := ScanAll(lines, genome); SplitAll(AsWritten, s.chromFilePaths, s.files) == Success(st)
    requires |rows| == |st.binPaths|
    requires forall i :: 0 <= i < |rows| ==> ParseBinFileNameAsWritten(st.binPaths[i]) == Some(rows[i])
    ensures forall i :: 0 <= i < |rows| ==> RowSound(rows[i], st.binFiles, ScanAll(lines, genome).files)
    ensures StartsNonNegative(lines) ==>
      var files := ScanAll(lines, genome).files;
      forall p, k :: p in files && Find(files[p], k).Some? ==>
        var name := BinFileName(ChromOfFile(p), BinOf(k));
        && name in st.binFiles
        && Find(st.binFiles[name], k).Some?
        && Get(st.binFiles[name], k, []) == Get(files[p], k, [])
  {
    var s := ScanAll(lines, genome);
    SplitOutcome(AsWritten, lines, genome);
    SplitAllAgrees(s.chromFilePaths, s.files);
    forall i | 0 <= i < |rows| ensures ParseBinFileName(st.binPaths[i]) == Some(rows[i]) {
      assert ReadingsAgree(st.binPaths[i]);
    }
    RowsSound(st, rows, s.files);
    if StartsNonNegative(lines) {
      forall p, k | p in s.files && Find(s.files[p], k).Some?
        ensures var name := BinFileName(ChromOfFile(p), BinOf(k));
          name in st.binFiles && Find(st.binFiles[name], k).Some? && Get(st.binFiles[name], k, []) == Get(s.files[p], k, [])
      {
        assert CoveredAt(p, s.files, st.binFiles, k);
      }
    }
  }

  /**
   * The whole build, with the chromosome of each file read back as the
   * source does. On success: the name table interns the names in
   * first-appearance order, no per-chromosome file is left, and every bin
   * file has a row. With non-negative starts it fails exactly when some
   * chromosome's lines are not contiguous (its file is written twice) or
   * no position was recorded at all (the empty table raises `KeyError`).
   * For a genome without dotted chromosome names, every lookup row is
   * sound and, with non-negative starts, every recorded position can be
   * found through the lookup table with the hits the scan recorded.
   */
  method GenerateCMotifDatabase(lines: seq<BedLine>, genome: map<string, string>)
    returns (r: Result<Database, CMotifError>)
    ensures r.Success? ==> r.value.motifNames == ScanAll(lines, genome).motifNames
    ensures r.Success? ==>
      var ds := Distinct(Names(lines));
      forall j :: 0 <= j < |ds| ==> ds[j] in r.value.motifNames && r.value.motifNames[ds[j]] == j
    ensures r.Success? ==> r.value.chromFiles == map[]
    ensures r.Success? ==>
      forall name :: name in r.value.binFiles <==> exists i :: 0 <= i < |r.value.lookup| && r.value.lookup[i].fileName == name
    ensures !NoDuplicates(ScanAll(lines, genome).chromFilePaths) ==> r.Failure? && r.error.FileNotFound?
    ensures StartsNonNegative(lines) ==>
      (r.Success? <==> NoDuplicates(ScanAll(lines, genome).chromFilePaths) && HasRecords(ScanAll(lines, genome).files))
    ensures NoDuplicates(ScanAll(lines, genome).chromFilePaths) && !HasRecords(ScanAll(lines, genome).files) ==>
      r == Failure(KeyError)
    ensures DotFreeGenome(genome) && r.Success? ==>
      forall i :: 0 <= i < |r.value.lookup| ==> RowSound(r.value.lookup[i], r.value.binFiles, ScanAll(lines, genome).files)
    ensures DotFreeGenome(genome) && StartsNonNegative(lines) && r.Success? ==>
      var files := ScanAll(lines, genome).files;
      forall p, k :: p in files && Find(files[p], k).Some? ==>
        var name := BinFileName(ChromOfFile(p), BinOf(k));
        && name in r.value.binFiles
        && Find(r.value.binFiles[name], k).Some?
        && Get(r.value.binFiles[name], k, []) == Get(files[p], k, [])
  {
    var motifNames, chromFilePaths, files := BuildChromFiles(lines, genome);
    ScanLinesInterns(lines, genome);
    SplitOutcome(AsWritten, lines, genome);
    var split := SplitChromFiles(chromFilePaths, files);
    if split.Failure? {
      SplitAllError(AsWritten, chromFilePaths, files);
      r := Failure(split.error);
      return;
    }
    var st := split.value;
    assert NoDuplicates(chromFilePaths);
    SplitAllAgrees(chromFilePaths, files);
    var lookup := LookupTable(st.binPaths);
    if lookup.Failure? {
      r := Failure(lookup.error);
      return;
    }
    var rows := lookup.value;
    RowsCover(st, rows);
    if DotFreeGenome(genome) {
      DotFreeBuildSound(lines, genome, st, rows);
    }
    r := Success(Database(motifNames, st.files, st.binFiles, rows));
  }
}
