/**
 * The line loop of `_generate_c_motif_database` in ALLCools/motif/cmotif.py:
 * motif names are interned to consecutive ids, a line on a chromosome the
 * genome lacks is skipped, the records of a chromosome are written to
 * `"<chrom>.c_motif.msg"` when a line on another chromosome comes and after
 * the last line, and every other line adds the hits of its C and G bases.
 */
module CMotifScan {
  import opened Counting
  import opened OrderedMap
  import opened CMotifNames
  import opened CMotifRecords

  /** One line of the motif BED file, split at tabs and with its bounds read as integers. */
  datatype BedLine = BedLine(chrom: string, start: int, end: int, name: string, strand: string)

  /** The loop's variables, and the per-chromosome files written so far. */
  datatype Scan = Scan(
    nextId: nat,
    motifNames: map<string, nat>,
    curChrom: string,
    chromSeq: string,
    records: PosRecords,
    chromFilePaths: seq<string>,
    files: map<string, PosRecords>)

  const Init: Scan := Scan(0, map[], "", "", [], [], map[])

  /** The motif names of the lines, in file order. */
  function Names(lines: seq<BedLine>): (ns: seq<string>)
    ensures |ns| == |lines| && forall i :: 0 <= i < |lines| ==> ns[i] == lines[i].name
  {
    seq(|lines|, i requires 0 <= i < |lines| => lines[i].name)
  }

  /** Look the name up, or give it the next id. */
  function Intern(s: Scan, name: string): Scan
  {
    if name in s.motifNames then s
    else s.(motifNames := s.motifNames[name := s.nextId], nextId := s.nextId + 1)
  }

  /** Write the current chromosome's records to its file, if there is a current chromosome. */
  function Flush(s: Scan): Scan
  {
    if s.curChrom == "" then s
    else
      var path := ChromFileName(s.curChrom);
      s.(chromFilePaths := s.chromFilePaths + [path], files := s.files[path := s.records])
  }

  /** The forward strand is the one written `"+"`; anything else counts as reverse. */
  predicate Forward(line: BedLine) {
    line.strand == "+"
  }

  /** One line of the loop. */
  function ScanLine(s: Scan, line: BedLine, genome: map<string, string>): Scan
  {
    var t := Intern(s, line.name);
    if line.chrom != t.curChrom && line.chrom !in genome then t
    else
      var u := if line.chrom == t.curChrom then t
               else Flush(t).(curChrom := line.chrom, chromSeq := genome[line.chrom], records := []);
      var motif := PySlice(u.chromSeq, line.start, line.end);
      u.(records := AddMotif(u.records, line.start, motif, Forward(line), t.motifNames[line.name]))
  }

  /** The loop over all lines. */
  function ScanLines(lines: seq<BedLine>, genome: map<string, string>): Scan
    decreases |lines|
  {
    if lines == [] then Init
    else ScanLine(ScanLines(lines[..|lines| - 1], genome), lines[|lines| - 1], genome)
  }

  /** The loop and the final dump. */
  function ScanAll(lines: seq<BedLine>, genome: map<string, string>): Scan
  {
    Flush(ScanLines(lines, genome))
  }

  // ------------------------------------------------------------- interning

  /** The ids of the names are their ranks in first-appearance order. */
  ghost predicate InternedAs(s: Scan, names: seq<string>) {
    var ds := Distinct(names);
    && s.nextId == |ds|
    && (forall name :: name in s.motifNames <==> name in names)
    && (forall j :: 0 <= j < |ds| ==> ds[j] in s.motifNames && s.motifNames[ds[j]] == j)
  }

  lemma ScanLineNames(s: Scan, line: BedLine, genome: map<string, string>)
    ensures ScanLine(s, line, genome).motifNames == Intern(s, line.name).motifNames
    ensures ScanLine(s, line, genome).nextId == Intern(s, line.name).nextId
  {
  }

  /**
   * Every line's name is interned, on a chromosome of the genome or not: the
   * `j`-th distinct name gets id `j`, and the next id is the number of
   * distinct names.
   */
  lemma {:induction false} ScanLinesInterns(lines: seq<BedLine>, genome: map<string, string>)
    ensures InternedAs(ScanLines(lines, genome), Names(lines))
    decreases |lines|
  {
    if lines != [] {
      var n := |lines|;
      var init := lines[..n - 1];
      var s := ScanLines(init, genome);
      ScanLinesInterns(init, genome);
      ScanLineNames(s, lines[n - 1], genome);
      var names := Names(lines);
      assert names[..n - 1] == Names(init);
      assert names == Names(init) + [lines[n - 1].name];
      var x := lines[n - 1].name;
      assert x in s.motifNames <==> x in Names(init);
      assert x in Distinct(Names(init)) <==> x in Names(init);
    }
  }

  // ------------------------------------------------------------ consistency

  /** What holds of the loop's state after every line. */
  ghost predicate Consistent(s: Scan, genome: map<string, string>) {
    && UniqueKeys(s.records)
    && (forall name :: name in s.motifNames ==> s.motifNames[name] < s.nextId)
    && HitsBelow(s.records, s.nextId)
    && (forall p :: p in s.files ==> HitsBelow(s.files[p], s.nextId))
    && (forall p :: p in s.files <==> p in s.chromFilePaths)
    && (forall p :: p in s.files ==> HasSuffix(p) && ChromOfFile(p) in genome)
    && (s.curChrom != "" || s.chromSeq != "" ==> s.curChrom in genome && s.chromSeq == genome[s.curChrom])
  }

  lemma InternConsistent(s: Scan, name: string, genome: map<string, string>)
    requires Consistent(s, genome)
    ensures Consistent(Intern(s, name), genome)
    ensures name in Intern(s, name).motifNames
  {
    var t := Intern(s, name);
    HitsBelowMono(s.records, s.nextId, t.nextId);
    forall p | p in s.files ensures HitsBelow(s.files[p], t.nextId) {
      HitsBelowMono(s.files[p], s.nextId, t.nextId);
    }
  }

  /** A flush writes the current chromosome's file and nothing else. */
  lemma FlushConsistent(s: Scan, genome: map<string, string>)
    requires Consistent(s, genome)
    ensures Consistent(Flush(s), genome)
  {
    if s.curChrom != "" {
      var path := ChromFileName(s.curChrom);
      ChromOfFileRoundTrip(s.curChrom);
      assert path[|path| - |Suffix|..] == Suffix;
    }
  }

  lemma ScanLineConsistent(s: Scan, line: BedLine, genome: map<string, string>)
    requires Consistent(s, genome)
    ensures Consistent(ScanLine(s, line, genome), genome)
  {
    var t := Intern(s, line.name);
    InternConsistent(s, line.name, genome);
    if !(line.chrom != t.curChrom && line.chrom !in genome) {
      var u := if line.chrom == t.curChrom then t
               else Flush(t).(curChrom := line.chrom, chromSeq := genome[line.chrom], records := []);
      FlushConsistent(t, genome);
      assert Consistent(u, genome);
      var motif := PySlice(u.chromSeq, line.start, line.end);
      var id := t.motifNames[line.name];
      AddMotifUnique(u.records, line.start, motif, Forward(line), id);
      AddMotifHitsBelow(u.records, line.start, motif, Forward(line), id, u.nextId);
    }
  }

  lemma {:induction false} ScanLinesConsistent(lines: seq<BedLine>, genome: map<string, string>)
    ensures Consistent(ScanLines(lines, genome), genome)
    decreases |lines|
  {
    if lines != [] {
      ScanLinesConsistent(lines[..|lines| - 1], genome);
      ScanLineConsistent(ScanLines(lines[..|lines| - 1], genome), lines[|lines| - 1], genome);
    }
  }

  /** After the final dump, every chromosome file holds well-formed hits and is listed. */
  lemma ScanAllConsistent(lines: seq<BedLine>, genome: map<string, string>)
    ensures Consistent(ScanAll(lines, genome), genome)
  {
    ScanLinesConsistent(lines, genome);
    FlushConsistent(ScanLines(lines, genome), genome);
  }

  // -------------------------------------------------------- one line's effect

  /**
   * What one line does: a line on a chromosome the genome lacks only has its
   * name interned; a line on the current chromosome adds its hits to the
   * current records; a line on another chromosome of the genome writes the
   * current records to their file (unless there is no current chromosome)
   * and starts fresh records holding its own hits.
   */
  lemma ScanLineEffect(s: Scan, line: BedLine, genome: map<string, string>)
    requires UniqueKeys(s.records)
    ensures var r := ScanLine(s, line, genome);
      line.name in r.motifNames
    ensures var r := ScanLine(s, line, genome);
      line.chrom != s.curChrom && line.chrom !in genome ==>
        r == Intern(s, line.name) && r.records == s.records && r.files == s.files && r.curChrom == s.curChrom
    ensures var r := ScanLine(s, line, genome); var id := r.motifNames[line.name];
      line.chrom == s.curChrom ==>
        && r.files == s.files && r.chromFilePaths == s.chromFilePaths
        && forall q :: Get(r.records, q, []) == Get(s.records, q, []) + MotifHitsAt(line.start, PySlice(s.chromSeq, line.start, line.end), Forward(line), id, q)
    ensures var r := ScanLine(s, line, genome); var id := r.motifNames[line.name];
      line.chrom != s.curChrom && line.chrom in genome ==>
        && r.curChrom == line.chrom && r.chromSeq == genome[line.chrom]
        && (s.curChrom != "" ==> r.files == s.files[ChromFileName(s.curChrom) := s.records])
        && (s.curChrom != "" ==> r.chromFilePaths == s.chromFilePaths + [ChromFileName(s.curChrom)])
        && (s.curChrom == "" ==> r.files == s.files && r.chromFilePaths == s.chromFilePaths)
        && forall q :: Get(r.records, q, []) == MotifHitsAt(line.start, PySlice(genome[line.chrom], line.start, line.end), Forward(line), id, q)
  {
    var r := ScanLine(s, line, genome);
    var t := Intern(s, line.name);
    var id := t.motifNames[line.name];
    if line.chrom == s.curChrom {
      forall q ensures Get(r.records, q, []) == Get(s.records, q, []) + MotifHitsAt(line.start, PySlice(s.chromSeq, line.start, line.end), Forward(line), id, q) {
        AddMotifGet(s.records, line.start, PySlice(s.chromSeq, line.start, line.end), Forward(line), id, q);
      }
    } else if line.chrom in genome {
      var motif := PySlice(genome[line.chrom], line.start, line.end);
      forall q ensures Get(r.records, q, []) == MotifHitsAt(line.start, motif, Forward(line), id, q) {
        AddMotifGet([], line.start, motif, Forward(line), id, q);
        assert Get<seq<Hit>>([], q, []) == [];
      }
    }
  }

  // ---------------------------------------------------------------- location

  /**
   * Every recorded position is a C or a G of its chromosome: of the loaded
   * one for the current records, of the file's chromosome for a written file.
   */
  ghost predicate Located(s: Scan, genome: map<string, string>) {
    && OnCytosines(s.records, s.chromSeq)
    && forall p :: p in s.files && ChromOfFile(p) in genome ==> OnCytosines(s.files[p], genome[ChromOfFile(p)])
  }

  lemma ScanLineLocated(s: Scan, line: BedLine, genome: map<string, string>)
    requires Consistent(s, genome) && Located(s, genome) && 0 <= line.start
    ensures Located(ScanLine(s, line, genome), genome)
  {
    var t := Intern(s, line.name);
    if !(line.chrom != t.curChrom && line.chrom !in genome) {
      var u := if line.chrom == t.curChrom then t
               else Flush(t).(curChrom := line.chrom, chromSeq := genome[line.chrom], records := []);
      if line.chrom != t.curChrom && t.curChrom != "" {
        ChromOfFileRoundTrip(t.curChrom);
      }
      assert Located(u, genome);
      AddSliceOnCytosines(u.records, u.chromSeq, line.start, line.end, Forward(line), t.motifNames[line.name]);
    }
  }

  /** BED starts are never negative; with that, every position recorded anywhere is a C or a G of its chromosome. */
  lemma {:induction false} ScanLinesLocated(lines: seq<BedLine>, genome: map<string, string>)
    requires forall i :: 0 <= i < |lines| ==> 0 <= lines[i].start
    ensures Located(ScanLines(lines, genome), genome)
    decreases |lines|
  {
    if lines != [] {
      var init := lines[..|lines| - 1];
      ScanLinesLocated(init, genome);
      ScanLinesConsistent(init, genome);
      ScanLineLocated(ScanLines(init, genome), lines[|lines| - 1], genome);
    }
  }

  lemma ScanAllLocated(lines: seq<BedLine>, genome: map<string, string>)
    requires forall i :: 0 <= i < |lines| ==> 0 <= lines[i].start
    ensures Located(ScanAll(lines, genome), genome)
  {
    var s := ScanLines(lines, genome);
    ScanLinesLocated(lines, genome);
    ScanLinesConsistent(lines, genome);
    if s.curChrom != "" {
      ChromOfFileRoundTrip(s.curChrom);
    }
  }

  // ------------------------------------------------------------------ the loop

  /** The records of the current chromosome never hold a position twice. */
  lemma ScanLinesUnique(lines: seq<BedLine>, genome: map<string, string>)
    ensures UniqueKeys(ScanLines(lines, genome).records)
  {
    ScanLinesConsistent(lines, genome);
  }

  /** The loop over the BED lines: the state it leaves is the scan of all lines. */
  method ScanBedLines(lines: seq<BedLine>, genome: map<string, string>) returns (s: Scan)
    ensures s == ScanLines(lines, genome)
  {
    var curNameId: nat := 0;
    var motifNames: map<string, nat> := map[];
    var chromFilePaths: seq<string> := [];
    var files: map<string, PosRecords> := map[];
    var curChrom, fullChromSeq := "", "";
    var recordDict: PosRecords := [];
    for i := 0 to |lines|
      invariant Scan(curNameId, motifNames, curChrom, fullChromSeq, recordDict, chromFilePaths, files) == ScanLines(lines[..i], genome)
    {
      assert lines[..i + 1][..i] == lines[..i];
      ScanLinesUnique(lines[..i], genome);
      var line := lines[i];
      var motifIntId: nat;
      if line.name in motifNames {
        motifIntId := motifNames[line.name];
      } else {
        motifNames := motifNames[line.name := curNameId];
        motifIntId := curNameId;
        curNameId := curNameId + 1;
      }
      if line.chrom != curChrom {
        if line.chrom !in genome {
          continue;
        }
        fullChromSeq := genome[line.chrom];
        if curChrom != "" {
          var filePath := ChromFileName(curChrom);
          chromFilePaths := chromFilePaths + [filePath];
          files := files[filePath := recordDict];
        }
        curChrom := line.chrom;
        recordDict := [];
      }
      var motif := PySlice(fullChromSeq, line.start, line.end);
      recordDict := EmitMotif(recordDict, line.start, motif, line.strand == "+", motifIntId);
    }
    assert lines[..|lines|] == lines;
    s := Scan(curNameId, motifNames, curChrom, fullChromSeq, recordDict, chromFilePaths, files);
  }

  /**
   * The loop over the BED lines and the final dump: the motif name table,
   * the per-chromosome file paths in the order written, and the files.
   */
  method BuildChromFiles(lines: seq<BedLine>, genome: map<string, string>)
    returns (motifNames: map<string, nat>, chromFilePaths: seq<string>, files: map<string, PosRecords>)
    ensures var s := ScanAll(lines, genome);
      motifNames == s.motifNames && chromFilePaths == s.chromFilePaths && files == s.files
    ensures var ds := Distinct(Names(lines));
      && (forall name :: name in motifNames <==> name in Names(lines))
      && (forall j :: 0 <= j < |ds| ==> motifNames[ds[j]] == j)
    ensures forall p :: p in files <==> p in chromFilePaths
    ensures forall p :: p in files ==> HasSuffix(p) && ChromOfFile(p) in genome && HitsBelow(files[p], |Distinct(Names(lines))|)
  {
    var s := ScanBedLines(lines, genome);
    motifNames, chromFilePaths, files := s.motifNames, s.chromFilePaths, s.files;
    if s.curChrom != "" {
      var filePath := ChromFileName(s.curChrom);
      chromFilePaths := chromFilePaths + [filePath];
      files := files[filePath := s.records];
    }
    ScanLinesInterns(lines, genome);
    ScanAllConsistent(lines, genome);
  }
}
