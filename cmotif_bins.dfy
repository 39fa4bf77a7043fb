/**
 * The second and third loops of `_generate_c_motif_database` in
 * ALLCools/motif/cmotif.py: each per-chromosome file is read back, its
 * positions are grouped into 20 Mb bins written to one file each, the
 * per-chromosome file is removed, and a lookup table lists every bin file
 * with its chromosome and window.
 */
module CMotifBins {
  import opened Wrappers
  import opened Counting
  import opened OrderedMap
  import opened CMotifNames
  import opened CMotifRecords

  /** `bin_dict`: bin number to the records of its positions, in insertion order. */
  type Bins = seq<Entry<PosRecords>>

  /** `bin_dict[k // bin_size][k] = v` for every entry of `d`, in order. */
  function BinsOf(d: PosRecords): Bins
    decreases |d|
  {
    if d == [] then []
    else
      var bins := BinsOf(d[..|d| - 1]);
      var e := d[|d| - 1];
      var nbin := BinOf(e.key);
      Put(bins, nbin, Put(Get(bins, nbin, []), e.key, e.value))
  }

  /** The records of one bin; empty for a bin no position falls in. */
  function BinAt(bins: Bins, nbin: int): PosRecords
  {
    Get(bins, nbin, [])
  }

  /** Bin numbers are unique, and so are the positions within each bin. */
  ghost predicate WellFormedBins(bins: Bins) {
    && UniqueKeys(bins)
    && forall i :: 0 <= i < |bins| ==> UniqueKeys(bins[i].value)
  }

  lemma BinAtUnique(bins: Bins, nbin: int)
    requires WellFormedBins(bins)
    ensures UniqueKeys(BinAt(bins, nbin))
  {
    match Find(bins, nbin)
    case None =>
    case Some(i) =>
  }

  lemma {:induction false} BinsOfWellFormed(d: PosRecords)
    ensures WellFormedBins(BinsOf(d))
    decreases |d|
  {
    if d != [] {
      var bins := BinsOf(d[..|d| - 1]);
      BinsOfWellFormed(d[..|d| - 1]);
      var e := d[|d| - 1];
      var nbin := BinOf(e.key);
      var inner := BinAt(bins, nbin);
      BinAtUnique(bins, nbin);
      PutGet(inner, e.key, e.value, 0, []);
      PutGet(bins, nbin, Put(inner, e.key, e.value), 0, []);
    }
  }

  /** Every position in bin `b` lies in bin `b`'s window. */
  ghost predicate InWindows(bins: Bins) {
    forall i, j :: 0 <= i < |bins| && 0 <= j < |bins[i].value| ==> BinOf(bins[i].value[j].key) == bins[i].key
  }

  lemma {:induction false} BinsOfInWindows(d: PosRecords)
    ensures InWindows(BinsOf(d))
    decreases |d|
  {
    if d != [] {
      var bins := BinsOf(d[..|d| - 1]);
      BinsOfInWindows(d[..|d| - 1]);
      var e := d[|d| - 1];
      var nbin := BinOf(e.key);
      var inner := BinAt(bins, nbin);
      assert forall j :: 0 <= j < |inner| ==> BinOf(inner[j].key) == nbin by {
        match Find(bins, nbin)
        case None =>
        case Some(i) =>
      }
      var inner' := Put(inner, e.key, e.value);
      assert forall j :: 0 <= j < |inner'| ==> BinOf(inner'[j].key) == nbin;
    }
  }

  /**
   * Nothing is lost or changed: position `k` is in bin `k // bin_size` with
   * its hits exactly when it is in the records.
   */
  lemma {:induction false} BinsOfGet(d: PosRecords, k: int)
    ensures Find(BinAt(BinsOf(d), BinOf(k)), k).Some? <==> Find(d, k).Some?
    ensures Get(BinAt(BinsOf(d), BinOf(k)), k, []) == Get(d, k, [])
    decreases |d|
  {
    if d != [] {
      var init := d[..|d| - 1];
      var bins := BinsOf(init);
      BinsOfGet(init, k);
      BinsOfWellFormed(init);
      var e := d[|d| - 1];
      var nbin := BinOf(e.key);
      var inner := BinAt(bins, nbin);
      BinAtUnique(bins, nbin);
      var inner' := Put(inner, e.key, e.value);
      PutGet(bins, nbin, inner', BinOf(k), []);
      PutGet(inner, e.key, e.value, k, []);
      PutFind(inner, e.key, e.value, k);
      assert Find(d, k) == if e.key == k then Some(|d| - 1) else Find(init, k);
    }
  }

  /** Each recorded position of a bin is a position of the records, with the same hits. */
  lemma BinEntry(d: PosRecords, i: nat, j: nat)
    requires i < |BinsOf(d)| && j < |BinsOf(d)[i].value|
    ensures var e := BinsOf(d)[i].value[j];
      BinOf(e.key) == BinsOf(d)[i].key && Find(d, e.key).Some? && Get(d, e.key, []) == e.value
  {
    var bins := BinsOf(d);
    var e := bins[i].value[j];
    BinsOfInWindows(d);
    BinsOfWellFormed(d);
    FindUnique(bins, bins[i].key, i);
    assert BinAt(bins, BinOf(e.key)) == bins[i].value;
    FindUnique(bins[i].value, e.key, j);
    BinsOfGet(d, e.key);
  }

  /** Non-negative positions give non-negative bins. */
  lemma BinsOfNonNegative(d: PosRecords)
    requires forall j :: 0 <= j < |d| ==> 0 <= d[j].key
    ensures forall i :: 0 <= i < |BinsOf(d)| ==> 0 <= BinsOf(d)[i].key
  {
    var bins := BinsOf(d);
    forall i | 0 <= i < |bins| ensures 0 <= bins[i].key {
      var b := bins[i].value;
      BinsOfInWindows(d);
      BinsOfWellFormed(d);
      assert b != [] by {
        BinsNonEmpty(d, i);
      }
      BinEntry(d, i, 0);
    }
  }

  /** No bin is empty: a bin exists because a position fell in it. */
  lemma {:induction false} BinsNonEmpty(d: PosRecords, i: nat)
    requires i < |BinsOf(d)|
    ensures BinsOf(d)[i].value != []
    decreases |d|
  {
    var init := d[..|d| - 1];
    var bins := BinsOf(init);
    var e := d[|d| - 1];
    var nbin := BinOf(e.key);
    var inner' := Put(BinAt(bins, nbin), e.key, e.value);
    PutFind(BinAt(bins, nbin), e.key, e.value, e.key);
    match Find(bins, nbin)
    case None =>
      if i < |bins| {
        BinsNonEmpty(init, i);
      }
    case Some(at) =>
      if i != at {
        BinsNonEmpty(init, i);
      }
  }

  /**
   * The loop over one chromosome's records: each position goes to the bin
   * `k // bin_size`, whose dictionary is created on first use.
   */
  method SplitBins(d: PosRecords) returns (binDict: Bins)
    ensures binDict == BinsOf(d)
    ensures WellFormedBins(binDict) && InWindows(binDict)
    ensures forall k :: Find(BinAt(binDict, BinOf(k)), k).Some? <==> Find(d, k).Some?
    ensures forall k :: Get(BinAt(binDict, BinOf(k)), k, []) == Get(d, k, [])
  {
    binDict := [];
    for i := 0 to |d|
      invariant binDict == BinsOf(d[..i])
    {
      var k, v := d[i].key, d[i].value;
      var nbin := k / BinSize;
      binDict := Put(binDict, nbin, Put(Get(binDict, nbin, []), k, v));
      assert d[..i + 1][..i] == d[..i];
    }
    assert d[..|d|] == d;
    BinsOfWellFormed(d);
    BinsOfInWindows(d);
    forall k ensures Find(BinAt(binDict, BinOf(k)), k).Some? <==> Find(d, k).Some?
      ensures Get(BinAt(binDict, BinOf(k)), k, []) == Get(d, k, [])
    {
      BinsOfGet(d, k);
    }
  }

  // ------------------------------------------------------ bin files

  /**
   * How the build fails: a per-chromosome file read after its removal, a
   * bin file name without a window, or a lookup table with no rows, whose
   * column selection raises `KeyError`.
   */
  datatype CMotifError = FileNotFound(path: string) | ValueError(fileName: string) | KeyError

  /** The state of the loop over the per-chromosome files. */
  datatype Split = Split(files: map<string, PosRecords>, binPaths: seq<string>, binFiles: map<string, PosRecords>)

  /** The bin file names of one chromosome, in bin order. */
  function BinNames(chrom: string, bins: Bins): (ns: seq<string>)
    ensures |ns| == |bins| && forall i :: 0 <= i < |bins| ==> ns[i] == BinFileName(chrom, bins[i].key)
  {
    MapSeq(BinNameOf(chrom), bins)
  }

  /** The bin file name of a bin of `chrom`. */
  function BinNameOf(chrom: string): Entry<PosRecords> -> string {
    (e: Entry<PosRecords>) => BinFileName(chrom, e.key)
  }

  /** The records of the bins, in bin order. */
  function BinValues(bins: Bins): (vs: seq<PosRecords>)
    ensures |vs| == |bins| && forall i :: 0 <= i < |bins| ==> vs[i] == bins[i].value
  {
    MapSeq((e: Entry<PosRecords>) => e.value, bins)
  }

  /** One more bin adds its own name at the end. */
  lemma BinNamesSnoc(chrom: string, bins: Bins, j: nat)
    requires j < |bins|
    ensures BinNames(chrom, bins[..j + 1]) == BinNames(chrom, bins[..j]) + [BinFileName(chrom, bins[j].key)]
  {
    MapSeqPrefixSnoc(BinNameOf(chrom), bins, j);
  }

  /** Write `vals[i]` to file `names[i]`, for each `i` in order; a later write to a name replaces an earlier one. */
  function WriteAll<K(==), V>(m: map<K, V>, names: seq<K>, vals: seq<V>): map<K, V>
    requires |names| == |vals|
    decreases |names|
  {
    if names == [] then m
    else WriteAll(m, names[..|names| - 1], vals[..|vals| - 1])[names[|names| - 1] := vals[|vals| - 1]]
  }

  lemma BinValuesSnoc(bins: Bins, j: nat)
    requires j < |bins|
    ensures BinValues(bins[..j + 1]) == BinValues(bins[..j]) + [bins[j].value]
  {
    MapSeqPrefixSnoc((e: Entry<PosRecords>) => e.value, bins, j);
  }

  /** Writing one more file after the others. */
  lemma WriteAllSnoc<K, V>(m: map<K, V>, names: seq<K>, vals: seq<V>, k: K, v: V)
    requires |names| == |vals|
    ensures WriteAll(m, names + [k], vals + [v]) == WriteAll(m, names, vals)[k := v]
  {
    assert (names + [k])[..|names|] == names;
    assert (vals + [v])[..|vals|] == vals;
  }

  /** Write every bin of one chromosome to its file, in bin order. */
  function WriteBins(m: map<string, PosRecords>, chrom: string, bins: Bins): map<string, PosRecords>
  {
    WriteAll(m, BinNames(chrom, bins), BinValues(bins))
  }

  /**
   * One per-chromosome file: read it, write its bins under the chromosome
   * read back from its name, remove it.
   */
  function SplitOne(rd: Reading, st: Split, path: string): Result<Split, CMotifError>
  {
    if path !in st.files then Failure(FileNotFound(path))
    else
      var chrom := ChromOf(rd, path);
      var bins := BinsOf(st.files[path]);
      Success(Split(st.files - {path}, st.binPaths + BinNames(chrom, bins), WriteBins(st.binFiles, chrom, bins)))
  }

  /** The loop over the per-chromosome files, stopping at the first failure. */
  function SplitAll(rd: Reading, paths: seq<string>, files: map<string, PosRecords>): Result<Split, CMotifError>
    decreases |paths|
  {
    if paths == [] then Success(Split(files, [], map[]))
    else
      match SplitAll(rd, paths[..|paths| - 1], files)
      case Failure(e) => Failure(e)
      case Success(st) => SplitOne(rd, st, paths[|paths| - 1])
  }

  /** Once a prefix of the paths fails, the whole loop fails the same way. */
  lemma {:induction false} SplitAllFailureSticks(rd: Reading, paths: seq<string>, files: map<string, PosRecords>, i: nat)
    requires i <= |paths| && SplitAll(rd, paths[..i], files).Failure?
    ensures SplitAll(rd, paths, files) == SplitAll(rd, paths[..i], files)
    decreases |paths| - i
  {
    if i < |paths| {
      assert paths[..i + 1][..i] == paths[..i];
      SplitAllFailureSticks(rd, paths, files, i + 1);
    } else {
      assert paths[..i] == paths;
    }
  }

  /** A per-chromosome file still present after the loop is untouched. */
  lemma {:induction false} SplitAllKeepsFiles(rd: Reading, paths: seq<string>, files: map<string, PosRecords>)
    ensures SplitAll(rd, paths, files).Success? ==>
      var st := SplitAll(rd, paths, files).value;
      forall p :: p in st.files ==> p in files && st.files[p] == files[p] && p !in paths
    decreases |paths|
  {
    if paths != [] {
      SplitAllKeepsFiles(rd, paths[..|paths| - 1], files);
      assert paths == paths[..|paths| - 1] + [paths[|paths| - 1]];
    }
  }

  /** The only way the loop over the per-chromosome files fails is a missing file. */
  lemma {:induction false} SplitAllError(rd: Reading, paths: seq<string>, files: map<string, PosRecords>)
    ensures SplitAll(rd, paths, files).Failure? ==> SplitAll(rd, paths, files).error.FileNotFound?
    decreases |paths|
  {
    if paths != [] {
      SplitAllError(rd, paths[..|paths| - 1], files);
    }
  }

  /**
   * With every listed file present at the start, the loop fails exactly
   * when a path is listed twice: the second visit finds the file removed.
   * On success the listed files are gone and the others untouched.
   */
  lemma {:induction false} SplitAllFails(rd: Reading, paths: seq<string>, files: map<string, PosRecords>)
    requires forall i :: 0 <= i < |paths| ==> paths[i] in files
    ensures SplitAll(rd, paths, files).Failure? <==> !NoDuplicates(paths)
    ensures SplitAll(rd, paths, files).Success? ==>
      var st := SplitAll(rd, paths, files).value;
      forall p :: p in st.files <==> p in files && p !in paths
    ensures SplitAll(rd, paths, files).Success? ==>
      var st := SplitAll(rd, paths, files).value;
      forall p :: p in st.files ==> st.files[p] == files[p]
    decreases |paths|
  {
    if paths != [] {
      var n := |paths|;
      var init := paths[..n - 1];
      var last := paths[n - 1];
      SplitAllFails(rd, init, files);
      LastSplit(paths);
      NoDuplicatesSnoc(init, last);
      assert forall p :: p in paths <==> p in init || p == last;
    }
  }

  /** A list with one more name has no repeat exactly when the shorter one has none and lacks the name. */
  lemma NoDuplicatesSnoc(init: seq<string>, last: string)
    ensures NoDuplicates(init + [last]) <==> NoDuplicates(init) && last !in init
  {
    var paths := init + [last];
    var n := |paths|;
    if NoDuplicates(paths) {
      forall j | 0 <= j < n - 1 ensures init[j] != last {
        assert paths[j] != paths[n - 1];
      }
      forall i, j | 0 <= i < j < n - 1 ensures init[i] != init[j] {
        assert paths[i] == init[i] && paths[j] == init[j];
      }
    }
    if NoDuplicates(init) && last !in init {
      forall i, j | 0 <= i < j < n ensures paths[i] != paths[j] {
        if j < n - 1 {
          assert paths[i] == init[i] && paths[j] == init[j];
        } else {
          assert paths[i] == init[i];
        }
      }
    }
  }

  /**
   * A bin file is sound for the per-chromosome files when, if its name
   * parses, the file of the parsed chromosome exists and every position of
   * the bin lies in the parsed window and carries that file's hits.
   */
  ghost predicate SoundBin(name: string, data: PosRecords, files: map<string, PosRecords>) {
    ParseBinFileName(name).Some? ==>
      var r := ParseBinFileName(name).value;
      && ChromFileName(r.chrom) in files
      && forall j :: 0 <= j < |data| ==>
           && r.start <= data[j].key < r.end
           && Find(files[ChromFileName(r.chrom)], data[j].key).Some?
           && Get(files[ChromFileName(r.chrom)], data[j].key, []) == data[j].value
  }

  ghost predicate SoundBins(binFiles: map<string, PosRecords>, files: map<string, PosRecords>) {
    forall name :: name in binFiles ==> SoundBin(name, binFiles[name], files)
  }

  /** Every bin of a chromosome file is sound for the files it came from. */
  lemma BinSound(path: string, files: map<string, PosRecords>, i: nat)
    requires path in files && HasSuffix(path) && i < |BinsOf(files[path])|
    ensures var b := BinsOf(files[path])[i];
      SoundBin(BinFileName(ChromOfFile(path), b.key), b.value, files)
  {
    var chrom := ChromOfFile(path);
    var b := BinsOf(files[path])[i];
    ParseBinFileNameOf(chrom, b.key);
    ChromFileNameOf(path);
    forall j | 0 <= j < |b.value|
      ensures b.key * BinSize <= b.value[j].key < (b.key + 1) * BinSize
      ensures Find(files[path], b.value[j].key).Some?
      ensures Get(files[path], b.value[j].key, []) == b.value[j].value
    {
      BinEntry(files[path], i, j);
      BinOfBounds(b.value[j].key);
    }
  }

  /** A written file holds the last value written to it, or its old content. */
  lemma {:induction false} WriteAllFrom<K, V>(m: map<K, V>, names: seq<K>, vals: seq<V>, x: K)
    requires |names| == |vals|
    ensures x in WriteAll(m, names, vals) <==> x in m || x in names
    ensures x in WriteAll(m, names, vals) ==>
      (exists i :: 0 <= i < |names| && names[i] == x && WriteAll(m, names, vals)[x] == vals[i])
      || (x !in names && WriteAll(m, names, vals)[x] == m[x])
    decreases |names|
  {
    if names != [] {
      var n := |names|;
      WriteAllFrom(m, names[..n - 1], vals[..n - 1], x);
      assert names == names[..n - 1] + [names[n - 1]];
      if x != names[n - 1] && x in names[..n - 1] && x in WriteAll(m, names, vals) {
        var i :| 0 <= i < n - 1 && names[..n - 1][i] == x && WriteAll(m, names[..n - 1], vals[..n - 1])[x] == vals[..n - 1][i];
        assert names[i] == x && vals[i] == vals[..n - 1][i];
      }
    }
  }

  /** With distinct names, file `names[i]` holds `vals[i]`. */
  lemma {:induction false} WriteAllAt<K, V>(m: map<K, V>, names: seq<K>, vals: seq<V>, i: nat)
    requires |names| == |vals| && NoDuplicates(names) && i < |names|
    ensures names[i] in WriteAll(m, names, vals) && WriteAll(m, names, vals)[names[i]] == vals[i]
    decreases |names|
  {
    var n := |names|;
    if i < n - 1 {
      WriteAllAt(m, names[..n - 1], vals[..n - 1], i);
      assert names[i] != names[n - 1];
    }
  }

  /** Unique, non-negative bin numbers give distinct bin file names. */
  lemma BinNamesDistinct(chrom: string, bins: Bins)
    requires UniqueKeys(bins) && forall j :: 0 <= j < |bins| ==> 0 <= bins[j].key
    ensures NoDuplicates(BinNames(chrom, bins))
  {
    var ns := BinNames(chrom, bins);
    forall i, j | 0 <= i < j < |ns| ensures ns[i] != ns[j] {
      if ns[i] == ns[j] {
        BinFileNameInjective(chrom, bins[i].key, chrom, bins[j].key);
      }
    }
  }

  lemma WriteBinsSound(m: map<string, PosRecords>, path: string, files: map<string, PosRecords>)
    requires path in files && HasSuffix(path)
    requires SoundBins(m, files)
    ensures SoundBins(WriteBins(m, ChromOfFile(path), BinsOf(files[path])), files)
  {
    var bins := BinsOf(files[path]);
    var names, vals := BinNames(ChromOfFile(path), bins), BinValues(bins);
    var w := WriteBins(m, ChromOfFile(path), bins);
    forall name | name in w ensures SoundBin(name, w[name], files) {
      WriteAllFrom(m, names, vals, name);
      if name in names && exists i :: 0 <= i < |names| && names[i] == name && w[name] == vals[i] {
        var i :| 0 <= i < |names| && names[i] == name && w[name] == vals[i];
        BinSound(path, files, i);
      }
    }
  }

  /** When the files written so far are the listed ones, they stay so after one chromosome's bins. */
  lemma WriteBinsKeys(m: map<string, PosRecords>, chrom: string, bins: Bins, listed: seq<string>)
    requires forall name :: name in m <==> name in listed
    ensures forall name :: name in WriteBins(m, chrom, bins) <==> name in listed + BinNames(chrom, bins)
  {
    forall name ensures name in WriteBins(m, chrom, bins) <==> name in listed + BinNames(chrom, bins) {
      WriteAllFrom(m, BinNames(chrom, bins), BinValues(bins), name);
    }
  }

  /** Every listed per-chromosome file exists and its name ends with the database suffix. */
  ghost predicate ReadyToSplit(paths: seq<string>, files: map<string, PosRecords>) {
    && (forall i :: 0 <= i < |paths| ==> paths[i] in files && HasSuffix(paths[i]))
  }

  ghost predicate NonNegativeKeys(files: map<string, PosRecords>) {
    forall p :: p in files ==> forall j :: 0 <= j < |files[p]| ==> 0 <= files[p][j].key
  }

  /** With the chromosome read back from the end of the name, on success the bin files are sound. */
  lemma {:induction false} SplitAllSound(paths: seq<string>, files: map<string, PosRecords>)
    requires ReadyToSplit(paths, files)
    ensures SplitAll(Corrected, paths, files).Success? ==> SoundBins(SplitAll(Corrected, paths, files).value.binFiles, files)
    decreases |paths|
  {
    if paths != [] {
      var n := |paths|;
      var init := paths[..n - 1];
      var path := paths[n - 1];
      SplitAllSound(init, files);
      SplitAllKeepsFiles(Corrected, init, files);
      if SplitAll(Corrected, paths, files).Success? {
        var st := SplitAll(Corrected, init, files).value;
        assert SplitAll(Corrected, paths, files) == SplitOne(Corrected, st, path);
        assert st.files[path] == files[path];
        WriteBinsSound(st.binFiles, path, files);
      }
    }
  }

  /** The bin files written are exactly the listed bin paths. */
  ghost predicate KeysListed(st: Split) {
    forall name :: name in st.binFiles <==> name in st.binPaths
  }

  /** On success the bin files written are exactly the listed bin paths, under either reading. */
  lemma {:induction false} SplitAllKeys(rd: Reading, paths: seq<string>, files: map<string, PosRecords>)
    ensures SplitAll(rd, paths, files).Success? ==> KeysListed(SplitAll(rd, paths, files).value)
    decreases |paths|
  {
    if paths != [] && SplitAll(rd, paths, files).Success? {
      var init := paths[..|paths| - 1];
      var path := paths[|paths| - 1];
      SplitAllKeys(rd, init, files);
      var st := SplitAll(rd, init, files).value;
      assert SplitAll(rd, paths, files) == SplitOne(rd, st, path);
      WriteBinsKeys(st.binFiles, ChromOf(rd, path), BinsOf(st.files[path]), st.binPaths);
    }
  }

  /** A bin file name whose chromosome and window read back. */
  predicate Readable(name: string) {
    ParseBinFileName(name).Some?
  }

  /** Every name in the list is a readable bin file name. */
  predicate AllReadable(names: seq<string>) {
    forall j :: 0 <= j < |names| ==> Readable(names[j])
  }

  /** With non-negative positions, every bin path has a readable window, under either reading. */
  lemma {:induction false} SplitAllParses(rd: Reading, paths: seq<string>, files: map<string, PosRecords>)
    requires ReadyToSplit(paths, files) && NonNegativeKeys(files)
    ensures SplitAll(rd, paths, files).Success? ==>
      AllReadable(SplitAll(rd, paths, files).value.binPaths)
    decreases |paths|
  {
    if paths != [] && SplitAll(rd, paths, files).Success? {
      var n := |paths|;
      var init := paths[..n - 1];
      var path := paths[n - 1];
      ReadyLast(paths, files);
      SplitAllParses(rd, init, files);
      SplitAllKeepsFiles(rd, init, files);
      ParsesStep(rd, SplitAll(rd, init, files).value, path, files);
    }
  }

  /** The visit to one more file of non-negative positions keeps every listed bin path readable. */
  lemma ParsesStep(rd: Reading, st: Split, path: string, files: map<string, PosRecords>)
    requires SplitOne(rd, st, path).Success? && AllReadable(st.binPaths) && NonNegativeKeys(files)
    requires forall p :: p in st.files ==> p in files && st.files[p] == files[p]
    ensures AllReadable(SplitOne(rd, st, path).value.binPaths)
  {
    var names := BinNames(ChromOf(rd, path), BinsOf(files[path]));
    assert SplitOne(rd, st, path).value.binPaths == st.binPaths + names;
    BinNamesParse(ChromOf(rd, path), files[path]);
    AllParseAppend(st.binPaths, names);
  }

  /** Every bin of non-negative positions has a file name with a readable window. */
  lemma BinNamesParse(chrom: string, d: PosRecords)
    requires forall j :: 0 <= j < |d| ==> 0 <= d[j].key
    ensures AllReadable(BinNames(chrom, BinsOf(d)))
  {
    var bins := BinsOf(d);
    BinsOfNonNegative(d);
    forall j | 0 <= j < |bins| ensures Readable(BinNames(chrom, bins)[j]) {
      ParseBinFileNameOf(chrom, bins[j].key);
      assert BinNames(chrom, bins)[j] == BinFileName(chrom, bins[j].key);
    }
  }

  lemma AllParseAppend(a: seq<string>, b: seq<string>)
    requires AllReadable(a) && AllReadable(b)
    ensures AllReadable(a + b)
  {
    forall j | 0 <= j < |a + b| ensures Readable((a + b)[j]) {
      if j >= |a| {
        assert (a + b)[j] == b[j - |a|];
      }
    }
  }

  /** Both readings of a bin file name give the same lookup row. */
  predicate ReadingsAgree(name: string) {
    ParseBinFileNameAsWritten(name) == ParseBinFileName(name)
  }

  /**
   * As written, every bin path reads back the same from its first two
   * `'.'`-pieces as from its end, whatever the chromosome names: the
   * chromosome `split('.')[0]` gives never holds a `'.'`.
   */
  lemma {:induction false} SplitAllAgrees(paths: seq<string>, files: map<string, PosRecords>)
    ensures SplitAll(AsWritten, paths, files).Success? ==>
      var st := SplitAll(AsWritten, paths, files).value;
      forall j :: 0 <= j < |st.binPaths| ==> ReadingsAgree(st.binPaths[j])
    decreases |paths|
  {
    if paths != [] && SplitAll(AsWritten, paths, files).Success? {
      var n := |paths|;
      var init := paths[..n - 1];
      var path := paths[n - 1];
      SplitAllAgrees(init, files);
      assert SplitAll(AsWritten, init, files).Success?;
      var st := SplitAll(AsWritten, init, files).value;
      assert forall j :: 0 <= j < |st.binPaths| ==> ReadingsAgree(st.binPaths[j]);
      assert SplitAll(AsWritten, paths, files) == SplitOne(AsWritten, st, path);
      BinNamesAgree(st.binPaths, ChromOf(AsWritten, path), BinsOf(st.files[path]));
    }
  }

  /** Appending the bin names of a chromosome without `'.'` keeps the readings in agreement. */
  lemma BinNamesAgree(listed: seq<string>, chrom: string, bins: Bins)
    requires '.' !in chrom
    requires forall j :: 0 <= j < |listed| ==> ReadingsAgree(listed[j])
    ensures forall j :: 0 <= j < |listed + BinNames(chrom, bins)| ==> ReadingsAgree((listed + BinNames(chrom, bins))[j])
  {
    var names := BinNames(chrom, bins);
    forall j | 0 <= j < |listed + names| ensures ReadingsAgree((listed + names)[j]) {
      if j >= |listed| {
        assert (listed + names)[j] == names[j - |listed|];
        AsWrittenAgrees(chrom, bins[j - |listed|].key);
      }
    }
  }

  /**
   * With non-negative positions, on success every position of every
   * per-chromosome file is in the file of its bin, with the same hits.
   */
  ghost predicate Covered(path: string, files: map<string, PosRecords>, binFiles: map<string, PosRecords>)
    requires path in files
  {
    forall k :: CoveredAt(path, files, binFiles, k)
  }

  /** Position `k`, if recorded in file `path`, is in the file of its bin with the same hits. */
  ghost predicate CoveredAt(path: string, files: map<string, PosRecords>, binFiles: map<string, PosRecords>, k: int)
    requires path in files
  {
    Find(files[path], k).Some? ==>
      var name := BinFileName(ChromOfFile(path), BinOf(k));
      && name in binFiles
      && Find(binFiles[name], k).Some?
      && Get(binFiles[name], k, []) == Get(files[path], k, [])
  }

  /** Writing a chromosome's bins covers it. */
  lemma WriteBinsCovers(m: map<string, PosRecords>, path: string, files: map<string, PosRecords>)
    requires path in files && NonNegativeKeys(files)
    ensures Covered(path, files, WriteBins(m, ChromOfFile(path), BinsOf(files[path])))
  {
    var d := files[path];
    var bins := BinsOf(d);
    BinsOfWellFormed(d);
    BinsOfNonNegative(d);
    var w := WriteBins(m, ChromOfFile(path), bins);
    forall k | Find(d, k).Some? ensures CoveredAt(path, files, w, k) {
      BinsOfGet(d, k);
      assert BinAt(bins, BinOf(k)) != [];
      assert Find(bins, BinOf(k)).Some?;
      BinNamesDistinct(ChromOfFile(path), bins);
      WriteAllAt(m, BinNames(ChromOfFile(path), bins), BinValues(bins), Find(bins, BinOf(k)).value);
    }
  }

  /** Writing another chromosome's bins keeps a chromosome covered. */
  lemma WriteBinsKeepsCovered(m: map<string, PosRecords>, path: string, other: string, files: map<string, PosRecords>)
    requires path in files && other in files && NonNegativeKeys(files)
    requires HasSuffix(path) && HasSuffix(other) && path != other
    requires Covered(path, files, m)
    ensures Covered(path, files, WriteBins(m, ChromOfFile(other), BinsOf(files[other])))
  {
    var bins := BinsOf(files[other]);
    BinsOfNonNegative(files[other]);
    if ChromOfFile(path) == ChromOfFile(other) {
      ChromOfFileInjective(path, other);
    }
    var w := WriteBins(m, ChromOfFile(other), bins);
    forall k | Find(files[path], k).Some? ensures CoveredAt(path, files, w, k) {
      assert CoveredAt(path, files, m, k);
      var name := BinFileName(ChromOfFile(path), BinOf(k));
      var nb := BinOf(k);
      assert 0 <= k by {
        var j := Find(files[path], k).value;
        assert files[path][j].key == k;
      }
      var names := BinNames(ChromOfFile(other), bins);
      forall i | 0 <= i < |bins| ensures names[i] != name {
        if names[i] == name {
          BinFileNameInjective(ChromOfFile(other), bins[i].key, ChromOfFile(path), nb);
        }
      }
      WriteAllFrom(m, names, BinValues(bins), name);
    }
  }

  /**
   * With the chromosome read back from the end of the name and non-negative
   * positions, on success every position of every listed file is in the
   * file of its bin with the same hits, whatever the chromosome names.
   */
  lemma {:induction false} SplitAllComplete(paths: seq<string>, files: map<string, PosRecords>)
    requires ReadyToSplit(paths, files) && NonNegativeKeys(files)
    ensures SplitAll(Corrected, paths, files).Success? ==>
      forall p :: p in paths ==> p in files && HasSuffix(p) && Covered(p, files, SplitAll(Corrected, paths, files).value.binFiles)
    decreases |paths|
  {
    if paths != [] && SplitAll(Corrected, paths, files).Success? {
      var n := |paths|;
      var init := paths[..n - 1];
      var path := paths[n - 1];
      LastSplit(paths);
      var st := SplitAll(Corrected, init, files).value;
      assert path in files && HasSuffix(path);
      assert path in st.files && path !in init && st.files[path] == files[path] by {
        SplitAllKeepsFiles(Corrected, init, files);
      }
      SplitAllComplete(init, files);
      CoverAllStep(init, path, files, st.binFiles);
    }
  }

  /** Writing one more chromosome's bins keeps the earlier files covered and covers its own. */
  lemma CoverAllStep(init: seq<string>, path: string, files: map<string, PosRecords>, m: map<string, PosRecords>)
    requires path in files && HasSuffix(path) && NonNegativeKeys(files) && path !in init
    requires forall p :: p in init ==> p in files && HasSuffix(p) && Covered(p, files, m)
    ensures forall p :: p in init + [path] ==> p in files && HasSuffix(p) && Covered(p, files, WriteBins(m, ChromOfFile(path), BinsOf(files[path])))
  {
    var w := WriteBins(m, ChromOfFile(path), BinsOf(files[path]));
    forall p | p in init + [path] ensures p in files && HasSuffix(p) && Covered(p, files, w) {
      if p == path {
        WriteBinsCovers(m, path, files);
      } else {
        WriteBinsKeepsCovered(m, p, path, files);
      }
    }
  }

  /**
   * When no listed chromosome holds a `'.'`, the source's reading of the
   * chromosome and the corrected one build the same bin files.
   */
  lemma {:induction false} SplitAllReadings(paths: seq<string>, files: map<string, PosRecords>)
    requires forall i :: 0 <= i < |paths| ==> HasSuffix(paths[i]) && '.' !in ChromOfFile(paths[i])
    ensures SplitAll(AsWritten, paths, files) == SplitAll(Corrected, paths, files)
    decreases |paths|
  {
    if paths != [] {
      var path := paths[|paths| - 1];
      SplitAllReadings(paths[..|paths| - 1], files);
      ChromOfAgrees(AsWritten, path);
    }
  }

  /** A chromosome file has no bins exactly when it has no records. */
  lemma BinsOfEmpty(d: PosRecords)
    ensures BinsOf(d) == [] <==> d == []
  {
  }

  /**
   * On success, no bin path is listed exactly when every listed
   * per-chromosome file is empty.
   */
  lemma {:induction false} SplitAllNoBins(rd: Reading, paths: seq<string>, files: map<string, PosRecords>)
    requires ReadyToSplit(paths, files)
    ensures SplitAll(rd, paths, files).Success? ==>
      (SplitAll(rd, paths, files).value.binPaths == [] <==> AllEmpty(paths, files))
    decreases |paths|
  {
    if paths != [] && SplitAll(rd, paths, files).Success? {
      var n := |paths|;
      var init := paths[..n - 1];
      var path := paths[n - 1];
      ReadyLast(paths, files);
      SplitAllNoBins(rd, init, files);
      SplitAllKeepsFiles(rd, init, files);
      NoBinsStep(rd, SplitAll(rd, init, files).value, path, files);
      LastSplit(paths);
      AllEmptySnoc(init, path, files);
    }
  }

  /** The visit to one more file lists no bin path exactly when none was listed before and that file is empty. */
  lemma NoBinsStep(rd: Reading, st: Split, path: string, files: map<string, PosRecords>)
    requires SplitOne(rd, st, path).Success?
    requires forall p :: p in st.files ==> p in files && st.files[p] == files[p]
    ensures path in files
    ensures SplitOne(rd, st, path).value.binPaths == [] <==> st.binPaths == [] && files[path] == []
  {
    var names := BinNames(ChromOf(rd, path), BinsOf(files[path]));
    assert SplitOne(rd, st, path).value.binPaths == st.binPaths + names;
    BinsOfEmpty(files[path]);
  }

  /** Readiness holds for all but the last path, and the last path is listed. */
  lemma ReadyLast(paths: seq<string>, files: map<string, PosRecords>)
    requires ReadyToSplit(paths, files) && paths != []
    ensures ReadyToSplit(paths[..|paths| - 1], files) && paths[|paths| - 1] in files
  {
    var init := paths[..|paths| - 1];
    assert forall i :: 0 <= i < |init| ==> init[i] == paths[i];
  }

  /** A non-empty list is its prefix followed by its last element. */
  lemma LastSplit(paths: seq<string>)
    requires paths != []
    ensures paths == paths[..|paths| - 1] + [paths[|paths| - 1]]
  {
  }

  /** Every listed per-chromosome file holds no position. */
  predicate AllEmpty(paths: seq<string>, files: map<string, PosRecords>) {
    forall i :: 0 <= i < |paths| && paths[i] in files ==> files[paths[i]] == []
  }

  /** Every listed file is empty exactly when all but the last are and the last is. */
  lemma AllEmptySnoc(init: seq<string>, path: string, files: map<string, PosRecords>)
    requires path in files
    ensures AllEmpty(init + [path], files) <==> AllEmpty(init, files) && files[path] == []
  {
    assert forall i :: 0 <= i < |init| ==> (init + [path])[i] == init[i];
    assert (init + [path])[|init|] == path;
  }

  /** The loop's visit to a per-chromosome file holding one position. */
  lemma SingleAfter(rd: Reading, paths: seq<string>, files: map<string, PosRecords>, i: nat, st: Split, k: int, h: seq<Hit>)
    requires i < |paths| && SplitAll(rd, paths[..i], files) == Success(st)
    requires paths[i] in st.files && st.files[paths[i]] == [Entry(k, h)]
    ensures var name := BinFileName(ChromOf(rd, paths[i]), BinOf(k));
      SplitAll(rd, paths[..i + 1], files) == Success(Split(st.files - {paths[i]}, st.binPaths + [name], st.binFiles[name := [Entry(k, h)]]))
  {
    SplitAllSnoc(rd, paths, files, i, st);
    SplitOneSingle(rd, st, paths[i], k, h);
  }

  /** A per-chromosome file holding one position writes that position's bin alone. */
  lemma SplitOneSingle(rd: Reading, st: Split, path: string, k: int, h: seq<Hit>)
    requires path in st.files && st.files[path] == [Entry(k, h)]
    ensures var name := BinFileName(ChromOf(rd, path), BinOf(k));
      SplitOne(rd, st, path) == Success(Split(st.files - {path}, st.binPaths + [name], st.binFiles[name := [Entry(k, h)]]))
  {
    var chrom := ChromOf(rd, path);
    var nbin := BinOf(k);
    var name := BinFileName(chrom, nbin);
    assert [Entry(k, h)][..0] == [];
    assert BinsOf([Entry(k, h)][..0]) == [];
    assert Put([], k, h) == [Entry(k, h)];
    assert Put([], nbin, [Entry(k, h)]) == [Entry(nbin, [Entry(k, h)])];
    var bins := BinsOf([Entry(k, h)]);
    assert bins == [Entry(nbin, [Entry(k, h)])];
    assert BinNames(chrom, bins) == [name];
    assert BinValues(bins) == [[Entry(k, h)]];
    WriteAllSnoc(st.binFiles, [], [], name, [Entry(k, h)]);
  }

  /** Two per-chromosome files, each holding one position, both in bin `nbin`. */
  predicate TwoSingles(paths: seq<string>, files: map<string, PosRecords>, k1: int, h1: seq<Hit>, k2: int, h2: seq<Hit>) {
    && |paths| == 2 && paths[0] != paths[1]
    && files == map[paths[0] := [Entry(k1, h1)], paths[1] := [Entry(k2, h2)]]
    && BinOf(k1) == BinOf(k2)
  }

  /** The first visit writes the first file's one bin. */
  lemma FirstOfTwo(rd: Reading, paths: seq<string>, files: map<string, PosRecords>, k1: int, h1: seq<Hit>, k2: int, h2: seq<Hit>)
    requires TwoSingles(paths, files, k1, h1, k2, h2)
    ensures var name := BinFileName(ChromOf(rd, paths[0]), BinOf(k1));
      SplitAll(rd, paths[..1], files) == Success(Split(files - {paths[0]}, [name], map[name := [Entry(k1, h1)]]))
  {
    var name := BinFileName(ChromOf(rd, paths[0]), BinOf(k1));
    assert paths[..0] == [];
    SingleAfter(rd, paths, files, 0, Split(files, [], map[]), k1, h1);
    assert [] + [name] == [name];
    assert map[][name := [Entry(k1, h1)]] == map[name := [Entry(k1, h1)]];
  }

  /**
   * Two per-chromosome files read back as the same chromosome, each with
   * one position of the same bin, write the same bin file: the path is
   * listed twice and the second write replaces the first.
   */
  lemma SameChromCollide(rd: Reading, paths: seq<string>, files: map<string, PosRecords>, k1: int, h1: seq<Hit>, k2: int, h2: seq<Hit>)
    requires TwoSingles(paths, files, k1, h1, k2, h2) && ChromOf(rd, paths[0]) == ChromOf(rd, paths[1])
    ensures var name := BinFileName(ChromOf(rd, paths[0]), BinOf(k1));
      && SplitAll(rd, paths, files).Success?
      && SplitAll(rd, paths, files).value.binPaths == [name, name]
      && SplitAll(rd, paths, files).value.binFiles == map[name := [Entry(k2, h2)]]
  {
    SecondOfTwo(rd, paths, files, k1, h1, k2, h2);
    assert paths[..2] == paths;
  }

  /** The second visit writes the same bin file again, replacing the first position. */
  lemma SecondOfTwo(rd: Reading, paths: seq<string>, files: map<string, PosRecords>, k1: int, h1: seq<Hit>, k2: int, h2: seq<Hit>)
    requires TwoSingles(paths, files, k1, h1, k2, h2) && ChromOf(rd, paths[0]) == ChromOf(rd, paths[1])
    ensures var name := BinFileName(ChromOf(rd, paths[0]), BinOf(k1));
      && SplitAll(rd, paths[..2], files).Success?
      && SplitAll(rd, paths[..2], files).value.binPaths == [name, name]
      && SplitAll(rd, paths[..2], files).value.binFiles == map[name := [Entry(k2, h2)]]
  {
    var name := BinFileName(ChromOf(rd, paths[0]), BinOf(k1));
    var st1 := Split(files - {paths[0]}, [name], map[name := [Entry(k1, h1)]]);
    FirstOfTwo(rd, paths, files, k1, h1, k2, h2);
    assert BinFileName(ChromOf(rd, paths[1]), BinOf(k2)) == name;
    SingleAfter(rd, paths, files, 1, st1, k2, h2);
    assert [name] + [name] == [name, name];
    OverwriteOnly(name, [Entry(k1, h1)], [Entry(k2, h2)]);
  }

  /** Writing a file twice leaves the second content. */
  lemma OverwriteOnly<K, V>(k: K, a: V, b: V)
    ensures map[k := a][k := b] == map[k := b]
  {
  }

  /**
   * As written, the scaffolds `"GL000192.1"` and `"GL000192.2"` write
   * positions of the same bin to the same bin file
   * `"GL000192.<start>-<end>.c_motif.msg"`: the path is listed twice, the
   * second write replaces the first, and the first scaffold's position is
   * in no bin file.
   */
  lemma StemCollision(k1: int, h1: seq<Hit>, k2: int, h2: seq<Hit>)
    requires BinOf(k1) == BinOf(k2) && k1 != k2
    ensures var p1, p2 := ChromFileName("GL000192.1"), ChromFileName("GL000192.2");
      var name := BinFileName("GL000192", BinOf(k1));
      var r := SplitAll(AsWritten, [p1, p2], map[p1 := [Entry(k1, h1)], p2 := [Entry(k2, h2)]]);
      && r.Success?
      && r.value.binPaths == [name, name]
      && r.value.binFiles == map[name := [Entry(k2, h2)]]
      && forall f :: f in r.value.binFiles ==> Find(r.value.binFiles[f], k1).None?
  {
    var p1, p2 := ChromFileName("GL000192.1"), ChromFileName("GL000192.2");
    ChromOfFileAsWrittenTruncates();
    AsWrittenStemsCollide();
    assert p1 != p2 by {
      ChromOfFileRoundTrip("GL000192.1");
      ChromOfFileRoundTrip("GL000192.2");
    }
    SameChromCollide(AsWritten, [p1, p2], map[p1 := [Entry(k1, h1)], p2 := [Entry(k2, h2)]], k1, h1, k2, h2);
    LostPosition(BinFileName("GL000192", BinOf(k1)), k1, k2, h2);
  }

  /** A bin file left holding only the position `k2` holds no other position `k1`. */
  lemma LostPosition(name: string, k1: int, k2: int, h2: seq<Hit>)
    requires k1 != k2
    ensures forall f :: f in map[name := [Entry(k2, h2)]] ==> Find(map[name := [Entry(k2, h2)]][f], k1).None?
  {
  }

  // ------------------------------------------------------------ the loops

  /** Listing and writing bin `j` after the first `j` extends both by that bin. */
  lemma WriteBinStep(chrom: string, binDict: Bins, j: nat, binPaths: seq<string>, binFiles: map<string, PosRecords>)
    requires j < |binDict|
    ensures binPaths + BinNames(chrom, binDict[..j]) + [BinFileName(chrom, binDict[j].key)]
         == binPaths + BinNames(chrom, binDict[..j + 1])
    ensures WriteAll(binFiles, BinNames(chrom, binDict[..j]), BinValues(binDict[..j]))[BinFileName(chrom, binDict[j].key) := binDict[j].value]
         == WriteAll(binFiles, BinNames(chrom, binDict[..j + 1]), BinValues(binDict[..j + 1]))
  {
    var names, vals := BinNames(chrom, binDict[..j]), BinValues(binDict[..j]);
    var name := BinFileName(chrom, binDict[j].key);
    BinNamesSnoc(chrom, binDict, j);
    BinValuesSnoc(binDict, j);
    WriteAllSnoc(binFiles, names, vals, name, binDict[j].value);
    AppendChain(binPaths, binPaths + names, binPaths + names + [name], names, [name], names + [name]);
  }

  /** The loop writing one chromosome's bins: each bin goes to its file, and its path is listed. */
  method WriteBinFiles(chrom: string, binDict: Bins, binPaths: seq<string>, binFiles: map<string, PosRecords>)
    returns (binPaths': seq<string>, binFiles': map<string, PosRecords>)
    ensures binPaths' == binPaths + BinNames(chrom, binDict)
    ensures binFiles' == WriteBins(binFiles, chrom, binDict)
  {
    binPaths', binFiles' := binPaths, binFiles;
    for j := 0 to |binDict|
      invariant binPaths' == binPaths + BinNames(chrom, binDict[..j])
      invariant binFiles' == WriteAll(binFiles, BinNames(chrom, binDict[..j]), BinValues(binDict[..j]))
    {
      var nbin, data := binDict[j].key, binDict[j].value;
      var binPath := BinFileName(chrom, nbin);
      WriteBinStep(chrom, binDict, j, binPaths, binFiles);
      binPaths' := binPaths' + [binPath];
      binFiles' := binFiles'[binPath := data];
    }
    assert binDict[..|binDict|] == binDict;
  }

  /**
   * The loop over the per-chromosome files: read each, write its bins in
   * order, remove it. A path listed twice fails on its second visit.
   */
  method SplitChromFiles(chromFilePaths: seq<string>, files: map<string, PosRecords>)
    returns (r: Result<Split, CMotifError>)
    ensures r == SplitAll(AsWritten, chromFilePaths, files)
    ensures (forall i :: 0 <= i < |chromFilePaths| ==> chromFilePaths[i] in files) ==>
      (r.Failure? <==> !NoDuplicates(chromFilePaths))
  {
    r := SplitLoop(chromFilePaths, files);
    if forall j :: 0 <= j < |chromFilePaths| ==> chromFilePaths[j] in files {
      SplitAllFails(AsWritten, chromFilePaths, files);
    }
  }

  /** One more path extends the loop by one visit. */
  lemma SplitAllSnoc(rd: Reading, paths: seq<string>, files: map<string, PosRecords>, i: nat, st: Split)
    requires i < |paths| && SplitAll(rd, paths[..i], files) == Success(st)
    ensures SplitAll(rd, paths[..i + 1], files) == SplitOne(rd, st, paths[i])
  {
    assert paths[..i + 1][..i] == paths[..i];
  }

  /**
   * The loop itself, stopping at the first path whose file is gone. The
   * chromosome is read back as `path.name.split('.')[0]`.
   */
  method SplitLoop(chromFilePaths: seq<string>, files: map<string, PosRecords>)
    returns (r: Result<Split, CMotifError>)
    ensures r == SplitAll(AsWritten, chromFilePaths, files)
  {
    var remaining := files;
    var binPaths: seq<string> := [];
    var binFiles: map<string, PosRecords> := map[];
    for i := 0 to |chromFilePaths|
      invariant SplitAll(AsWritten, chromFilePaths[..i], files) == Success(Split(remaining, binPaths, binFiles))
    {
      SplitAllSnoc(AsWritten, chromFilePaths, files, i, Split(remaining, binPaths, binFiles));
      var path := chromFilePaths[i];
      var chrom := ChromOfFileAsWritten(path);
      if path !in remaining {
        r := Failure(FileNotFound(path));
        SplitAllFailureSticks(AsWritten, chromFilePaths, files, i + 1);
        return;
      }
      var binDict := SplitBins(remaining[path]);
      binPaths, binFiles := WriteBinFiles(chrom, binDict, binPaths, binFiles);
      remaining := remaining - {path};
    }
    assert chromFilePaths[..|chromFilePaths|] == chromFilePaths;
    r := Success(Split(remaining, binPaths, binFiles));
  }

  /**
   * The lookup table: one row per bin file, read back from its name as the
   * first two `'.'`-pieces. A window whose start or end is not an integer,
   * as for a negative bin, stops the build with `ValueError`, and a table
   * with no rows with `KeyError`. A name with fewer than two pieces or a
   * window without `'-'` would raise `IndexError` instead; the names the
   * build produces never look like that, and the model gives them
   * `ValueError` too.
   */
  method LookupTable(binPaths: seq<string>) returns (r: Result<seq<LookupRecord>, CMotifError>)
    ensures r.Success? <==> binPaths != [] && forall i :: 0 <= i < |binPaths| ==> ParseBinFileNameAsWritten(binPaths[i]).Some?
    ensures r.Success? ==> |r.value| == |binPaths|
    ensures r.Success? ==> forall i :: 0 <= i < |binPaths| ==> ParseBinFileNameAsWritten(binPaths[i]) == Some(r.value[i])
    ensures r.Success? ==> forall i :: 0 <= i < |binPaths| ==> r.value[i].fileName == binPaths[i]
    ensures r.Failure? && binPaths != [] ==>
      exists i :: 0 <= i < |binPaths| && r.error == ValueError(binPaths[i]) && ParseBinFileNameAsWritten(binPaths[i]).None?
    ensures r.Failure? && binPaths == [] ==> r.error == KeyError
  {
    var records: seq<LookupRecord> := [];
    for i := 0 to |binPaths|
      invariant |records| == i
      invariant forall j :: 0 <= j < i ==> ParseBinFileNameAsWritten(binPaths[j]) == Some(records[j])
      invariant forall j :: 0 <= j < i ==> records[j].fileName == binPaths[j]
    {
      var path := binPaths[i];
      match ParseBinFileNameAsWritten(path)
      case None =>
        r := Failure(ValueError(path));
        return;
      case Some(record) =>
        records := records + [record];
    }
    if records == [] {
      r := Failure(KeyError);
      return;
    }
    r := Success(records);
  }
}
