/**
 * The file names of the C-motif database built by
 * `_generate_c_motif_database` in ALLCools/motif/cmotif.py: one
 * `"<chrom>.c_motif.msg"` file per chromosome, split into
 * `"<chrom>.<start>-<end>.c_motif.msg"` files of 20 Mb bins, and the
 * lookup-table row read back from each bin file name.
 */
module CMotifNames {
  import opened Wrappers
  import opened Text

  /** `bin_size`: positions are grouped into 20 Mb bins. */
  const BinSize: nat := 20000000

  /** The extension every database file ends with, after its last `'.'`. */
  const Ext: string := "c_motif.msg"
  const Suffix: string := "." + Ext

  /** The bin of a position: Python's `k // bin_size` (floor, as Dafny's `/` for a positive divisor). */
  function BinOf(k: int): int
  {
    k / BinSize
  }

  /** A position lies in the half-open 20 Mb window of its bin. */
  lemma BinOfBounds(k: int)
    ensures BinOf(k) * BinSize <= k < (BinOf(k) + 1) * BinSize
  {
  }

  /** The bin is the only window holding the position. */
  lemma BinOfUnique(k: int, n: int)
    requires n * BinSize <= k < (n + 1) * BinSize
    ensures BinOf(k) == n
  {
  }

  /** The per-chromosome file name. */
  function ChromFileName(chrom: string): string
  {
    chrom + "." + Ext
  }

  /** The chromosome as the source reads it back: `name.split('.')[0]`. */
  function ChromOfFileAsWritten(name: string): string
  {
    SplitOn(name, ".")[0]
  }

  /** For a chromosome name without `'.'` the as-written reading is right. */
  lemma ChromOfFileAsWrittenPlain(chrom: string)
    requires '.' !in chrom
    ensures ChromOfFileAsWritten(ChromFileName(chrom)) == chrom
  {
    SplitAfterPlain(chrom, ".", Ext);
  }

  /** A scaffold such as `"GL000192.1"` comes back cut at its first dot. */
  lemma ChromOfFileAsWrittenTruncates()
    ensures ChromOfFileAsWritten(ChromFileName("GL000192.1")) == "GL000192"
  {
    var name := ChromFileName("GL000192.1");
    assert "GL000192.1" == "GL000192" + "." + "1";
    assert name == "GL000192" + "." + ("1" + "." + Ext);
    SplitAfterPlain("GL000192", ".", "1" + "." + Ext);
  }

  /** `s` ends with the database suffix. */
  predicate HasSuffix(s: string) {
    |Suffix| <= |s| && s[|s| - |Suffix|..] == Suffix
  }

  /** The chromosome of a per-chromosome file name: the name without the suffix. */
  function ChromOfFile(name: string): string
  {
    if HasSuffix(name) then name[..|name| - |Suffix|] else name
  }

  lemma ChromOfFileRoundTrip(chrom: string)
    ensures ChromOfFile(ChromFileName(chrom)) == chrom
  {
    var name := ChromFileName(chrom);
    assert name[|name| - |Suffix|..] == Suffix;
    assert name[..|name| - |Suffix|] == chrom;
  }

  /** The bin file name `f'{chrom}.{nbin * bin_size}-{(nbin + 1) * bin_size}.c_motif.msg'`. */
  function BinFileName(chrom: string, nbin: int): string
  {
    chrom + "." + BinRange(nbin) + "." + Ext
  }

  /** The window of bin `nbin` as text: `f'{nbin * bin_size}-{(nbin + 1) * bin_size}'`. */
  function BinRange(nbin: int): (r: string)
    ensures '.' !in r
  {
    IntToString(nbin * BinSize) + "-" + IntToString((nbin + 1) * BinSize)
  }

  /** A row of the lookup table. */
  datatype LookupRecord = LookupRecord(fileName: string, chrom: string, start: int, end: int)

  /** The `start-end` part of a bin file name: the first two `'-'`-separated pieces as integers. */
  function ParseRange(name: string, chrom: string, range: string): Option<LookupRecord>
  {
    var bounds := SplitOn(range, "-");
    if |bounds| < 2 then None
    else
      match (ParseInt(bounds[0]), ParseInt(bounds[1]))
      case (Some(start), Some(end)) => Some(LookupRecord(name, chrom, start, end))
      case _ => None
  }

  /**
   * The lookup row as the source reads it: chromosome `name.split('.')[0]`,
   * range `name.split('.')[1]`; a missing piece or a non-numeral raises,
   * here None.
   */
  function ParseBinFileNameAsWritten(name: string): Option<LookupRecord>
  {
    var parts := SplitOn(name, ".");
    if |parts| < 2 then None else ParseRange(name, parts[0], parts[1])
  }

  /** `"<a>-<b>"` for non-negative `a`, `b` splits back into the two numbers. */
  lemma ParseRangeRoundTrip(name: string, chrom: string, a: nat, b: nat)
    ensures ParseRange(name, chrom, IntToString(a) + "-" + IntToString(b)) == Some(LookupRecord(name, chrom, a, b))
  {
    var sa, sb := IntToString(a), IntToString(b);
    assert '-' !in sa by { assert AllDigits(sa); }
    assert '-' !in sb by { assert AllDigits(sb); }
    SplitAfterPlain(sa, "-", sb);
    SplitPlain(sb, "-");
    IntToStringRoundTrip(a);
    IntToStringRoundTrip(b);
  }

  /** With neither part holding `'.'`, the as-written reading splits chromosome from range. */
  lemma AsWrittenSplitsStem(chrom: string, range: string)
    requires '.' !in chrom && '.' !in range
    ensures var name := chrom + "." + range + "." + Ext;
      ParseBinFileNameAsWritten(name) == ParseRange(name, chrom, range)
  {
    var name := chrom + "." + range + "." + Ext;
    assert name == chrom + "." + (range + "." + Ext);
    SplitAfterPlain(chrom, ".", range + "." + Ext);
    SplitAfterPlain(range, ".", Ext);
  }

  /**
   * The lookup row read from the end: strip the suffix, and split the rest at
   * its last `'.'` into the chromosome and the range.
   */
  function ParseBinFileName(name: string): Option<LookupRecord>
  {
    if !HasSuffix(name) then None
    else
      var stem := name[..|name| - |Suffix|];
      match LastIndexOf(stem, ".")
      case None => None
      case Some(i) => ParseRange(name, stem[..i], stem[i + 1..])
  }

  /** Reading from the end splits any chromosome from a range without `'.'`. */
  lemma SplitsStem(chrom: string, range: string)
    requires '.' !in range
    ensures var name := chrom + "." + range + "." + Ext;
      ParseBinFileName(name) == ParseRange(name, chrom, range)
  {
    var name := chrom + "." + range + "." + Ext;
    var stem := chrom + "." + range;
    assert name == stem + Suffix;
    assert name[|name| - |Suffix|..] == Suffix;
    assert name[..|name| - |Suffix|] == stem;
    assert OccursAt(stem, ".", |chrom|) by {
      assert stem[|chrom|..|chrom| + 1] == ".";
    }
    forall i: nat | |chrom| < i ensures !OccursAt(stem, ".", i) {
      if i + 1 <= |stem| {
        assert stem[i] == range[i - |chrom| - 1];
        assert stem[i..i + 1] == [stem[i]];
      }
    }
    assert stem[..|chrom|] == chrom;
    assert stem[|chrom| + 1..] == range;
  }

  /** Every bin file name of a non-negative bin reads back as its chromosome and window. */
  lemma BinFileNameRoundTrip(chrom: string, nbin: nat)
    ensures ParseBinFileName(BinFileName(chrom, nbin))
         == Some(LookupRecord(BinFileName(chrom, nbin), chrom, nbin * BinSize, (nbin + 1) * BinSize))
  {
    SplitsStem(chrom, BinRange(nbin));
    ParseRangeRoundTrip(BinFileName(chrom, nbin), chrom, nbin * BinSize, (nbin + 1) * BinSize);
  }

  /** A range without `'-'` is no `start-end` pair. */
  lemma ParseRangeNoDash(name: string, chrom: string, range: string)
    requires '-' !in range
    ensures ParseRange(name, chrom, range) == None
  {
    if range == [] {
      assert SplitOn(range, "-") == [range];
    } else {
      SplitPlain(range, "-");
    }
  }

  /** A range starting with `'-'` has an empty first piece, which is no integer. */
  lemma ParseRangeEmptyStart(name: string, chrom: string, rest: string)
    ensures ParseRange(name, chrom, "-" + rest) == None
  {
    assert "-" + rest == [] + "-" + rest;
    SplitAfterPlain([], "-", rest);
  }

  /** A negative bin's window starts with a minus sign, which the range split reads as an empty start. */
  lemma ParseBinFileNameNegative(chrom: string, nbin: int)
    requires nbin < 0
    ensures ParseBinFileName(BinFileName(chrom, nbin)) == None
  {
    SplitsStem(chrom, BinRange(nbin));
    var r := BinRange(nbin);
    assert IntToString(nbin * BinSize)[0] == '-';
    assert r == "-" + r[1..];
    ParseRangeEmptyStart(BinFileName(chrom, nbin), chrom, r[1..]);
  }

  /** The lookup row of any bin file name: its window for a non-negative bin, none for a negative one. */
  lemma ParseBinFileNameOf(chrom: string, nbin: int)
    ensures ParseBinFileName(BinFileName(chrom, nbin))
         == if 0 <= nbin then Some(LookupRecord(BinFileName(chrom, nbin), chrom, nbin * BinSize, (nbin + 1) * BinSize)) else None
  {
    if 0 <= nbin {
      BinFileNameRoundTrip(chrom, nbin);
    } else {
      ParseBinFileNameNegative(chrom, nbin);
    }
  }

  /** Distinct chromosomes or distinct non-negative bins never share a bin file name. */
  lemma BinFileNameInjective(c1: string, n1: nat, c2: string, n2: nat)
    requires BinFileName(c1, n1) == BinFileName(c2, n2)
    ensures c1 == c2 && n1 == n2
  {
    BinFileNameRoundTrip(c1, n1);
    BinFileNameRoundTrip(c2, n2);
  }

  /** Two per-chromosome file names with the suffix are equal when their chromosomes are. */
  lemma ChromOfFileInjective(p1: string, p2: string)
    requires HasSuffix(p1) && HasSuffix(p2) && ChromOfFile(p1) == ChromOfFile(p2)
    ensures p1 == p2
  {
    assert p1 == p1[..|p1| - |Suffix|] + Suffix;
    assert p2 == p2[..|p2| - |Suffix|] + Suffix;
  }

  /** A name with the suffix is the file name of its chromosome. */
  lemma ChromFileNameOf(path: string)
    requires HasSuffix(path)
    ensures ChromFileName(ChromOfFile(path)) == path
  {
    assert path == path[..|path| - |Suffix|] + Suffix;
  }

  /**
   * For a chromosome without `'.'`, the as-written reading and the reading
   * from the end agree on every bin file name.
   */
  lemma AsWrittenAgrees(chrom: string, nbin: int)
    requires '.' !in chrom
    ensures ParseBinFileNameAsWritten(BinFileName(chrom, nbin)) == ParseBinFileName(BinFileName(chrom, nbin))
  {
    AsWrittenSplitsStem(chrom, BinRange(nbin));
    SplitsStem(chrom, BinRange(nbin));
  }

  /** The first `'.'`-piece of a name holds no `'.'`. */
  lemma FirstPieceDotFree(s: string)
    ensures '.' !in SplitOn(s, ".")[0]
  {
    match IndexOf(s, ".")
    case None =>
      if '.' in s {
        var j :| 0 <= j < |s| && s[j] == '.';
        assert s[j..j + 1] == ".";
        assert OccursAt(s, ".", j);
      }
    case Some(i) =>
      if '.' in s[..i] {
        var j :| 0 <= j < i && s[..i][j] == '.';
        assert s[j..j + 1] == ".";
        assert OccursAt(s, ".", j);
      }
  }

  /** How a chromosome is read back from its per-chromosome file name. */
  datatype Reading = AsWritten | Corrected

  /** The chromosome of a per-chromosome file name under each reading. */
  function ChromOf(rd: Reading, name: string): (chrom: string)
    ensures rd == AsWritten ==> '.' !in chrom
  {
    FirstPieceDotFree(name);
    match rd
    case AsWritten => ChromOfFileAsWritten(name)
    case Corrected => ChromOfFile(name)
  }

  /** Both readings give the chromosome back when it holds no `'.'`. */
  lemma ChromOfAgrees(rd: Reading, path: string)
    requires HasSuffix(path) && '.' !in ChromOfFile(path)
    ensures ChromOf(rd, path) == ChromOfFile(path)
  {
    ChromFileNameOf(path);
    ChromOfFileAsWrittenPlain(ChromOfFile(path));
  }

  /** Two scaffolds sharing the stem `"GL000192"` are read back as the same chromosome. */
  lemma AsWrittenStemsCollide()
    ensures ChromOfFileAsWritten(ChromFileName("GL000192.1")) == ChromOfFileAsWritten(ChromFileName("GL000192.2"))
  {
    ChromOfFileAsWrittenTruncates();
    var name := ChromFileName("GL000192.2");
    assert "GL000192.2" == "GL000192" + "." + "2";
    assert name == "GL000192" + "." + ("2" + "." + Ext);
    SplitAfterPlain("GL000192", ".", "2" + "." + Ext);
  }
}
