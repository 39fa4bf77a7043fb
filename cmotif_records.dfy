/**
 * The position records of one chromosome in `_generate_c_motif_database`
 * (ALLCools/motif/cmotif.py): every C or G base covered by a motif hit
 * maps its 1-based position to the list of `(strand flag, motif id)` pairs
 * found there. The flag is 1 when the cytosine lies on the motif's own
 * strand (a C under a `+` hit, a G under a `-` hit) and 0 otherwise.
 */
module CMotifRecords {
  import opened Wrappers
  import opened OrderedMap

  /** One `(prefix, motif_int_id)` pair. */
  datatype Hit = Hit(flag: nat, motif: nat)

  /** `record_dict`: position to hits, in insertion order. */
  type PosRecords = seq<Entry<seq<Hit>>>

  // ------------------------------------------------------------ Python slices

  /** A slice bound as Python normalises it: negative counts from the end, then clamp to `[0, n]`. */
  function SliceBound(i: int, n: nat): (r: nat)
    ensures r <= n
    ensures 0 <= i <= n ==> r == i
    ensures i < 0 && 0 <= i + n ==> r == i + n
  {
    if i < 0 then (if i + n < 0 then 0 else i + n)
    else if i > n then n
    else i
  }

  /** `s[start:end]`. */
  function PySlice(s: string, start: int, end: int): (r: string)
    ensures |r| <= |s|
  {
    var a, b := SliceBound(start, |s|), SliceBound(end, |s|);
    if a <= b then s[a..b] else []
  }

  /** From a non-negative start, base `i` of the slice is base `start + i` of the sequence. */
  lemma PySliceAt(s: string, start: int, end: int)
    requires 0 <= start
    ensures forall i :: 0 <= i < |PySlice(s, start, end)| ==> start + i < |s| && PySlice(s, start, end)[i] == s[start + i]
    ensures 0 <= start <= end <= |s| ==> |PySlice(s, start, end)| == end - start
  {
    var a, b := SliceBound(start, |s|), SliceBound(end, |s|);
    if a <= b {
      assert a == start || (start > |s| && a == |s|);
      assert PySlice(s, start, end) == s[a..b];
      forall i | 0 <= i < b - a ensures s[a..b][i] == s[start + i] {
      }
    } else {
      assert PySlice(s, start, end) == [];
    }
  }

  // ------------------------------------------------------------------- hits

  /** The hit one base of a motif contributes, if it is a C or a G. */
  function HitOf(base: char, forward: bool, id: nat): (h: Option<Hit>)
    ensures h.Some? <==> base == 'C' || base == 'G'
    ensures h.Some? ==> h.value.motif == id && h.value.flag <= 1
    ensures h.Some? ==> (h.value.flag == 1 <==> (base == 'C') == forward)
  {
    var cPrefix, gPrefix := if forward then 1 else 0, if forward then 0 else 1;
    if base == 'C' then Some(Hit(cPrefix, id))
    else if base == 'G' then Some(Hit(gPrefix, id))
    else None
  }

  /** `record_dict[pos].append(hit)` for the hit of one base, if any. */
  function AddBase(d: PosRecords, pos: int, base: char, forward: bool, id: nat): PosRecords
  {
    match HitOf(base, forward, id)
    case None => d
    case Some(h) => Put(d, pos, Get(d, pos, []) + [h])
  }

  /** The records after the bases of `motif`, starting at 0-based `start`, are added in order. */
  function AddMotif(d: PosRecords, start: int, motif: string, forward: bool, id: nat): PosRecords
    decreases |motif|
  {
    if motif == [] then d
    else AddBase(AddMotif(d, start, motif[..|motif| - 1], forward, id), start + |motif|, motif[|motif| - 1], forward, id)
  }

  /** The hit of one base as a list: empty unless the base is a C or a G. */
  function HitList(base: char, forward: bool, id: nat): seq<Hit>
  {
    match HitOf(base, forward, id)
    case None => []
    case Some(h) => [h]
  }

  /** The hits a motif at `start` leaves at 1-based position `q`: that of its base `q - start - 1`. */
  function MotifHitsAt(start: int, motif: string, forward: bool, id: nat, q: int): seq<Hit>
  {
    if start < q <= start + |motif| then HitList(motif[q - start - 1], forward, id) else []
  }

  /** One more base only adds its own hit, at its own position. */
  lemma MotifHitsAtSnoc(start: int, motif: string, forward: bool, id: nat, q: int)
    requires motif != []
    ensures MotifHitsAt(start, motif, forward, id, q)
         == MotifHitsAt(start, motif[..|motif| - 1], forward, id, q)
          + (if q == start + |motif| then HitList(motif[|motif| - 1], forward, id) else [])
  {
    var init := motif[..|motif| - 1];
    if start < q < start + |motif| {
      assert motif[q - start - 1] == init[q - start - 1];
    }
  }

  /** Adding one base keeps the keys unique. */
  lemma AddBaseUnique(d: PosRecords, pos: int, base: char, forward: bool, id: nat)
    requires UniqueKeys(d)
    ensures UniqueKeys(AddBase(d, pos, base, forward, id))
  {
    match HitOf(base, forward, id)
    case None =>
    case Some(h) => PutGet(d, pos, Get(d, pos, []) + [h], pos, []);
  }

  /** Adding one base appends its hit at its position and changes nothing else. */
  lemma AddBaseGet(d: PosRecords, pos: int, base: char, forward: bool, id: nat, q: int)
    requires UniqueKeys(d)
    ensures Get(AddBase(d, pos, base, forward, id), q, []) == Get(d, q, []) + (if q == pos then HitList(base, forward, id) else [])
  {
    match HitOf(base, forward, id)
    case None =>
    case Some(h) => PutGet(d, pos, Get(d, pos, []) + [h], q, []);
  }

  /** Two appends in a row are one append of both parts. */
  lemma AppendChain<T>(g0: seq<T>, g1: seq<T>, g2: seq<T>, b: seq<T>, c: seq<T>, m: seq<T>)
    requires g1 == g0 + b && g2 == g1 + c && m == b + c
    ensures g2 == g0 + m
  {
    assert (g0 + b) + c == g0 + (b + c);
  }

  /** Adding a motif keeps the keys unique. */
  lemma {:induction false} AddMotifUnique(d: PosRecords, start: int, motif: string, forward: bool, id: nat)
    requires UniqueKeys(d)
    ensures UniqueKeys(AddMotif(d, start, motif, forward, id))
    decreases |motif|
  {
    if motif != [] {
      var n := |motif|;
      AddMotifUnique(d, start, motif[..n - 1], forward, id);
      AddBaseUnique(AddMotif(d, start, motif[..n - 1], forward, id), start + n, motif[n - 1], forward, id);
    }
  }

  /** Adding a motif appends its own hit at each position it covers and changes nothing else. */
  lemma {:induction false} AddMotifGet(d: PosRecords, start: int, motif: string, forward: bool, id: nat, q: int)
    requires UniqueKeys(d)
    ensures Get(AddMotif(d, start, motif, forward, id), q, []) == Get(d, q, []) + MotifHitsAt(start, motif, forward, id, q)
    decreases |motif|
  {
    if motif != [] {
      var n := |motif|;
      var init := motif[..n - 1];
      var e := AddMotif(d, start, init, forward, id);
      var pos, base := start + n, motif[n - 1];
      assert AddMotif(d, start, motif, forward, id) == AddBase(e, pos, base, forward, id);
      var g0, g1, g2 := Get(d, q, []), Get(e, q, []), Get(AddBase(e, pos, base, forward, id), q, []);
      var b, c := MotifHitsAt(start, init, forward, id, q), if q == pos then HitList(base, forward, id) else [];
      var m := MotifHitsAt(start, motif, forward, id, q);
      AddMotifGet(d, start, init, forward, id, q);
      AddMotifUnique(d, start, init, forward, id);
      AddBaseGet(e, pos, base, forward, id, q);
      assert m == b + c by { MotifHitsAtSnoc(start, motif, forward, id, q); }
      AppendChain(g0, g1, g2, b, c, m);
    } else {
      AppendChain(Get(d, q, []), Get(d, q, []), Get(d, q, []), [], [], MotifHitsAt(start, motif, forward, id, q));
    }
  }

  /**
   * The loop over the bases of one motif hit: a C gets the forward-strand
   * prefix, a G the reverse-strand one, at position `start + i + 1`.
   */
  method EmitMotif(recordDict: PosRecords, start: int, motif: string, forward: bool, motifIntId: nat)
    returns (r: PosRecords)
    requires UniqueKeys(recordDict)
    ensures r == AddMotif(recordDict, start, motif, forward, motifIntId)
    ensures UniqueKeys(r)
    ensures forall q :: Get(r, q, []) == Get(recordDict, q, []) + MotifHitsAt(start, motif, forward, motifIntId, q)
  {
    var cPrefix, gPrefix := if forward then 1 else 0, if forward then 0 else 1;
    r := recordDict;
    for iBase := 0 to |motif|
      invariant r == AddMotif(recordDict, start, motif[..iBase], forward, motifIntId)
    {
      var pos := start + iBase + 1;
      var base := motif[iBase];
      if base == 'C' {
        r := Put(r, pos, Get(r, pos, []) + [Hit(cPrefix, motifIntId)]);
      } else if base == 'G' {
        r := Put(r, pos, Get(r, pos, []) + [Hit(gPrefix, motifIntId)]);
      }
      assert motif[..iBase + 1][..iBase] == motif[..iBase];
    }
    assert motif[..|motif|] == motif;
    AddMotifUnique(recordDict, start, motif, forward, motifIntId);
    forall q ensures Get(r, q, []) == Get(recordDict, q, []) + MotifHitsAt(start, motif, forward, motifIntId, q) {
      AddMotifGet(recordDict, start, motif, forward, motifIntId, q);
    }
  }

  // ------------------------------------------------------------ well-formed

  /** Every hit has a 0/1 flag and a motif id below `nextId`. */
  predicate HitsBelow(d: PosRecords, nextId: nat) {
    forall i :: 0 <= i < |d| ==> forall h :: h in d[i].value ==> h.flag <= 1 && h.motif < nextId
  }

  /** Every recorded position is a C or a G of the chromosome (1-based). */
  predicate OnCytosines(d: PosRecords, chromSeq: string) {
    forall i :: 0 <= i < |d| ==> 1 <= d[i].key <= |chromSeq| && chromSeq[d[i].key - 1] in "CG"
  }

  lemma HitsBelowMono(d: PosRecords, n: nat, m: nat)
    requires HitsBelow(d, n) && n <= m
    ensures HitsBelow(d, m)
  {
  }

  /** Adding the hits of motif `id` keeps every id below `nextId` when `id` is. */
  lemma {:induction false} AddMotifHitsBelow(d: PosRecords, start: int, motif: string, forward: bool, id: nat, nextId: nat)
    requires HitsBelow(d, nextId) && id < nextId
    ensures HitsBelow(AddMotif(d, start, motif, forward, id), nextId)
    decreases |motif|
  {
    if motif != [] {
      var n := |motif|;
      var e := AddMotif(d, start, motif[..n - 1], forward, id);
      AddMotifHitsBelow(d, start, motif[..n - 1], forward, id, nextId);
      match HitOf(motif[n - 1], forward, id)
      case None =>
      case Some(h) =>
        var pos := start + n;
        var old_ := Get(e, pos, []);
        match Find(e, pos)
        case None =>
        case Some(i) => assert old_ == e[i].value;
        assert forall x: Hit :: x in old_ + [h] ==> x.flag <= 1 && x.motif < nextId;
    }
  }

  /** A base that is a C or a G of the chromosome at its 1-based position keeps every recorded position on a cytosine. */
  lemma AddBaseOnCytosines(d: PosRecords, chromSeq: string, pos: int, base: char, forward: bool, id: nat)
    requires OnCytosines(d, chromSeq)
    requires base == 'C' || base == 'G' ==> 1 <= pos <= |chromSeq| && chromSeq[pos - 1] == base
    ensures OnCytosines(AddBase(d, pos, base, forward, id), chromSeq)
  {
    match HitOf(base, forward, id)
    case None =>
    case Some(h) =>
      var v := Get(d, pos, []) + [h];
      match Find(d, pos)
      case None => assert Put(d, pos, v) == d + [Entry(pos, v)];
      case Some(j) => assert Put(d, pos, v) == d[j := Entry(pos, v)];
  }

  /** A motif read from the chromosome itself, at a non-negative start, records only its C and G positions. */
  lemma {:induction false} AddMotifOnCytosines(d: PosRecords, chromSeq: string, start: int, motif: string, forward: bool, id: nat)
    requires 0 <= start && OnCytosines(d, chromSeq)
    requires start + |motif| <= |chromSeq| && chromSeq[start..start + |motif|] == motif
    ensures OnCytosines(AddMotif(d, start, motif, forward, id), chromSeq)
    decreases |motif|
  {
    if motif != [] {
      var n := |motif|;
      var init := motif[..n - 1];
      assert chromSeq[start..start + |init|] == init;
      AddMotifOnCytosines(d, chromSeq, start, init, forward, id);
      assert chromSeq[start + n - 1] == motif[n - 1];
      AddBaseOnCytosines(AddMotif(d, start, init, forward, id), chromSeq, start + n, motif[n - 1], forward, id);
    }
  }

  /** The motif of a BED line with a non-negative start is read from the chromosome, so it too records only cytosines. */
  lemma AddSliceOnCytosines(d: PosRecords, chromSeq: string, start: int, end: int, forward: bool, id: nat)
    requires 0 <= start && OnCytosines(d, chromSeq)
    ensures OnCytosines(AddMotif(d, start, PySlice(chromSeq, start, end), forward, id), chromSeq)
  {
    var motif := PySlice(chromSeq, start, end);
    if motif != [] {
      var a, b := SliceBound(start, |chromSeq|), SliceBound(end, |chromSeq|);
      assert a <= b && a == start && motif == chromSeq[start..b];
      assert chromSeq[start..start + |motif|] == motif;
      AddMotifOnCytosines(d, chromSeq, start, motif, forward, id);
    }
  }
}
