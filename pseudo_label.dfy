/**
 * Pseudo-cell names: `_calculate_pseudo_group` tags every label with its
 * cluster as `f'{cluster}::{label}'`, and `generate_pseudo_cells` recovers
 * the cluster from a pseudo-cell name
 * (ALLCools/pseudo_cell/pseudo_cell_kmeans.py).
 */
module PseudoLabel {
  import opened Wrappers
  import opened Text

  const Sep: string := "::"

  /** The name `"<cluster>::<suffix>"` given to a cell of `cluster`. */
  function Tag(cluster: string, suffix: string): (name: string)
    ensures |name| == |cluster| + 2 + |suffix|
    ensures name[..|cluster|] == cluster && name[|cluster| + 2..] == suffix
  {
    cluster + Sep + suffix
  }

  /**
   * The cluster column as the source computes it:
   * `name.split('::')[:-1]` joined again with `'::'`.
   */
  function RecoverClusterAsWritten(name: string): string
  {
    var parts := SplitOn(name, Sep);
    Join(parts[..|parts| - 1], Sep)
  }

  /** With no `':'` in the cluster or the suffix, the as-written recovery is right. */
  lemma RecoverAsWrittenPlain(cluster: string, suffix: string)
    requires ':' !in cluster && ':' !in suffix
    ensures RecoverClusterAsWritten(Tag(cluster, suffix)) == cluster
  {
    SplitAfterPlain(cluster, Sep, suffix);
    SplitPlain(suffix, Sep);
    var parts := SplitOn(Tag(cluster, suffix), Sep);
    assert parts == [cluster, suffix];
    assert parts[..1] == [cluster];
  }

  /**
   * A cluster named `"x:"` whose cell got the suffix `"|0"` is named `"x:::|0"`;
   * splitting on the first `"::"` cuts the cluster short and `"x"` comes back.
   * The suffix never holds `':'`, so only a cluster ending in an odd run of
   * `':'` loses its last one (`RecoverAsWrittenColonRuns`).
   */
  lemma RecoverAsWrittenLosesColon()
    ensures RecoverClusterAsWritten(Tag("x:", "|0")) == "x"
  {
    var name := Tag("x:", "|0");
    assert name == "x" + Sep + (":" + "|0");
    SplitAfterPlain("x", Sep, ":" + "|0");
    ColonThenPlain("|0");
    var parts := SplitOn(name, Sep);
    assert parts == ["x"] + [":" + "|0"];
    assert parts[..1] == ["x"];
  }

  /**
   * A cluster ending in an even run of `':'` comes back whole, and one ending
   * in an odd run loses only its last `':'`: `c + "::"` is named
   * `c + "::::" + suffix`, which splits into `[c, "", suffix]`, and
   * `c + ":::"` is named `c + ":::::" + suffix`, which splits into
   * `[c, "", ":" + suffix]`; both join back to `c + "::"`.
   */
  lemma RecoverAsWrittenColonRuns(c: string, suffix: string)
    requires ':' !in c && ':' !in suffix
    ensures RecoverClusterAsWritten(Tag(c + Sep, suffix)) == c + Sep
    ensures RecoverClusterAsWritten(Tag(c + Sep + ":", suffix)) == c + Sep
  {
    SplitPlain(suffix, Sep);
    ColonThenPlain(suffix);
    TagEven(c, suffix);
    SplitAfterPlain(c, Sep, Sep + suffix);
    SplitAfterColonPair(suffix);
    assert SplitOn(Tag(c + Sep, suffix), Sep) == [c] + ([""] + [suffix]);
    TagOdd(c, suffix);
    SplitAfterPlain(c, Sep, Sep + (":" + suffix));
    SplitAfterColonPair(":" + suffix);
    assert SplitOn(Tag(c + Sep + ":", suffix), Sep) == [c] + ([""] + [":" + suffix]);
    JoinEmptyLast(c);
  }

  /** The name of cluster `c + "::"` regrouped after its first `"::"`. */
  lemma TagEven(c: string, suffix: string)
    ensures Tag(c + Sep, suffix) == c + Sep + (Sep + suffix)
  {
  }

  /** The name of cluster `c + ":::"` regrouped after its first and second `"::"`. */
  lemma TagOdd(c: string, suffix: string)
    ensures Tag(c + Sep + ":", suffix) == c + Sep + (Sep + (":" + suffix))
  {
    assert Sep + ":" + Sep == Sep + (Sep + ":") by {
      assert Sep + ":" + Sep == "::" + ":" + "::";
    }
  }

  /** Dropping the last of `[c, "", x]` and joining gives `c + "::"`. */
  lemma JoinEmptyLast(c: string)
    ensures forall x: string :: Join(([c] + ([""] + [x]))[..2], Sep) == c + Sep
  {
    forall x: string ensures Join(([c] + ([""] + [x]))[..2], Sep) == c + Sep {
      assert ([c] + ([""] + [x]))[..2] == [c, ""];
      assert Join([""], Sep) == "";
    }
  }

  /** A single `':'` before a colon-free suffix is not split. */
  lemma ColonThenPlain(suffix: string)
    requires ':' !in suffix
    ensures SplitOn(":" + suffix, Sep) == [":" + suffix]
  {
    var rest := ":" + suffix;
    assert IndexOf(rest, Sep) == None by {
      forall i: nat ensures !OccursAt(rest, Sep, i) {
        if i + 2 <= |rest| {
          assert rest[i + 1] == suffix[i];
        }
      }
    }
  }

  /** A leading `"::"` splits off an empty piece. */
  lemma SplitAfterColonPair(rest: string)
    ensures SplitOn(Sep + rest, Sep) == [""] + SplitOn(rest, Sep)
  {
    var s := Sep + rest;
    assert OccursAt(s, Sep, 0) by {
      assert s[0..2] == Sep;
    }
    assert IndexOf(s, Sep) == Some(0);
    assert s[..0] == "";
    assert s[2..] == rest;
  }

  /** The cluster of a pseudo-cell name: the text before the last `"::"` (empty if none). */
  function RecoverCluster(name: string): string
  {
    match LastIndexOf(name, Sep)
    case None => ""
    case Some(i) => name[..i]
  }

  /** Recovery inverts tagging for every cluster name, provided the suffix holds no `':'`. */
  lemma RecoverTag(cluster: string, suffix: string)
    requires ':' !in suffix
    ensures RecoverCluster(Tag(cluster, suffix)) == cluster
  {
    var name := Tag(cluster, suffix);
    assert name[|cluster|..|cluster| + 2] == Sep;
    assert OccursAt(name, Sep, |cluster|);
    forall i: nat | |cluster| < i ensures !OccursAt(name, Sep, i) {
      if i + 2 <= |name| {
        assert name[i + 1] == suffix[i - 1 - |cluster|];
      }
    }
    var r := LastIndexOf(name, Sep);
    assert r.value == |cluster|;
  }

  /** Two tagged names are equal only if both clusters and both labels are. */
  lemma TagInjective(c1: string, s1: string, c2: string, s2: string)
    requires ':' !in s1 && ':' !in s2
    requires Tag(c1, s1) == Tag(c2, s2)
    ensures c1 == c2 && s1 == s2
  {
    RecoverTag(c1, s1);
    RecoverTag(c2, s2);
  }
}
