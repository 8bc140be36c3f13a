/** Worked examples of the engine on small tables. */
module Scenarios {
  import opened Wrappers
  import opened Text
  import opened Database
  import opened Samples
  import opened Abundance

  function Row(coverage: real, taxonomy: string): SampleRow {
    SampleRow("S1_1", Some(coverage), Some(taxonomy))
  }

  function Group(keyword: string, subgroup: Option<string>, exceptions: seq<string>): Entry {
    Entry(DbRow(Some("g__" + keyword), subgroup, None, map[]), exceptions, keyword)
  }

  /** A mismatch at offset `k` rules out an occurrence at `i`. */
  lemma MismatchAt(s: string, sub: string, i: nat, k: nat)
    requires i + |sub| <= |s| && k < |sub| && s[i + k] != sub[k]
    ensures !OccursAt(s, sub, i)
  {
    assert s[i..i + |sub|][k] == s[i + k];
  }

  const Rows: seq<SampleRow> := [Row(30.0, "g__Methanogen"), Row(20.0, "g__Methanotroph"), Row(50.0, "g__Other")]

  /** "Methanogen" does not start at 3 in "g__Methanotroph": the
      eighth character differs. */
  lemma MethanogenNotAtThree()
    ensures !OccursAt("g__Methanotroph", "Methanogen", 3)
  {
    MismatchAt("g__Methanotroph", "Methanogen", 3, 7);
  }

  /** "Methanogen" is not a substring of "g__Methanotroph". */
  lemma MethanogenNotInMethanotroph()
    ensures !Contains("g__Methanotroph", "Methanogen")
  {
    MethanogenNotAtThree();
    forall i | 0 <= i <= 5 && i != 3
      ensures !OccursAt("g__Methanotroph", "Methanogen", i)
    {
      assert "g__Methanotroph"[i] != 'M';
      MismatchAt("g__Methanotroph", "Methanogen", i, 0);
    }
  }

  /** "Methanotroph" is not a substring of "g__Methanogen". */
  lemma MethanotrophNotInMethanogen()
    ensures !Contains("g__Methanogen", "Methanotroph")
  {
    MismatchAt("g__Methanogen", "Methanotroph", 0, 0);
    MismatchAt("g__Methanogen", "Methanotroph", 1, 0);
  }

  lemma MatchedMethanogen()
    ensures Matched(Rows, "Methanogen") == 30.0
  {
    assert OccursAt("g__Methanogen", "Methanogen", 3);
    MethanogenNotInMethanotroph();
    assert Rows[1..][1..] == [Rows[2]];
    assert Rows[1..][1..][1..] == [];
  }

  lemma MatchedMethanotroph()
    ensures Matched(Rows, "Methanotroph") == 20.0
  {
    assert OccursAt("g__Methanotroph", "Methanotroph", 3);
    MethanotrophNotInMethanogen();
    assert Rows[1..][1..] == [Rows[2]];
    assert Rows[1..][1..][1..] == [];
  }

  /** Two keywords, no exceptions, total 100: the abundances are the
      matched coverages, 30 and 20; the unmatched 50 goes nowhere. */
  lemma TwoGroupsNoExceptions()
    ensures Total(Rows) == 100.0
    ensures Abundances([Group("Methanogen", None, []), Group("Methanotroph", None, [])], map[], Rows, Total(Rows)) == [30.0, 20.0]
  {
    assert Rows[1..][1..] == [Rows[2]];
    assert Rows[1..][1..][1..] == [];
    MatchedMethanogen();
    MatchedMethanotroph();
  }

  const SubtypeRows: seq<SampleRow> := [Row(20.0, "x;Methanogen_subtype"), Row(30.0, "x;Methanogen"), Row(50.0, "x;Other")]

  /** A lists subgroup "sub" as an exception; B is that subgroup. */
  const SubtypeEntries: seq<Entry> := [Group("Methanogen", None, ["sub"]), Group("Methanogen_subtype", Some("sub"), [])]

  lemma SubtypeMatches()
    ensures Matched(SubtypeRows, "Methanogen") == 50.0
    ensures Matched(SubtypeRows, "Methanogen_subtype") == 20.0
  {
    assert OccursAt("x;Methanogen_subtype", "Methanogen", 2);
    assert OccursAt("x;Methanogen_subtype", "Methanogen_subtype", 2);
    assert OccursAt("x;Methanogen", "Methanogen", 2);
    assert SubtypeRows[1..][1..] == [SubtypeRows[2]];
    assert SubtypeRows[1..][1..][1..] == [];
  }

  /** The subtype's coverage is counted in B and taken out of A, whose
      keyword also matches it: A keeps 50 - 20 = 30, B gets 20. */
  lemma ExceptionSubtracted()
    ensures IndexOf(SubtypeEntries) == map["sub" := "Methanogen_subtype"]
    ensures Total(SubtypeRows) == 100.0
    ensures Abundances(SubtypeEntries, IndexOf(SubtypeEntries), SubtypeRows, Total(SubtypeRows)) == [30.0, 20.0]
  {
    assert SubtypeEntries[..1][..0] == [];
    assert SubtypeRows[1..][1..] == [SubtypeRows[2]];
    assert SubtypeRows[1..][1..][1..] == [];
    SubtypeMatches();
    var index := map["sub" := "Methanogen_subtype"];
    assert ExceptionCoverage(["sub"], index, SubtypeRows) == 20.0 by {
      assert ["sub"][..0] == [];
    }
  }

  const OverlapRows: seq<SampleRow> := [Row(50.0, "x;Methanogen"), Row(50.0, "x;Other")]

  /** A names two subgroups that both resolve to its own keyword, so its
      exception coverage (100) exceeds its matched coverage (50). */
  const OverlapEntries: seq<Entry> :=
    [Group("Methanogen", None, ["s1", "s2"]), Group("Methanogen", Some("s1"), []), Group("Methanogen", Some("s2"), [])]

  /** Over-subtraction is floored at zero rather than going negative. */
  lemma OverSubtractionFloored()
    ensures Abundances(OverlapEntries, IndexOf(OverlapEntries), OverlapRows, Total(OverlapRows))[0] == 0.0
  {
    var entries := OverlapEntries;
    assert entries[..1][..0] == [];
    assert IndexOf(entries[..1]) == map[];
    assert entries[..2][..1] == entries[..1];
    assert IndexOf(entries[..2]) == map["s1" := "Methanogen"];
    assert entries[..|entries| - 1] == entries[..2];
    var index := map["s1" := "Methanogen", "s2" := "Methanogen"];
    assert IndexOf(entries) == index;
    assert OverlapRows[1..][1..] == [];
    assert OccursAt("x;Methanogen", "Methanogen", 2);
    assert Matched(OverlapRows, "Methanogen") == 50.0;
    assert Total(OverlapRows) == 100.0;
    assert ExceptionCoverage(["s1", "s2"], index, OverlapRows) == 100.0 by {
      assert ["s1", "s2"][..1] == ["s1"];
      assert ["s1"][..0] == [];
    }
  }
}
