/** The scoring constants of the configuration: the headline maximum score and
    the table of how many rules each named run of ids holds. */
module Config {
  import opened Wrappers
  import opened Text
  import opened Catalog
  import Evaluator

  /** `MAX_SCORE`. */
  const MaxScore: int := 320

  /** One entry of `RULES_COUNT`: a name such as "R12-R17" or "R26", and the
      number of rules it names. */
  datatype RangeCount = RangeCount(name: string, count: int)

  /** `RULES_COUNT`, in the order it is written. */
  const RulesCount: seq<RangeCount> := [
    RangeCount("P1-P7", 7), RangeCount("C1-C9", 9), RangeCount("C10-C15", 6),
    RangeCount("R1-R9", 9), RangeCount("R10-R11", 2), RangeCount("R12-R17", 6),
    RangeCount("R18-R23", 6), RangeCount("R24-R25", 2), RangeCount("R26", 1),
    RangeCount("R27-R28", 2), RangeCount("R29-R30", 2), RangeCount("R31", 1),
    RangeCount("R32", 1), RangeCount("R33", 1), RangeCount("R34-R35", 2),
    RangeCount("R37-R40", 4), RangeCount("R41-R42", 2)
  ]

  /** The label of a range: its first id, then "-" and its last id when they
      differ. */
  function Label(r: Range): string {
    if r.lo == r.hi then Id(r.letter, r.lo) else Id(r.letter, r.lo) + "-" + Id(r.letter, r.hi)
  }

  /** Reads a single id: a letter that is neither a digit nor "-", then a
      decimal number. */
  function ParseId(s: string): Option<(char, nat)> {
    if |s| >= 2 && !IsDigit(s[0]) && s[0] != '-' then
      match ParseNat(s[1..])
      case Some(n) => Some((s[0], n))
      case None => None
    else None
  }

  /** Reads a label back as the range it names; `None` for text that is not
      one id or two ids of the same letter joined by "-". */
  function ParseLabel(s: string): Option<Range> {
    var k := IndexOf(s, '-');
    if k < 0 then
      match ParseId(s)
      case Some((c, n)) => Some(Range(c, n, n))
      case None => None
    else
      match (ParseId(s[..k]), ParseId(s[k + 1..]))
      case (Some((c, lo)), Some((d, hi))) => if c == d then Some(Range(c, lo, hi)) else None
      case _ => None
  }

  /** An id reads back as its letter and number. */
  lemma ParseIdOfId(letter: char, n: nat)
    requires !IsDigit(letter) && letter != '-'
    ensures ParseId(Id(letter, n)) == Some((letter, n))
    ensures '-' !in Id(letter, n)
  {
    assert Id(letter, n)[1..] == NatToString(n);
    NatToStringRoundTrip(n);
  }

  /** Labels read back as the ranges they were made from. */
  lemma LabelRoundTrip(r: Range)
    requires !IsDigit(r.letter) && r.letter != '-'
    ensures ParseLabel(Label(r)) == Some(r)
  {
    ParseIdOfId(r.letter, r.lo);
    ParseIdOfId(r.letter, r.hi);
    if r.lo != r.hi {
      var a, b := Id(r.letter, r.lo), Id(r.letter, r.hi);
      var s := a + "-" + b;
      assert s[..|a|] == a && s[|a|] == '-' && s[|a| + 1..] == b;
      assert IndexOf(s, '-') == |a|;
    }
  }

  /** Entry `c` of `RULES_COUNT` is the label of the catalog's range `c`,
      one lemma per entry: each is a small computation on literals, and the
      solver handles them far better one at a time than together. */
  lemma LabelOfEntry0()
    ensures RulesCount[0].name == Label(CatalogRanges[0])
  {
    assert CatalogRanges[0] == Range('P', 1, 7) && NatToString(1) == "1" && NatToString(7) == "7";
    assert Label(CatalogRanges[0]) == "P1-P7" == RulesCount[0].name;
  }

  lemma LabelOfEntry1()
    ensures RulesCount[1].name == Label(CatalogRanges[1])
  {
    assert CatalogRanges[1] == Range('C', 1, 9) && NatToString(1) == "1" && NatToString(9) == "9";
    assert Label(CatalogRanges[1]) == "C1-C9" == RulesCount[1].name;
  }

  lemma LabelOfEntry2()
    ensures RulesCount[2].name == Label(CatalogRanges[2])
  {
    assert CatalogRanges[2] == Range('C', 10, 15) && NatToString(10) == "10" && NatToString(15) == "15";
    assert Label(CatalogRanges[2]) == "C10-C15" == RulesCount[2].name;
  }

  lemma LabelOfEntry3()
    ensures RulesCount[3].name == Label(CatalogRanges[3])
  {
    assert CatalogRanges[3] == Range('R', 1, 9) && NatToString(1) == "1" && NatToString(9) == "9";
    assert Label(CatalogRanges[3]) == "R1-R9" == RulesCount[3].name;
  }

  lemma LabelOfEntry4()
    ensures RulesCount[4].name == Label(CatalogRanges[4])
  {
    assert CatalogRanges[4] == Range('R', 10, 11) && NatToString(10) == "10" && NatToString(11) == "11";
    assert Label(CatalogRanges[4]) == "R10-R11" == RulesCount[4].name;
  }

  lemma LabelOfEntry5()
    ensures RulesCount[5].name == Label(CatalogRanges[5])
  {
    assert CatalogRanges[5] == Range('R', 12, 17) && NatToString(12) == "12" && NatToString(17) == "17";
    assert Label(CatalogRanges[5]) == "R12-R17" == RulesCount[5].name;
  }

  lemma LabelOfEntry6()
    ensures RulesCount[6].name == Label(CatalogRanges[6])
  {
    assert CatalogRanges[6] == Range('R', 18, 23) && NatToString(18) == "18" && NatToString(23) == "23";
    assert Label(CatalogRanges[6]) == "R18-R23" == RulesCount[6].name;
  }

  lemma LabelOfEntry7()
    ensures RulesCount[7].name == Label(CatalogRanges[7])
  {
    assert CatalogRanges[7] == Range('R', 24, 25) && NatToString(24) == "24" && NatToString(25) == "25";
    assert Label(CatalogRanges[7]) == "R24-R25" == RulesCount[7].name;
  }

  lemma LabelOfEntry8()
    ensures RulesCount[8].name == Label(CatalogRanges[8])
  {
    assert CatalogRanges[8] == Range('R', 26, 26) && NatToString(26) == "26";
    assert Label(CatalogRanges[8]) == "R26" == RulesCount[8].name;
  }

  lemma LabelOfEntry9()
    ensures RulesCount[9].name == Label(CatalogRanges[9])
  {
    assert CatalogRanges[9] == Range('R', 27, 28) && NatToString(27) == "27" && NatToString(28) == "28";
    assert Label(CatalogRanges[9]) == "R27-R28" == RulesCount[9].name;
  }

  lemma LabelOfEntry10()
    ensures RulesCount[10].name == Label(CatalogRanges[10])
  {
    assert CatalogRanges[10] == Range('R', 29, 30) && NatToString(29) == "29" && NatToString(30) == "30";
    assert Label(CatalogRanges[10]) == "R29-R30" == RulesCount[10].name;
  }

  lemma LabelOfEntry11()
    ensures RulesCount[11].name == Label(CatalogRanges[11])
  {
    assert CatalogRanges[11] == Range('R', 31, 31) && NatToString(31) == "31";
    assert Label(CatalogRanges[11]) == "R31" == RulesCount[11].name;
  }

  lemma LabelOfEntry12()
    ensures RulesCount[12].name == Label(CatalogRanges[12])
  {
    assert CatalogRanges[12] == Range('R', 32, 32) && NatToString(32) == "32";
    assert Label(CatalogRanges[12]) == "R32" == RulesCount[12].name;
  }

  lemma LabelOfEntry13()
    ensures RulesCount[13].name == Label(CatalogRanges[13])
  {
    assert CatalogRanges[13] == Range('R', 33, 33) && NatToString(33) == "33";
    assert Label(CatalogRanges[13]) == "R33" == RulesCount[13].name;
  }

  lemma LabelOfEntry14()
    ensures RulesCount[14].name == Label(CatalogRanges[14])
  {
    assert CatalogRanges[14] == Range('R', 34, 35) && NatToString(34) == "34" && NatToString(35) == "35";
    assert Label(CatalogRanges[14]) == "R34-R35" == RulesCount[14].name;
  }

  lemma LabelOfEntry15()
    ensures RulesCount[15].name == Label(CatalogRanges[15])
  {
    assert CatalogRanges[15] == Range('R', 37, 40) && NatToString(37) == "37" && NatToString(40) == "40";
    assert Label(CatalogRanges[15]) == "R37-R40" == RulesCount[15].name;
  }

  lemma LabelOfEntry16()
    ensures RulesCount[16].name == Label(CatalogRanges[16])
  {
    assert CatalogRanges[16] == Range('R', 41, 42) && NatToString(41) == "41" && NatToString(42) == "42";
    assert Label(CatalogRanges[16]) == "R41-R42" == RulesCount[16].name;
  }

  /** Every entry of `RULES_COUNT` is the label of the range in the same place. */
  lemma LabelAt(c: nat)
    requires c < |RulesCount|
    ensures RulesCount[c].name == Label(CatalogRanges[c])
  {
    if c == 0 {
      LabelOfEntry0();
    } else if c == 1 {
      LabelOfEntry1();
    } else if c == 2 {
      LabelOfEntry2();
    } else if c == 3 {
      LabelOfEntry3();
    } else if c == 4 {
      LabelOfEntry4();
    } else if c == 5 {
      LabelOfEntry5();
    } else if c == 6 {
      LabelOfEntry6();
    } else if c == 7 {
      LabelOfEntry7();
    } else if c == 8 {
      LabelOfEntry8();
    } else if c == 9 {
      LabelOfEntry9();
    } else if c == 10 {
      LabelOfEntry10();
    } else if c == 11 {
      LabelOfEntry11();
    } else if c == 12 {
      LabelOfEntry12();
    } else if c == 13 {
      LabelOfEntry13();
    } else if c == 14 {
      LabelOfEntry14();
    } else if c == 15 {
      LabelOfEntry15();
    } else {
      LabelOfEntry16();
    }
  }

  /** Every label of `RULES_COUNT` names the catalog range in the same place. */
  lemma LabelsNameCatalogRanges()
    ensures |RulesCount| == |CatalogRanges|
    ensures forall c :: 0 <= c < |RulesCount| ==> ParseLabel(RulesCount[c].name) == Some(CatalogRanges[c])
  {
    forall c | 0 <= c < |RulesCount|
      ensures ParseLabel(RulesCount[c].name) == Some(CatalogRanges[c])
    {
      var r := CatalogRanges[c];
      LabelAt(c);
      assert r.letter in "PCR";
      LabelRoundTrip(r);
    }
  }

  /** Each count is the number of ids in its range; in particular "R37-R40"
      names four rules. */
  lemma CountsMatchRanges()
    ensures forall c :: 0 <= c < |RulesCount| ==> RulesCount[c].count == |RangeIds(CatalogRanges[c])|
    ensures RulesCount[15] == RangeCount("R37-R40", 4)
  {
    forall c | 0 <= c < |RulesCount|
      ensures RulesCount[c].count == |RangeIds(CatalogRanges[c])|
    {
      var r := CatalogRanges[c];
      RuleIdsFacts(r.letter, r.lo, r.hi);
    }
  }

  /** The ranges of `RULES_COUNT`, read in order, list exactly the evaluator's
      catalog, with no id twice. */
  lemma RangesTileCatalog()
    ensures Expand(CatalogRanges) == AllRules
    ensures Ascending(CatalogRanges)
    ensures Distinct(AllRules)
  {
    CatalogShape();
    CatalogRangesSeparated();
    CatalogDistinct();
  }

  /** The sum of the counts of some entries. */
  function SumCounts(rc: seq<RangeCount>): int {
    if |rc| == 0 then 0 else SumCounts(rc[..|rc| - 1]) + rc[|rc| - 1].count
  }

  /** The length of an expansion is the sum of its ranges' sizes. */
  lemma {:induction false} ExpandLength(rs: seq<Range>, rc: seq<RangeCount>)
    requires |rs| == |rc|
    requires forall c :: 0 <= c < |rc| ==> rc[c].count == |RangeIds(rs[c])|
    ensures |Expand(rs)| == SumCounts(rc)
  {
    if |rs| > 0 {
      var n := |rs| - 1;
      ExpandLength(rs[..n], rc[..n]);
    }
  }

  /** The counts add up to the 63 ids of the catalog. */
  lemma CountsSumToCatalog()
    ensures SumCounts(RulesCount) == |AllRules| == 63
  {
    CountsMatchRanges();
    RangesTileCatalog();
    CatalogDistinct();
    ExpandLength(CatalogRanges, RulesCount);
  }

  /** `MAX_SCORE` equals the evaluator's fallback maximum and the sum of the
      category maxima, but not five points for each catalog rule. */
  lemma MaxScoreAgreement()
    ensures MaxScore == Evaluator.FallbackMax == SumMax(Categories)
    ensures Evaluator.PointsPerRule * |AllRules| == 315 != MaxScore
  {
    CategoryMaxima();
    CatalogDistinct();
  }
}
