/** The fixed rule catalog of the evaluator: the ordered list of rule ids it
    scores and the five weighted categories that group them. */
module Catalog {
  import opened Wrappers
  import opened Text

  /** A rule id such as "P1", "C12" or "R40": a category letter and a number. */
  type RuleId = string

  // ---------------------------------------------------------------------------
  // The catalog, written group by group as the evaluator's list is laid out

  /** Pattern rules: P1-P7. */
  const PatternIds: seq<RuleId> := ["P1", "P2", "P3", "P4", "P5", "P6", "P7"]

  /** Characteristics of an individual requirement: C1-C9. */
  const IndividualIds: seq<RuleId> := ["C1", "C2", "C3", "C4", "C5", "C6", "C7", "C8", "C9"]

  /** Characteristics of a set of requirements: C10-C15. */
  const SetIds: seq<RuleId> := ["C10", "C11", "C12", "C13", "C14", "C15"]

  /** Writing rules: accuracy: R1-R9. */
  const CorrectnessIds: seq<RuleId> := ["R1", "R2", "R3", "R4", "R5", "R6", "R7", "R8", "R9"]

  /** Concision: R10-R11. */
  const ConcisenessIds: seq<RuleId> := ["R10", "R11"]

  /** Non-ambiguity: R12-R17. */
  const UnambiguityIds: seq<RuleId> := ["R12", "R13", "R14", "R15", "R16", "R17"]

  /** Singularity: R18-R23. */
  const SingularityIds: seq<RuleId> := ["R18", "R19", "R20", "R21", "R22", "R23"]

  /** Completeness: R24-R25. */
  const CompletenessIds: seq<RuleId> := ["R24", "R25"]

  /** Realism: R26. */
  const RealismIds: seq<RuleId> := ["R26"]

  /** Conditions: R27-R28. */
  const ConditionIds: seq<RuleId> := ["R27", "R28"]

  /** Uniqueness: R29-R30. */
  const UniquenessIds: seq<RuleId> := ["R29", "R30"]

  /** Abstraction: R31. */
  const AbstractionIds: seq<RuleId> := ["R31"]

  /** Quantifiers: R32. */
  const QuantifierIds: seq<RuleId> := ["R32"]

  /** Tolerance: R33. */
  const ToleranceIds: seq<RuleId> := ["R33"]

  /** Quantification: R34-R35. */
  const QuantificationIds: seq<RuleId> := ["R34", "R35"]

  /** Uniformity of language: R37-R40. */
  const UniformityIds: seq<RuleId> := ["R37", "R38", "R39", "R40"]

  /** Modularity: R41-R42. */
  const ModularityIds: seq<RuleId> := ["R41", "R42"]

  /** The ordered catalog the evaluator iterates: 63 ids; there is no R36. */
  const AllRules: seq<RuleId> :=
    PatternIds + IndividualIds + SetIds
    + CorrectnessIds + ConcisenessIds + UnambiguityIds
    + SingularityIds + CompletenessIds + RealismIds
    + ConditionIds + UniquenessIds + AbstractionIds
    + QuantifierIds + ToleranceIds + QuantificationIds
    + UniformityIds + ModularityIds
  // ---------------------------------------------------------------------------
  // Rule ids as a letter and a number

  /** The numeric part of a rule id, `int(r[1:])`, when it is a digit string. */
  function Number(id: RuleId): Option<nat> {
    if |id| >= 1 then ParseNat(id[1..]) else None
  }

  /** The rule id made of `letter` followed by the decimal form of `n`. */
  function Id(letter: char, n: nat): RuleId {
    [letter] + NatToString(n)
  }

  /** A named run of ids such as "R12-R17": one letter, numbers `lo` to `hi`. */
  datatype Range = Range(letter: char, lo: nat, hi: nat)

  /** True when `id` is the letter of `r` followed by a number inside `r`. */
  predicate InRange(id: RuleId, r: Range) {
    |id| >= 2 && id[0] == r.letter && Number(id).Some? && r.lo <= Number(id).value <= r.hi
  }

  /** The ids `letter lo`, `letter lo+1`, ..., `letter hi`, in order. */
  function RuleIds(letter: char, lo: nat, hi: nat): seq<RuleId>
    decreases hi + 1 - lo
  {
    if lo > hi then [] else [Id(letter, lo)] + RuleIds(letter, lo + 1, hi)
  }

  /** The ids of a range, in increasing order of number. */
  function RangeIds(r: Range): seq<RuleId> {
    RuleIds(r.letter, r.lo, r.hi)
  }

  /** The ids of the ranges of `rs`, concatenated in order. */
  function Expand(rs: seq<Range>): seq<RuleId> {
    if |rs| == 0 then [] else Expand(rs[..|rs| - 1]) + RangeIds(rs[|rs| - 1])
  }

  /** No id occurs twice in `s`. */
  predicate Distinct(s: seq<RuleId>) {
    forall i, j :: 0 <= i < j < |s| ==> s[i] != s[j]
  }

  /** Ranges listed so that two of them never share an id: either their letters
      differ or the earlier one ends before the later one starts. */
  ghost predicate Separated(rs: seq<Range>) {
    forall i, j :: 0 <= i < j < |rs| ==> rs[i].letter != rs[j].letter || rs[i].hi < rs[j].lo
  }

  /** The order of the catalog's letters: P, then C, then R. */
  function LetterRank(c: char): nat {
    if c == 'P' then 0 else if c == 'C' then 1 else if c == 'R' then 2 else 3
  }

  /** `a` is non-empty and lies wholly before `b` in catalog order. */
  predicate Before(a: Range, b: Range) {
    a.lo <= a.hi &&
    (LetterRank(a.letter) < LetterRank(b.letter) || (a.letter == b.letter && a.hi < b.lo))
  }

  /** Each range lies wholly before the next one. */
  predicate Ascending(rs: seq<Range>) {
    forall i :: 0 <= i < |rs| - 1 ==> Before(rs[i], rs[i + 1])
  }

  /** The seventeen runs the catalog is written in, one per group above. */
  const CatalogRanges: seq<Range> := [
    Range('P', 1, 7), Range('C', 1, 9), Range('C', 10, 15),
    Range('R', 1, 9), Range('R', 10, 11), Range('R', 12, 17), Range('R', 18, 23),
    Range('R', 24, 25), Range('R', 26, 26), Range('R', 27, 28), Range('R', 29, 30),
    Range('R', 31, 31), Range('R', 32, 32), Range('R', 33, 33), Range('R', 34, 35),
    Range('R', 37, 40), Range('R', 41, 42)
  ]

  // ---------------------------------------------------------------------------
  // Facts about ranges

  /** An id built from a letter and a number reads back as that letter and number. */
  lemma IdParts(letter: char, n: nat)
    ensures |Id(letter, n)| >= 2 && Id(letter, n)[0] == letter && Number(Id(letter, n)) == Some(n)
  {
    assert Id(letter, n)[1..] == NatToString(n);
    NatToStringRoundTrip(n);
  }

  /** The ids `letter lo` to `letter hi` are ids of that letter numbered from
      `lo` to `hi`, one per number, and none repeats. */
  lemma {:induction false} RuleIdsFacts(letter: char, lo: nat, hi: nat)
    ensures |RuleIds(letter, lo, hi)| == if lo > hi then 0 else hi + 1 - lo
    ensures forall x :: x in RuleIds(letter, lo, hi) ==> InRange(x, Range(letter, lo, hi))
    ensures Distinct(RuleIds(letter, lo, hi))
    decreases hi + 1 - lo
  {
    if lo <= hi {
      IdParts(letter, lo);
      RuleIdsFacts(letter, lo + 1, hi);
      DistinctCons(Id(letter, lo), RuleIds(letter, lo + 1, hi));
    }
  }

  /** Every id of an expansion lies in one of the expanded ranges. */
  lemma {:induction false} ExpandMembers(rs: seq<Range>)
    ensures forall x :: x in Expand(rs) ==> exists k :: 0 <= k < |rs| && InRange(x, rs[k])
  {
    if |rs| > 0 {
      var r, init := rs[|rs| - 1], rs[..|rs| - 1];
      RuleIdsFacts(r.letter, r.lo, r.hi);
      ExpandMembers(init);
      forall x | x in Expand(rs) ensures exists k :: 0 <= k < |rs| && InRange(x, rs[k]) {
        if x in Expand(init) {
          var k :| 0 <= k < |init| && InRange(x, init[k]);
          assert rs[k] == init[k];
        } else {
          assert InRange(x, rs[|rs| - 1]);
        }
      }
    }
  }

  /** Separated ranges expand to a duplicate-free sequence. */
  lemma {:induction false} ExpandDistinct(rs: seq<Range>)
    requires Separated(rs)
    ensures Distinct(Expand(rs))
  {
    if |rs| > 0 {
      var r, init := rs[|rs| - 1], rs[..|rs| - 1];
      RuleIdsFacts(r.letter, r.lo, r.hi);
      assert Separated(init) by {
        forall i, j | 0 <= i < j < |init|
          ensures init[i].letter != init[j].letter || init[i].hi < init[j].lo
        {
          assert init[i] == rs[i] && init[j] == rs[j];
        }
      }
      ExpandDistinct(init);
      ExpandMembers(init);
      forall x | x in Expand(init) ensures x !in RangeIds(r) {
        var k :| 0 <= k < |init| && InRange(x, init[k]);
        assert init[k] == rs[k];
      }
      DistinctAppend(Expand(init), RangeIds(r));
    }
  }

  /** Ascending ranges are separated. */
  lemma {:induction false} AscendingSeparated(rs: seq<Range>)
    requires Ascending(rs)
    ensures Separated(rs)
  {
    forall i, j | 0 <= i < j < |rs| ensures rs[i].letter != rs[j].letter || rs[i].hi < rs[j].lo {
      BeforeChain(rs, i, j);
    }
  }

  /** In ascending ranges, every range lies before every later one. */
  lemma {:induction false} BeforeChain(rs: seq<Range>, i: nat, j: nat)
    requires Ascending(rs) && i < j < |rs|
    ensures Before(rs[i], rs[j])
    decreases j - i
  {
    if i + 1 < j {
      BeforeChain(rs, i + 1, j);
      assert Before(rs[i], rs[i + 1]);
    }
  }

  /** Putting an id that is not in `t` before `t` keeps it duplicate-free. */
  lemma DistinctCons(x: RuleId, t: seq<RuleId>)
    requires Distinct(t) && x !in t
    ensures Distinct([x] + t)
  {
    var s := [x] + t;
    forall i, j | 0 <= i < j < |s| ensures s[i] != s[j] {
      assert s[j] == t[j - 1];
      if i > 0 {
        assert s[i] == t[i - 1];
      }
    }
  }

  /** Concatenating two duplicate-free sequences with no common id gives a
      duplicate-free sequence. */
  lemma DistinctAppend(a: seq<RuleId>, b: seq<RuleId>)
    requires Distinct(a) && Distinct(b)
    requires forall x :: x in a ==> x !in b
    ensures Distinct(a + b)
  {
    var s := a + b;
    forall i, j | 0 <= i < j < |s| ensures s[i] != s[j] {
      if j < |a| {
        assert s[i] == a[i] && s[j] == a[j];
      } else if i >= |a| {
        assert s[i] == b[i - |a|] && s[j] == b[j - |a|];
      } else {
        assert s[i] == a[i] && s[j] == b[j - |a|];
        assert a[i] in a;
      }
    }
  }

  // ---------------------------------------------------------------------------
  // The shape of the catalog

  /** Catalog group 1 is the range its name announces. */
  lemma GroupShapes1()
    ensures PatternIds == RuleIds('P', 1, 7)
  {
    assert Id('P', 1) == "P1";
    assert Id('P', 2) == "P2";
    assert Id('P', 3) == "P3";
    assert Id('P', 4) == "P4";
    assert Id('P', 5) == "P5";
    assert Id('P', 6) == "P6";
    assert Id('P', 7) == "P7";
  }

  /** Catalog groups 2 to 3 are the ranges their names announce. */
  lemma GroupShapes2To3()
    ensures IndividualIds == RuleIds('C', 1, 9)
    ensures SetIds == RuleIds('C', 10, 15)
  {
    assert Id('C', 1) == "C1";
    assert Id('C', 2) == "C2";
    assert Id('C', 3) == "C3";
    assert Id('C', 4) == "C4";
    assert Id('C', 5) == "C5";
    assert Id('C', 6) == "C6";
    assert Id('C', 7) == "C7";
    assert Id('C', 8) == "C8";
    assert Id('C', 9) == "C9";
    assert Id('C', 10) == "C10";
    assert Id('C', 11) == "C11";
    assert Id('C', 12) == "C12";
    assert Id('C', 13) == "C13";
    assert Id('C', 14) == "C14";
    assert Id('C', 15) == "C15";
  }

  /** Catalog groups 4 to 5 are the ranges their names announce. */
  lemma GroupShapes4To5()
    ensures CorrectnessIds == RuleIds('R', 1, 9)
    ensures ConcisenessIds == RuleIds('R', 10, 11)
  {
    assert Id('R', 1) == "R1";
    assert Id('R', 2) == "R2";
    assert Id('R', 3) == "R3";
    assert Id('R', 4) == "R4";
    assert Id('R', 5) == "R5";
    assert Id('R', 6) == "R6";
    assert Id('R', 7) == "R7";
    assert Id('R', 8) == "R8";
    assert Id('R', 9) == "R9";
    assert Id('R', 10) == "R10";
    assert Id('R', 11) == "R11";
  }

  /** Catalog groups 6 to 8 are the ranges their names announce. */
  lemma GroupShapes6To8()
    ensures UnambiguityIds == RuleIds('R', 12, 17)
    ensures SingularityIds == RuleIds('R', 18, 23)
    ensures CompletenessIds == RuleIds('R', 24, 25)
  {
    assert Id('R', 12) == "R12";
    assert Id('R', 13) == "R13";
    assert Id('R', 14) == "R14";
    assert Id('R', 15) == "R15";
    assert Id('R', 16) == "R16";
    assert Id('R', 17) == "R17";
    assert Id('R', 18) == "R18";
    assert Id('R', 19) == "R19";
    assert Id('R', 20) == "R20";
    assert Id('R', 21) == "R21";
    assert Id('R', 22) == "R22";
    assert Id('R', 23) == "R23";
    assert Id('R', 24) == "R24";
    assert Id('R', 25) == "R25";
  }

  /** Catalog groups 9 to 11 are the ranges their names announce. */
  lemma GroupShapes9To11()
    ensures RealismIds == RuleIds('R', 26, 26)
    ensures ConditionIds == RuleIds('R', 27, 28)
    ensures UniquenessIds == RuleIds('R', 29, 30)
  {
    assert Id('R', 26) == "R26";
    assert Id('R', 27) == "R27";
    assert Id('R', 28) == "R28";
    assert Id('R', 29) == "R29";
    assert Id('R', 30) == "R30";
  }

  /** Catalog groups 12 to 14 are the ranges their names announce. */
  lemma GroupShapes12To14()
    ensures AbstractionIds == RuleIds('R', 31, 31)
    ensures QuantifierIds == RuleIds('R', 32, 32)
    ensures ToleranceIds == RuleIds('R', 33, 33)
  {
    assert Id('R', 31) == "R31";
    assert Id('R', 32) == "R32";
    assert Id('R', 33) == "R33";
  }

  /** Catalog groups 15 to 17 are the ranges their names announce. */
  lemma GroupShapes15To17()
    ensures QuantificationIds == RuleIds('R', 34, 35)
    ensures UniformityIds == RuleIds('R', 37, 40)
    ensures ModularityIds == RuleIds('R', 41, 42)
  {
    assert Id('R', 34) == "R34";
    assert Id('R', 35) == "R35";
    assert Id('R', 37) == "R37";
    assert Id('R', 38) == "R38";
    assert Id('R', 39) == "R39";
    assert Id('R', 40) == "R40";
    assert Id('R', 41) == "R41";
    assert Id('R', 42) == "R42";
  }

  /** Catalog runs 1 to 3 expand to their groups. */
  lemma ExpandRuns1To3()
    ensures Expand(CatalogRanges[..3]) == PatternIds + IndividualIds + SetIds
  {
    GroupShapes1();
    GroupShapes2To3();
    var rs := CatalogRanges;
    assert rs[..1][..0] == rs[..0];
    assert Expand(rs[..1]) == Expand(rs[..0]) + PatternIds;
    assert rs[..2][..1] == rs[..1];
    assert Expand(rs[..2]) == Expand(rs[..1]) + IndividualIds;
    assert rs[..3][..2] == rs[..2];
    assert Expand(rs[..3]) == Expand(rs[..2]) + SetIds;
    assert Expand(rs[..0]) + PatternIds == PatternIds;
  }

  /** Catalog runs 4 to 4 expand to their groups. */
  lemma ExpandRuns4To4()
    ensures Expand(CatalogRanges[..4]) == Expand(CatalogRanges[..3]) + CorrectnessIds
  {
    GroupShapes4To5();
    var rs := CatalogRanges;
    assert rs[..4][..3] == rs[..3];
    assert Expand(rs[..4]) == Expand(rs[..3]) + CorrectnessIds;
  }

  /** Catalog runs 5 to 8 expand to their groups. */
  lemma ExpandRuns5To8()
    ensures Expand(CatalogRanges[..8]) == Expand(CatalogRanges[..4]) + ConcisenessIds + UnambiguityIds + SingularityIds + CompletenessIds
  {
    GroupShapes4To5();
    GroupShapes6To8();
    var rs := CatalogRanges;
    assert rs[..5][..4] == rs[..4];
    assert Expand(rs[..5]) == Expand(rs[..4]) + ConcisenessIds;
    assert rs[..6][..5] == rs[..5];
    assert Expand(rs[..6]) == Expand(rs[..5]) + UnambiguityIds;
    assert rs[..7][..6] == rs[..6];
    assert Expand(rs[..7]) == Expand(rs[..6]) + SingularityIds;
    assert rs[..8][..7] == rs[..7];
    assert Expand(rs[..8]) == Expand(rs[..7]) + CompletenessIds;
  }

  /** Catalog runs 9 to 11 expand to their groups. */
  lemma ExpandRuns9To11()
    ensures Expand(CatalogRanges[..11]) == Expand(CatalogRanges[..8]) + RealismIds + ConditionIds + UniquenessIds
  {
    GroupShapes9To11();
    var rs := CatalogRanges;
    assert rs[..9][..8] == rs[..8];
    assert Expand(rs[..9]) == Expand(rs[..8]) + RealismIds;
    assert rs[..10][..9] == rs[..9];
    assert Expand(rs[..10]) == Expand(rs[..9]) + ConditionIds;
    assert rs[..11][..10] == rs[..10];
    assert Expand(rs[..11]) == Expand(rs[..10]) + UniquenessIds;
  }

  /** Catalog runs 12 to 14 expand to their groups. */
  lemma ExpandRuns12To14()
    ensures Expand(CatalogRanges[..14]) == Expand(CatalogRanges[..11]) + AbstractionIds + QuantifierIds + ToleranceIds
  {
    GroupShapes12To14();
    var rs := CatalogRanges;
    assert rs[..12][..11] == rs[..11];
    assert Expand(rs[..12]) == Expand(rs[..11]) + AbstractionIds;
    assert rs[..13][..12] == rs[..12];
    assert Expand(rs[..13]) == Expand(rs[..12]) + QuantifierIds;
    assert rs[..14][..13] == rs[..13];
    assert Expand(rs[..14]) == Expand(rs[..13]) + ToleranceIds;
  }

  /** Catalog runs 15 to 17 expand to their groups. */
  lemma ExpandRuns15To17()
    ensures Expand(CatalogRanges[..17]) == Expand(CatalogRanges[..14]) + QuantificationIds + UniformityIds + ModularityIds
  {
    GroupShapes15To17();
    var rs := CatalogRanges;
    assert rs[..15][..14] == rs[..14];
    assert Expand(rs[..15]) == Expand(rs[..14]) + QuantificationIds;
    assert rs[..16][..15] == rs[..15];
    assert Expand(rs[..16]) == Expand(rs[..15]) + UniformityIds;
    assert rs[..17][..16] == rs[..16];
    assert Expand(rs[..17]) == Expand(rs[..16]) + ModularityIds;
  }

  /** The catalog is the expansion of its seventeen runs: P1-P7, C1-C15, R1-R35
      and R37-R42, in that order. */
  lemma CatalogShape()
    ensures AllRules == Expand(CatalogRanges)
  {
    ExpandRuns1To3();
    ExpandRuns4To4();
    ExpandRuns5To8();
    ExpandRuns9To11();
    ExpandRuns12To14();
    ExpandRuns15To17();
    assert CatalogRanges[..17] == CatalogRanges;
  }

  lemma CatalogAscendingFirst()
    ensures forall i :: 0 <= i < 8 ==> Before(CatalogRanges[i], CatalogRanges[i + 1])
  {
  }

  lemma CatalogAscendingLast()
    ensures forall i :: 8 <= i < 16 ==> Before(CatalogRanges[i], CatalogRanges[i + 1])
  {
  }

  /** Each catalog run lies wholly before the next. */
  lemma CatalogAscending()
    ensures Ascending(CatalogRanges)
  {
    CatalogAscendingFirst();
    CatalogAscendingLast();
  }

  /** The catalog runs are listed in order, and no two share an id. */
  lemma CatalogRangesSeparated()
    ensures Ascending(CatalogRanges)
    ensures Separated(CatalogRanges)
  {
    CatalogAscending();
    AscendingSeparated(CatalogRanges);
  }

  /** The catalog holds 63 distinct ids. */
  lemma CatalogDistinct()
    ensures |AllRules| == 63
    ensures Distinct(AllRules)
  {
    CatalogShape();
    CatalogRangesSeparated();
    ExpandDistinct(CatalogRanges);
  }

  /** An id inside none of the ranges is not in their expansion. */
  lemma NotInExpand(x: RuleId, rs: seq<Range>)
    requires forall k :: 0 <= k < |rs| ==> !InRange(x, rs[k])
    ensures x !in Expand(rs)
  {
    ExpandMembers(rs);
  }

  /** R36 is not in the catalog. */
  lemma CatalogLacksR36()
    ensures "R36" !in AllRules
  {
    assert "R36" == Id('R', 36);
    IdParts('R', 36);
    NotInExpand("R36", CatalogRanges);
    CatalogShape();
  }
  // ---------------------------------------------------------------------------
  // Categories

  /** A named group of rules with a fixed point maximum. */
  datatype Category = Category(name: string, rules: seq<RuleId>, max: int)

  /** The membership test of the last category: an "R" id numbered 10 or more. */
  predicate IsOtherRule(id: RuleId) {
    |id| >= 1 && id[0] == 'R' &&
    match Number(id)
    case Some(n) => n >= 10
    case None => false
  }

  /** The ids of `ids` that belong to the last category, in their order. */
  function OtherRules(ids: seq<RuleId>): (r: seq<RuleId>)
    ensures forall x :: x in r <==> x in ids && IsOtherRule(x)
  {
    if |ids| == 0 then []
    else (if IsOtherRule(ids[0]) then [ids[0]] else []) + OtherRules(ids[1..])
  }

  /** The five categories, in the order the evaluator reports them. The first
      four rule lists are written out again in the evaluator; they hold the
      same ids as the catalog's first four groups. */
  const Categories: seq<Category> := [
    Category("패턴 규칙 (P1-P7)", PatternIds, 35),
    Category("개별 특성 (C1-C9)", IndividualIds, 45),
    Category("집합 특성 (C10-C15)", SetIds, 30),
    Category("정확성 (R1-R9)", CorrectnessIds, 45),
    Category("기타 규칙", OtherRules(AllRules), 165)
  ]

  /** The rule lists of `cats`, concatenated in order. */
  function Flatten(cats: seq<Category>): seq<RuleId> {
    if |cats| == 0 then [] else Flatten(cats[..|cats| - 1]) + cats[|cats| - 1].rules
  }

  /** The sum of the maxima of `cats`. */
  function SumMax(cats: seq<Category>): int {
    if |cats| == 0 then 0 else SumMax(cats[..|cats| - 1]) + cats[|cats| - 1].max
  }

  lemma {:induction false} OtherRulesAppend(a: seq<RuleId>, b: seq<RuleId>)
    ensures OtherRules(a + b) == OtherRules(a) + OtherRules(b)
    decreases |a|
  {
    if |a| > 0 {
      assert (a + b)[1..] == a[1..] + b;
      OtherRulesAppend(a[1..], b);
    } else {
      assert a + b == b;
    }
  }

  /** Every id of a range is in the last category, or none is. */
  lemma {:induction false} OtherRulesOfRange(letter: char, lo: nat, hi: nat)
    ensures letter != 'R' || hi < 10 ==> OtherRules(RuleIds(letter, lo, hi)) == []
    ensures letter == 'R' && lo >= 10 ==> OtherRules(RuleIds(letter, lo, hi)) == RuleIds(letter, lo, hi)
    decreases hi + 1 - lo
  {
    if lo <= hi {
      var id := Id(letter, lo);
      IdParts(letter, lo);
      assert IsOtherRule(id) <==> letter == 'R' && lo >= 10;
      assert [id][1..] == [];
      assert OtherRules([id]) == if IsOtherRule(id) then [id] else [];
      OtherRulesAppend([id], RuleIds(letter, lo + 1, hi));
      OtherRulesOfRange(letter, lo + 1, hi);
    }
  }

  /** The expansion of `rs` is that of its first `m` ranges followed by that of the rest. */
  lemma {:induction false} ExpandSplit(rs: seq<Range>, m: nat)
    requires m <= |rs|
    ensures Expand(rs) == Expand(rs[..m]) + Expand(rs[m..])
  {
    if |rs| > m {
      var init := rs[..|rs| - 1];
      ExpandSplit(init, m);
      assert init[..m] == rs[..m];
      assert rs[m..][..|rs[m..]| - 1] == init[m..];
    } else {
      assert rs[..m] == rs;
      assert rs[m..] == [];
    }
  }

  /** When the first `m` ranges lie outside the last category and the others
      inside it, the last category of the expansion is the expansion of the
      others. */
  lemma {:induction false} OtherRulesOfExpand(rs: seq<Range>, m: nat)
    requires m <= |rs|
    requires forall k :: 0 <= k < m ==> rs[k].letter != 'R' || rs[k].hi < 10
    requires forall k :: m <= k < |rs| ==> rs[k].letter == 'R' && rs[k].lo >= 10
    ensures OtherRules(Expand(rs)) == Expand(rs[m..])
  {
    if |rs| > 0 {
      var init, r := rs[..|rs| - 1], rs[|rs| - 1];
      OtherRulesAppend(Expand(init), RangeIds(r));
      OtherRulesOfRange(r.letter, r.lo, r.hi);
      if |rs| > m {
        OtherRulesOfExpand(init, m);
        assert rs[m..][..|rs[m..]| - 1] == init[m..];
      } else {
        OtherRulesOfExpand(init, m - 1);
        assert init[m - 1..] == [];
        assert rs[m..] == [];
      }
    }
  }

  /** The last category is R10-R35 and R37-R42, the catalog's runs from the fifth on. */
  lemma OtherRulesOfCatalog()
    ensures OtherRules(AllRules) == Expand(CatalogRanges[4..])
  {
    CatalogShape();
    OtherRulesOfExpand(CatalogRanges, 4);
  }

  /** The flattening of five categories, written out. */
  lemma FlattenFive(cats: seq<Category>)
    requires |cats| == 5
    ensures Flatten(cats) == cats[0].rules + cats[1].rules + cats[2].rules + cats[3].rules + cats[4].rules
    ensures SumMax(cats) == cats[0].max + cats[1].max + cats[2].max + cats[3].max + cats[4].max
  {
    assert cats[..1][..0] == [];
    assert cats[..2][..1] == cats[..1];
    assert cats[..3][..2] == cats[..2];
    assert cats[..4][..3] == cats[..3];
    assert cats[..5][..4] == cats[..4];
    assert cats[..5] == cats;
    assert Flatten(cats[..1]) == cats[0].rules;
    assert Flatten(cats[..2]) == Flatten(cats[..1]) + cats[1].rules;
    assert Flatten(cats[..3]) == Flatten(cats[..2]) + cats[2].rules;
    assert Flatten(cats[..4]) == Flatten(cats[..3]) + cats[3].rules;
    assert Flatten(cats[..5]) == Flatten(cats[..4]) + cats[4].rules;
    assert SumMax(cats[..1]) == cats[0].max;
    assert SumMax(cats[..2]) == SumMax(cats[..1]) + cats[1].max;
    assert SumMax(cats[..3]) == SumMax(cats[..2]) + cats[2].max;
    assert SumMax(cats[..4]) == SumMax(cats[..3]) + cats[3].max;
    assert SumMax(cats[..5]) == SumMax(cats[..4]) + cats[4].max;
  }

  /** The category rule lists, read in order, are exactly the catalog. */
  lemma CategoriesTileCatalog()
    ensures Flatten(Categories) == AllRules
  {
    var rs := CatalogRanges;
    FlattenFive(Categories);
    OtherRulesOfCatalog();
    CatalogShape();
    ExpandSplit(rs, 4);
    ExpandRuns1To3();
    ExpandRuns4To4();
  }

  /** The categories partition the catalog: every catalog id lies in exactly
      one category, and categories hold nothing else. */
  lemma CategoriesPartitionCatalog()
    ensures forall id, c :: 0 <= c < |Categories| && id in Categories[c].rules ==> id in AllRules
    ensures forall id :: id in AllRules ==> exists c :: 0 <= c < |Categories| && id in Categories[c].rules
    ensures forall id, c, d :: 0 <= c < d < |Categories| && id in Categories[c].rules ==> id !in Categories[d].rules
  {
    CategoriesTileCatalog();
    CatalogDistinct();
    FlattenPartition(Categories);
  }

  /** A part of a duplicate-free flattening is itself duplicate-free. */
  lemma {:induction false} FlattenPartDistinct(cats: seq<Category>, c: int)
    requires Distinct(Flatten(cats)) && 0 <= c < |cats|
    ensures Distinct(cats[c].rules)
  {
    var init, last := cats[..|cats| - 1], cats[|cats| - 1].rules;
    var f := Flatten(init);
    var s := f + last;
    if c == |cats| - 1 {
      forall i, j | 0 <= i < j < |last| ensures last[i] != last[j] {
        assert s[|f| + i] == last[i] && s[|f| + j] == last[j];
      }
    } else {
      assert Distinct(f) by {
        forall i, j | 0 <= i < j < |f| ensures f[i] != f[j] {
          assert f[i] == s[i] && f[j] == s[j];
        }
      }
      assert cats[c] == init[c];
      FlattenPartDistinct(init, c);
    }
  }

  /** No category lists a rule twice. */
  lemma CategoryRulesDistinct(c: int)
    requires 0 <= c < |Categories|
    ensures Distinct(Categories[c].rules)
  {
    CategoriesTileCatalog();
    CatalogDistinct();
    FlattenPartDistinct(Categories, c);
  }

  /** For a duplicate-free flattening: membership is membership of some part,
      and no id lies in two parts. */
  lemma {:induction false} FlattenPartition(cats: seq<Category>)
    requires Distinct(Flatten(cats))
    ensures forall id, c :: 0 <= c < |cats| && id in cats[c].rules ==> id in Flatten(cats)
    ensures forall id :: id in Flatten(cats) ==> exists c :: 0 <= c < |cats| && id in cats[c].rules
    ensures forall id, c, d :: 0 <= c < d < |cats| && id in cats[c].rules ==> id !in cats[d].rules
  {
    if |cats| > 0 {
      var init, last := cats[..|cats| - 1], cats[|cats| - 1].rules;
      var f := Flatten(init);
      var s := f + last;
      assert Distinct(f) by {
        forall i, j | 0 <= i < j < |f| ensures f[i] != f[j] {
          assert f[i] == s[i] && f[j] == s[j];
        }
      }
      FlattenPartition(init);
      assert forall id :: id in f ==> id !in last by {
        forall id | id in f ensures id !in last {
          var i :| 0 <= i < |f| && f[i] == id;
          forall j | 0 <= j < |last| ensures last[j] != id {
            assert s[i] == id && s[|f| + j] == last[j];
          }
        }
      }
      forall id, c | 0 <= c < |cats| && id in cats[c].rules ensures id in Flatten(cats) {
        if c < |cats| - 1 {
          assert cats[c] == init[c];
        }
      }
      forall id | id in Flatten(cats) ensures exists c :: 0 <= c < |cats| && id in cats[c].rules {
        if id in f {
          var c :| 0 <= c < |init| && id in init[c].rules;
          assert cats[c] == init[c];
        }
      }
      forall id, c, d | 0 <= c < d < |cats| && id in cats[c].rules ensures id !in cats[d].rules {
        assert cats[c] == init[c];
        if d < |cats| - 1 {
          assert cats[d] == init[d];
        }
      }
    }
  }

  /** The category maxima are 35, 45, 30, 45 and 165 and add up to 320. The first
      four equal five points per rule; the last does not: its 32 rules can
      reach only 160. */
  lemma CategoryMaxima()
    ensures |Categories| == 5
    ensures Categories[0].max == 35 && Categories[1].max == 45 && Categories[2].max == 30
    ensures Categories[3].max == 45 && Categories[4].max == 165
    ensures SumMax(Categories) == 320
    ensures forall c :: 0 <= c < 4 ==> Categories[c].max == 5 * |Categories[c].rules|
    ensures |Categories[4].rules| == 32 && 5 * |Categories[4].rules| == 160 < Categories[4].max
  {
    FlattenFive(Categories);
    CategoriesTileCatalog();
    CatalogDistinct();
  }
}
