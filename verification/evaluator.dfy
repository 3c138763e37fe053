/** The score aggregation of the requirement evaluator: the decoded model reply
    becomes a report with a total, a maximum, a percentage and per-category
    sums, and two reports are compared rule by rule. */
module Evaluator {
  import opened Wrappers
  import opened Catalog
  import AiClient

  /** The decoded model reply: for each key, the `score` field of its entry,
      or `None` when the entry has no `score`. */
  type ScoreMap = map<RuleId, Option<int>>

  /** The score the evaluator reads for `rule`: the entry's `score`, 0 when the
      entry has none, 0 when there is no entry. */
  function ScoreOf(scores: ScoreMap, rule: RuleId): int {
    if rule in scores then scores[rule].GetOr(0) else 0
  }

  /** A rule is applicable (not N/A) when its score is positive. */
  predicate Applicable(scores: ScoreMap, rule: RuleId) {
    ScoreOf(scores, rule) > 0
  }

  /** What `rule` adds to a total: its score when applicable, else nothing. */
  function Points(scores: ScoreMap, rule: RuleId): nat {
    if Applicable(scores, rule) then ScoreOf(scores, rule) else 0
  }

  /** The running total of the evaluator's loop over `ids`. */
  function Total(ids: seq<RuleId>, scores: ScoreMap): nat {
    if |ids| == 0 then 0 else Points(scores, ids[0]) + Total(ids[1..], scores)
  }

  /** How many of `ids` are applicable: the loop adds 5 to the maximum for each. */
  function ApplicableCount(ids: seq<RuleId>, scores: ScoreMap): nat {
    if |ids| == 0 then 0
    else (if Applicable(scores, ids[0]) then 1 else 0) + ApplicableCount(ids[1..], scores)
  }

  /** The catalog rules that are applicable under `scores`. */
  function ApplicableRules(scores: ScoreMap): set<RuleId> {
    set id | id in AllRules && Applicable(scores, id)
  }

  /** The maximum reported when no rule is applicable. */
  const FallbackMax: int := 320

  /** The points each applicable rule adds to the maximum. */
  const PointsPerRule: int := 5

  datatype CategoryScore = CategoryScore(name: string, rules: seq<RuleId>, score: int, max: int)

  datatype Report = Report(
    total: int,
    max: int,
    percentage: real,
    scores: ScoreMap,
    categories: seq<CategoryScore>)

  /** `total / max * 100` as an exact ratio, and 0 when `max` is 0. */
  function Percentage(total: int, max: int): real {
    if max > 0 then total as real / max as real * 100.0 else 0.0
  }

  /** The per-category sums of `cats` under `scores`, in category order. */
  function ScoresOf(cats: seq<Category>, scores: ScoreMap): (r: seq<CategoryScore>)
    ensures |r| == |cats|
  {
    seq(|cats|, c requires 0 <= c < |cats| =>
      CategoryScore(cats[c].name, cats[c].rules, Total(cats[c].rules, scores), cats[c].max))
  }

  /** `_calculate_category_scores`. */
  function CategoryScores(scores: ScoreMap): (r: seq<CategoryScore>)
    ensures |r| == |Categories|
    ensures forall c :: 0 <= c < |r| ==>
      r[c].name == Categories[c].name && r[c].rules == Categories[c].rules && r[c].max == Categories[c].max
    ensures forall c :: 0 <= c < |r| ==> r[c].score == Total(Categories[c].rules, scores) >= 0
  {
    ScoresOf(Categories, scores)
  }

  /** `_process_scores`: the report for a decoded reply. */
  function ProcessScores(scores: ScoreMap): (r: Report)
    ensures r.scores == scores
    ensures r.total == Total(AllRules, scores) >= 0 && r.max > 0
    ensures r.total == 0 <==> ApplicableRules(scores) == {}
    ensures ApplicableRules(scores) == {} ==> r.max == FallbackMax && r.percentage == 0.0
    ensures ApplicableRules(scores) != {} ==>
      r.max == PointsPerRule * |ApplicableRules(scores)| &&
      r.percentage == r.total as real / r.max as real * 100.0
    ensures r.categories == CategoryScores(scores)
  {
    CountIsCardinality(scores);
    TotalZeroIff(AllRules, scores);
    var total := Total(AllRules, scores);
    var applied := PointsPerRule * ApplicableCount(AllRules, scores);
    Report(total, if applied > 0 then applied else FallbackMax, Percentage(total, applied), scores, CategoryScores(scores))
  }

  /** `_get_default_scores`: the report used when evaluation fails. */
  function DefaultScores(): (r: Report)
    ensures r.total == 0 && r.max == FallbackMax && r.percentage == 0.0
    ensures r.scores == map[] && r.categories == []
  {
    Report(0, FallbackMax, 0.0, map[], [])
  }

  /** `evaluate`: `reply` is what the model call returned and `decode` the JSON
      decoder; any failure on the way gives the default report. */
  function Evaluate(reply: Result<string, string>, decode: string -> Result<ScoreMap, string>): (r: Report)
    ensures reply.Failure? ==> r == DefaultScores()
    ensures reply.Success? && AiClient.ExtractCandidate(reply.value).None? ==> r == DefaultScores()
    ensures reply.Success? && AiClient.ExtractCandidate(reply.value).Some? ==>
      var parsed := decode(AiClient.ExtractCandidate(reply.value).value);
      (parsed.Failure? ==> r == DefaultScores()) &&
      (parsed.Success? ==> r.scores == parsed.value && r == ProcessScores(parsed.value))
  {
    match AiClient.EvaluateRequirement(reply, decode)
    case Success(scores) => ProcessScores(scores)
    case Failure(_) => DefaultScores()
  }

  // ---------------------------------------------------------------------------
  // The fold over the catalog
  // ---------------------------------------------------------------------------

  /** The total is zero exactly when no rule is applicable. */
  lemma {:induction false} TotalZeroIff(ids: seq<RuleId>, scores: ScoreMap)
    ensures Total(ids, scores) == 0 <==> ApplicableCount(ids, scores) == 0
  {
    if |ids| > 0 {
      TotalZeroIff(ids[1..], scores);
    }
  }

  /** Over a duplicate-free list, the loop's count is the number of distinct
      applicable ids. */
  lemma {:induction false} CountOfDistinct(ids: seq<RuleId>, scores: ScoreMap)
    requires Distinct(ids)
    ensures ApplicableCount(ids, scores) == |set id | id in ids && Applicable(scores, id)|
  {
    if |ids| > 0 {
      var rest := ids[1..];
      assert Distinct(rest) by {
        forall i, j | 0 <= i < j < |rest| ensures rest[i] != rest[j] {
          assert rest[i] == ids[i + 1] && rest[j] == ids[j + 1];
        }
      }
      CountOfDistinct(rest, scores);
      var all := set id | id in ids && Applicable(scores, id);
      var tail := set id | id in rest && Applicable(scores, id);
      assert ids[0] !in rest by {
        forall j | 0 <= j < |rest| ensures rest[j] != ids[0] {
          assert rest[j] == ids[j + 1];
        }
      }
      if Applicable(scores, ids[0]) {
        assert all == tail + {ids[0]};
      } else {
        assert all == tail;
      }
    }
  }

  /** The catalog count is the size of the applicable set. */
  lemma CountIsCardinality(scores: ScoreMap)
    ensures ApplicableCount(AllRules, scores) == |ApplicableRules(scores)|
  {
    CatalogDistinct();
    CountOfDistinct(AllRules, scores);
  }

  lemma {:induction false} TotalAppend(a: seq<RuleId>, b: seq<RuleId>, scores: ScoreMap)
    ensures Total(a + b, scores) == Total(a, scores) + Total(b, scores)
    ensures ApplicableCount(a + b, scores) == ApplicableCount(a, scores) + ApplicableCount(b, scores)
  {
    if |a| > 0 {
      assert (a + b)[1..] == a[1..] + b;
      TotalAppend(a[1..], b, scores);
    } else {
      assert a + b == b;
    }
  }

  /** When no score exceeds 5, the total is at most 5 per applicable rule. */
  lemma {:induction false} TotalBound(ids: seq<RuleId>, scores: ScoreMap)
    requires forall id :: id in scores ==> scores[id].GetOr(0) <= 5
    ensures Total(ids, scores) <= PointsPerRule * ApplicableCount(ids, scores)
  {
    if |ids| > 0 {
      TotalBound(ids[1..], scores);
    }
  }

  /** Two maps that give every id of `ids` the same points give the same total
      and count. */
  lemma {:induction false} TotalCongruence(ids: seq<RuleId>, s1: ScoreMap, s2: ScoreMap)
    requires forall id :: id in ids ==> Points(s1, id) == Points(s2, id)
    ensures Total(ids, s1) == Total(ids, s2)
    ensures ApplicableCount(ids, s1) == ApplicableCount(ids, s2)
  {
    if |ids| > 0 {
      assert ids[0] in ids;
      TotalCongruence(ids[1..], s1, s2);
    }
  }

  // ---------------------------------------------------------------------------
  // Properties of the report
  // ---------------------------------------------------------------------------

  /** With scores on the 0-5 scale, the total never exceeds the maximum and the
      percentage never exceeds 100. */
  lemma TotalWithinMax(scores: ScoreMap)
    requires forall id :: id in scores ==> scores[id].GetOr(0) <= 5
    ensures ProcessScores(scores).total <= ProcessScores(scores).max
    ensures ProcessScores(scores).percentage <= 100.0
  {
    TotalBound(AllRules, scores);
    PercentageAtMostHundred(Total(AllRules, scores), PointsPerRule * ApplicableCount(AllRules, scores));
  }

  lemma PercentageAtMostHundred(total: int, max: int)
    requires 0 <= total <= max
    ensures Percentage(total, max) <= 100.0
  {
    if max > 0 {
      var q := total as real / max as real;
      assert q * max as real == total as real;
      assert q <= 1.0;
    }
  }

  /** The sum of the scores of some category results. */
  function SumScores(cs: seq<CategoryScore>): int {
    if |cs| == 0 then 0 else SumScores(cs[..|cs| - 1]) + cs[|cs| - 1].score
  }

  lemma {:induction false} SumScoresOfFlatten(cats: seq<Category>, scores: ScoreMap)
    ensures SumScores(ScoresOf(cats, scores)) == Total(Flatten(cats), scores)
  {
    if |cats| > 0 {
      var n := |cats| - 1;
      assert ScoresOf(cats, scores)[..n] == ScoresOf(cats[..n], scores);
      SumScoresOfFlatten(cats[..n], scores);
      TotalAppend(Flatten(cats[..n]), cats[n].rules, scores);
    }
  }

  /** The category scores add up to the total, because the categories tile
      the catalog. */
  lemma CategoryScoresSumToTotal(scores: ScoreMap)
    ensures SumScores(ProcessScores(scores).categories) == ProcessScores(scores).total
  {
    SumScoresOfFlatten(Categories, scores);
    CategoriesTileCatalog();
  }

  /** The category maxima are the same constants for every reply. */
  lemma CategoryMaximaConstant(scores: ScoreMap)
    ensures |ProcessScores(scores).categories| == 5
    ensures var cs := ProcessScores(scores).categories;
      cs[0].max == 35 && cs[1].max == 45 && cs[2].max == 30 && cs[3].max == 45 && cs[4].max == 165
    ensures SumMax(Categories) == FallbackMax
  {
    CategoryMaxima();
  }

  /** Two replies that give every catalog id the same points produce the same
      total, maximum, percentage and category scores. */
  lemma SamePointsSameReport(s1: ScoreMap, s2: ScoreMap)
    requires forall id :: id in AllRules ==> Points(s1, id) == Points(s2, id)
    ensures var r1, r2 := ProcessScores(s1), ProcessScores(s2);
      r1.total == r2.total && r1.max == r2.max && r1.percentage == r2.percentage &&
      r1.categories == r2.categories
  {
    TotalCongruence(AllRules, s1, s2);
    CategoriesPartitionCatalog();
    var c1, c2 := CategoryScores(s1), CategoryScores(s2);
    forall c | 0 <= c < |Categories|
      ensures c1[c] == c2[c]
    {
      TotalCongruence(Categories[c].rules, s1, s2);
    }
  }

  /** An entry for a key outside the catalog changes nothing but `scores`. */
  lemma UnknownKeyIgnored(scores: ScoreMap, key: RuleId, entry: Option<int>)
    requires key !in AllRules
    ensures var r1, r2 := ProcessScores(scores[key := entry]), ProcessScores(scores);
      r1.total == r2.total && r1.max == r2.max && r1.percentage == r2.percentage &&
      r1.categories == r2.categories
  {
    SamePointsSameReport(scores[key := entry], scores);
  }

  /** An entry without a score, or with a score of 0 or less, counts exactly
      as a missing entry. */
  lemma NonPositiveEntryIgnored(scores: ScoreMap, key: RuleId, entry: Option<int>)
    requires entry.GetOr(0) <= 0
    ensures var r1, r2 := ProcessScores(scores[key := entry]), ProcessScores(scores - {key});
      r1.total == r2.total && r1.max == r2.max && r1.percentage == r2.percentage &&
      r1.categories == r2.categories
  {
    SamePointsSameReport(scores[key := entry], scores - {key});
  }

  /** The failure report agrees with the report of an empty reply except that
      it carries no categories. */
  lemma DefaultMatchesEmptyReply()
    ensures var d, e := DefaultScores(), ProcessScores(map[]);
      d.total == e.total == 0 && d.max == e.max == FallbackMax &&
      d.percentage == e.percentage == 0.0 && d.scores == e.scores == map[] &&
      |d.categories| == 0 && |e.categories| == |Categories|
  {
    assert ApplicableRules(map[]) == {};
  }

  /** Adding an entry for a key that had none adds that key's points, once,
      when the key is listed. */
  lemma {:induction false} TotalInsert(ids: seq<RuleId>, scores: ScoreMap, key: RuleId, entry: Option<int>)
    requires Distinct(ids) && key !in scores
    ensures Total(ids, scores[key := entry]) ==
      Total(ids, scores) + (if key in ids then Points(map[key := entry], key) else 0)
    ensures ApplicableCount(ids, scores[key := entry]) ==
      ApplicableCount(ids, scores) + (if key in ids && Applicable(map[key := entry], key) then 1 else 0)
  {
    if |ids| > 0 {
      var rest := ids[1..];
      assert Distinct(rest) by {
        forall i, j | 0 <= i < j < |rest| ensures rest[i] != rest[j] {
          assert rest[i] == ids[i + 1] && rest[j] == ids[j + 1];
        }
      }
      assert ids[0] !in rest by {
        forall j | 0 <= j < |rest| ensures rest[j] != ids[0] {
          assert rest[j] == ids[j + 1];
        }
      }
      assert key in ids <==> key == ids[0] || key in rest;
      TotalInsert(rest, scores, key, entry);
    }
  }

  lemma {:induction false} EmptyReplyTotal(ids: seq<RuleId>)
    ensures Total(ids, map[]) == 0 && ApplicableCount(ids, map[]) == 0
  {
    if |ids| > 0 {
      EmptyReplyTotal(ids[1..]);
    }
  }

  /** Scoring one more catalog rule positively adds its score to the total and
      one rule's worth to the maximum. With the empty reply as the start and
      the two lemmas above for every other kind of entry, this fixes the
      total as the sum of the positive scores of the catalog rules. */
  lemma ProcessScoresInsert(scores: ScoreMap, key: RuleId, v: int)
    requires key in AllRules && key !in scores && v > 0
    ensures var r1, r0 := ProcessScores(scores[key := Some(v)]), ProcessScores(scores);
      r1.total == r0.total + v &&
      |ApplicableRules(scores[key := Some(v)])| == |ApplicableRules(scores)| + 1 &&
      r1.max == PointsPerRule * (|ApplicableRules(scores)| + 1)
  {
    CatalogDistinct();
    TotalInsert(AllRules, scores, key, Some(v));
    CountIsCardinality(scores);
    CountIsCardinality(scores[key := Some(v)]);
  }

  /** An empty reply scores every category 0. */
  lemma EmptyReplyCategories()
    ensures forall c :: 0 <= c < |Categories| ==> CategoryScores(map[])[c].score == 0
  {
    forall c | 0 <= c < |Categories| ensures CategoryScores(map[])[c].score == 0 {
      EmptyReplyTotal(Categories[c].rules);
    }
  }

  /** Scoring one more rule positively adds its score to the category that
      lists it, and to no other. */
  lemma CategoryScoresInsert(scores: ScoreMap, key: RuleId, v: int, c: int)
    requires key !in scores && v > 0 && 0 <= c < |Categories|
    ensures CategoryScores(scores[key := Some(v)])[c].score ==
      CategoryScores(scores)[c].score + (if key in Categories[c].rules then v else 0)
  {
    CategoryRulesDistinct(c);
    TotalInsert(Categories[c].rules, scores, key, Some(v));
  }

  /** A reply with exactly two applicable catalog entries. */
  lemma TwoEntryTotal(m: ScoreMap, a: RuleId, b: RuleId, va: int, vb: int)
    requires a != b && a in AllRules && b in AllRules && va > 0 && vb > 0
    requires m == map[a := Some(va), b := Some(vb)]
    ensures Total(AllRules, m) == va + vb && ApplicableCount(AllRules, m) == 2
  {
    var m1 := m - {b};
    var m0 := m1 - {a};
    assert m0 == map[];
    assert m1 == m0[a := Some(va)];
    assert m == m1[b := Some(vb)];
    CatalogDistinct();
    EmptyReplyTotal(AllRules);
    TotalInsert(AllRules, m0, a, Some(va));
    TotalInsert(AllRules, m1, b, Some(vb));
  }

  /** A reply scoring P1 at 5, P2 at 0 and R7 at 3 gives a total of 8 out of
      10 (P2 is not applicable), that is 80 percent. */
  lemma AggregateExample()
    ensures var r := ProcessScores(map["P1" := Some(5), "P2" := Some(0), "R7" := Some(3)]);
      r.total == 8 && r.max == 10 && r.percentage == 80.0
  {
    var m0: ScoreMap := map[];
    var m1 := m0["P1" := Some(5)];
    var m2 := m1["R7" := Some(3)];
    FirstEntry(m0, m1);
    SecondEntry(m1, m2);
    LastEntry(m2, map["P1" := Some(5), "P2" := Some(0), "R7" := Some(3)]);
  }

  /** The first entry of `AggregateExample`. */
  lemma FirstEntry(m0: ScoreMap, m1: ScoreMap)
    requires m0 == map[] && m1 == m0["P1" := Some(5)]
    ensures ProcessScores(m1).total == 5 && |ApplicableRules(m1)| == 1
  {
    ExampleRulesListed();
    EmptyReplyExample();
    ProcessScoresInsert(m0, "P1", 5);
  }

  /** The second entry of `AggregateExample`: R7 scores 3. */
  lemma SecondEntry(m1: ScoreMap, m2: ScoreMap)
    requires ProcessScores(m1).total == 5 && |ApplicableRules(m1)| == 1
    requires "R7" !in m1 && m2 == m1["R7" := Some(3)]
    ensures var r := ProcessScores(m2);
      r.total == 8 && r.max == 10 && r.percentage == 80.0
  {
    ExampleRulesListed();
    ProcessScoresInsert(m1, "R7", 3);
    var r := ProcessScores(m2);
    assert ApplicableRules(m2) != {};
    assert r.total as real == 8.0 && r.max as real == 10.0;
    assert 8.0 / 10.0 * 100.0 == 80.0;
  }

  /** The last entry of `AggregateExample`: P2 scores 0 and changes nothing. */
  lemma LastEntry(m2: ScoreMap, m3: ScoreMap)
    requires var r := ProcessScores(m2); r.total == 8 && r.max == 10 && r.percentage == 80.0
    requires "P2" !in m2 && m3 == m2["P2" := Some(0)]
    ensures var r := ProcessScores(m3);
      r.total == 8 && r.max == 10 && r.percentage == 80.0
  {
    assert m2 - {"P2"} == m2;
    NonPositiveEntryIgnored(m2, "P2", Some(0));
  }

  lemma ExampleRulesListed()
    ensures "P1" in AllRules && "R7" in AllRules
  {
    assert "P1" in PatternIds;
    assert "R7" in CorrectnessIds;
  }

  /** An empty reply falls back to a maximum of 320 and 0 percent. */
  lemma EmptyReplyExample()
    ensures var r := ProcessScores(map[]);
      r.total == 0 && r.max == 320 && r.percentage == 0.0
  {
    assert ApplicableRules(map[]) == {};
  }

  // ---------------------------------------------------------------------------
  // compare_scores
  // ---------------------------------------------------------------------------

  /** One row of the comparison: the rule's score before and after, and the
      difference. */
  datatype RuleChange = RuleChange(rule: RuleId, original: int, improved: int, change: int)

  datatype Comparison = Comparison(
    original: Report,
    improved: Report,
    changes: seq<RuleChange>,
    totalImprovement: int)

  /** `x` occurs in `s` at an earlier position than `y`. */
  ghost predicate Precedes(s: seq<RuleId>, x: RuleId, y: RuleId) {
    exists p, q :: 0 <= p < q < |s| && s[p] == x && s[q] == y
  }

  /** A comparison row is kept when either score is positive. */
  predicate Compared(o: ScoreMap, i: ScoreMap, rule: RuleId) {
    ScoreOf(o, rule) > 0 || ScoreOf(i, rule) > 0
  }

  /** The row `compare_scores` builds for `rule`. */
  function Row(o: ScoreMap, i: ScoreMap, rule: RuleId): RuleChange {
    RuleChange(rule, ScoreOf(o, rule), ScoreOf(i, rule), ScoreOf(i, rule) - ScoreOf(o, rule))
  }

  /** Every row is about an id of `ids` whose row is kept, and holds that id's
      two scores and their difference. */
  predicate RowsFaithful(rows: seq<RuleChange>, ids: seq<RuleId>, o: ScoreMap, i: ScoreMap) {
    forall k :: 0 <= k < |rows| ==>
      rows[k].rule in ids && Compared(o, i, rows[k].rule) &&
      rows[k].original == ScoreOf(o, rows[k].rule) && rows[k].improved == ScoreOf(i, rows[k].rule) &&
      rows[k].change == rows[k].improved - rows[k].original
  }

  /** Every id of `ids` with a positive score on either side has a row. */
  ghost predicate RowsCover(rows: seq<RuleChange>, ids: seq<RuleId>, o: ScoreMap, i: ScoreMap) {
    forall id :: id in ids && Compared(o, i, id) ==> exists k :: 0 <= k < |rows| && rows[k].rule == id
  }

  /** The rows follow the order of `ids`. */
  ghost predicate RowsOrdered(rows: seq<RuleChange>, ids: seq<RuleId>) {
    forall k, l :: 0 <= k < l < |rows| ==> Precedes(ids, rows[k].rule, rows[l].rule)
  }

  /** The rows of the comparison over `ids`, in the order of `ids`. */
  function ChangesOver(ids: seq<RuleId>, o: ScoreMap, i: ScoreMap): (r: seq<RuleChange>)
    ensures RowsFaithful(r, ids, o, i)
    ensures RowsCover(r, ids, o, i)
    ensures RowsOrdered(r, ids)
  {
    if |ids| == 0 then []
    else
      var rest := ChangesOver(ids[1..], o, i);
      var head := if Compared(o, i, ids[0]) then [Row(o, i, ids[0])] else [];
      StepFaithful(ids, head, rest, o, i);
      StepCovers(ids, head, rest, o, i);
      StepOrdered(ids, head, rest, o, i);
      head + rest
  }

  lemma StepFaithful(ids: seq<RuleId>, head: seq<RuleChange>, rest: seq<RuleChange>, o: ScoreMap, i: ScoreMap)
    requires |ids| > 0
    requires head == if Compared(o, i, ids[0]) then [Row(o, i, ids[0])] else []
    requires RowsFaithful(rest, ids[1..], o, i)
    ensures RowsFaithful(head + rest, ids, o, i)
  {
    var r := head + rest;
    forall k | 0 <= k < |r|
      ensures r[k].rule in ids
    {
      if k >= |head| {
        assert r[k] == rest[k - |head|];
        assert rest[k - |head|].rule in ids[1..];
      }
    }
  }

  lemma StepCovers(ids: seq<RuleId>, head: seq<RuleChange>, rest: seq<RuleChange>, o: ScoreMap, i: ScoreMap)
    requires |ids| > 0
    requires head == if Compared(o, i, ids[0]) then [Row(o, i, ids[0])] else []
    requires RowsCover(rest, ids[1..], o, i)
    ensures RowsCover(head + rest, ids, o, i)
  {
    var r := head + rest;
    forall id | id in ids && Compared(o, i, id)
      ensures exists k :: 0 <= k < |r| && r[k].rule == id
    {
      if id == ids[0] {
        assert r[0].rule == id;
      } else {
        assert id in ids[1..];
        var k :| 0 <= k < |rest| && rest[k].rule == id;
        assert r[|head| + k].rule == id;
      }
    }
  }

  lemma StepOrdered(ids: seq<RuleId>, head: seq<RuleChange>, rest: seq<RuleChange>, o: ScoreMap, i: ScoreMap)
    requires |ids| > 0
    requires head == if Compared(o, i, ids[0]) then [Row(o, i, ids[0])] else []
    requires RowsFaithful(rest, ids[1..], o, i)
    requires RowsOrdered(rest, ids[1..])
    ensures RowsOrdered(head + rest, ids)
  {
    var r := head + rest;
    var tail := ids[1..];
    forall k, l | 0 <= k < l < |r|
      ensures Precedes(ids, r[k].rule, r[l].rule)
    {
      if k < |head| {
        assert r[l] == rest[l - |head|];
        assert rest[l - |head|].rule in tail;
        var q :| 0 <= q < |tail| && tail[q] == rest[l - |head|].rule;
        assert ids[0] == r[k].rule && ids[q + 1] == r[l].rule;
      } else {
        assert r[k] == rest[k - |head|] && r[l] == rest[l - |head|];
        assert Precedes(tail, rest[k - |head|].rule, rest[l - |head|].rule);
        var p, q :| 0 <= p < q < |tail| && tail[p] == rest[k - |head|].rule && tail[q] == rest[l - |head|].rule;
        assert ids[p + 1] == r[k].rule && ids[q + 1] == r[l].rule;
      }
    }
  }

  /** `compare_scores`. */
  function Compare(original: Report, improved: Report): (r: Comparison)
    ensures r.original == original && r.improved == improved
    ensures r.totalImprovement == improved.total - original.total
    ensures RowsFaithful(r.changes, AllRules, original.scores, improved.scores)
    ensures RowsCover(r.changes, AllRules, original.scores, improved.scores)
    ensures RowsOrdered(r.changes, AllRules)
  {
    Comparison(original, improved, ChangesOver(AllRules, original.scores, improved.scores), improved.total - original.total)
  }

  /** In a duplicate-free list, an id never precedes itself. */
  lemma PrecedesDistinct(s: seq<RuleId>, x: RuleId, y: RuleId)
    requires Distinct(s) && Precedes(s, x, y)
    ensures x != y
  {
  }

  /** Each rule has at most one row. */
  lemma CompareRowsDistinct(original: Report, improved: Report)
    ensures var cs := Compare(original, improved).changes;
      forall k, l :: 0 <= k < l < |cs| ==> cs[k].rule != cs[l].rule
  {
    CatalogDistinct();
    var cs := Compare(original, improved).changes;
    forall k, l | 0 <= k < l < |cs| ensures cs[k].rule != cs[l].rule {
      PrecedesDistinct(AllRules, cs[k].rule, cs[l].rule);
    }
  }

  /** Comparing a report with itself shows no change at all. */
  lemma CompareWithSelf(a: Report)
    ensures var r := Compare(a, a);
      r.totalImprovement == 0 && forall k :: 0 <= k < |r.changes| ==> r.changes[k].change == 0
  {
  }

  /** `b` has the rows of `a` with the two sides exchanged. */
  predicate Mirrored(a: seq<RuleChange>, b: seq<RuleChange>) {
    |a| == |b| &&
    forall k :: 0 <= k < |a| ==>
      b[k].rule == a[k].rule && b[k].original == a[k].improved &&
      b[k].improved == a[k].original && b[k].change == -a[k].change
  }

  lemma MirroredAppend(a: seq<RuleChange>, b: seq<RuleChange>, c: seq<RuleChange>, d: seq<RuleChange>)
    requires Mirrored(a, b) && Mirrored(c, d)
    ensures Mirrored(a + c, b + d)
  {
    forall k | |a| <= k < |a| + |c|
      ensures (b + d)[k] == d[k - |a|] && (a + c)[k] == c[k - |a|]
    {
    }
  }

  /** Swapping the two reports keeps the rows and negates every change. */
  lemma {:induction false} ChangesOverSwap(ids: seq<RuleId>, o: ScoreMap, i: ScoreMap)
    ensures Mirrored(ChangesOver(ids, o, i), ChangesOver(ids, i, o))
  {
    if |ids| > 0 {
      var ra, rb := ChangesOver(ids[1..], o, i), ChangesOver(ids[1..], i, o);
      ChangesOverSwap(ids[1..], o, i);
      assert Mirrored(ra, rb);
      var ha := if Compared(o, i, ids[0]) then [Row(o, i, ids[0])] else [];
      var hb := if Compared(i, o, ids[0]) then [Row(i, o, ids[0])] else [];
      assert Mirrored(ha, hb);
      MirroredAppend(ha, hb, ra, rb);
      assert ChangesOver(ids, o, i) == ha + ra;
      assert ChangesOver(ids, i, o) == hb + rb;
    }
  }

  lemma CompareSwap(original: Report, improved: Report)
    ensures var a, b := Compare(original, improved), Compare(improved, original);
      b.totalImprovement == -a.totalImprovement && |a.changes| == |b.changes| &&
      forall k :: 0 <= k < |a.changes| ==>
        b.changes[k].rule == a.changes[k].rule && b.changes[k].change == -a.changes[k].change
  {
    ChangesOverSwap(AllRules, original.scores, improved.scores);
  }

  /** The sum of the changes of some rows. */
  function SumChanges(cs: seq<RuleChange>): int {
    if |cs| == 0 then 0 else cs[0].change + SumChanges(cs[1..])
  }

  lemma SumChangesAppend(a: seq<RuleChange>, b: seq<RuleChange>)
    ensures SumChanges(a + b) == SumChanges(a) + SumChanges(b)
  {
    if |a| > 0 {
      assert (a + b)[1..] == a[1..] + b;
    } else {
      assert a + b == b;
    }
  }

  /** With no negative scores, the rows' changes add up to the difference of
      the totals. */
  lemma {:induction false} ChangesSumOver(ids: seq<RuleId>, o: ScoreMap, i: ScoreMap)
    requires forall id :: id in o ==> o[id].GetOr(0) >= 0
    requires forall id :: id in i ==> i[id].GetOr(0) >= 0
    ensures SumChanges(ChangesOver(ids, o, i)) == Total(ids, i) - Total(ids, o)
  {
    if |ids| > 0 {
      ChangesSumOver(ids[1..], o, i);
      var id := ids[0];
      var head := if Compared(o, i, id) then [Row(o, i, id)] else [];
      assert ChangesOver(ids, o, i) == head + ChangesOver(ids[1..], o, i);
      SumChangesAppend(head, ChangesOver(ids[1..], o, i));
    }
  }

  /** For two evaluated replies without negative scores, the total improvement
      is the sum of the per-rule changes. */
  lemma ImprovementIsSumOfChanges(o: ScoreMap, i: ScoreMap)
    requires forall id :: id in o ==> o[id].GetOr(0) >= 0
    requires forall id :: id in i ==> i[id].GetOr(0) >= 0
    ensures var r := Compare(ProcessScores(o), ProcessScores(i));
      SumChanges(r.changes) == r.totalImprovement
  {
    ChangesSumOver(AllRules, o, i);
  }

  /** Rows over exactly two distinct rules, the first of which heads the
      order, are those two rules in that order. */
  lemma TwoRows(cs: seq<RuleChange>, ids: seq<RuleId>, x: RuleId, y: RuleId)
    requires Distinct(ids) && |ids| > 0 && ids[0] == x && x != y
    requires forall k :: 0 <= k < |cs| ==> cs[k].rule == x || cs[k].rule == y
    requires forall k, l :: 0 <= k < l < |cs| ==> cs[k].rule != cs[l].rule
    requires exists k :: 0 <= k < |cs| && cs[k].rule == x
    requires exists k :: 0 <= k < |cs| && cs[k].rule == y
    requires RowsOrdered(cs, ids)
    ensures |cs| == 2 && cs[0].rule == x && cs[1].rule == y
  {
    var k1 :| 0 <= k1 < |cs| && cs[k1].rule == x;
    var k2 :| 0 <= k2 < |cs| && cs[k2].rule == y;
    NothingPrecedesHead(ids, y);
    if k2 < k1 {
      assert false;
    }
    // Naming the first row's rule lets the solver compare it with row k1.
    var first := cs[0].rule;
    if k1 != 0 {
      assert false;
    }
    DistinctRowsWithin(cs, {x, y});
  }

  /** Rows whose rules are pairwise different and all drawn from `a` number
      at most `|a|`. */
  lemma {:induction false} DistinctRowsWithin(cs: seq<RuleChange>, a: set<RuleId>)
    requires forall k :: 0 <= k < |cs| ==> cs[k].rule in a
    requires forall k, l :: 0 <= k < l < |cs| ==> cs[k].rule != cs[l].rule
    ensures |cs| <= |a|
  {
    if |cs| > 0 {
      var t, b := cs[1..], a - {cs[0].rule};
      forall k | 0 <= k < |t| ensures t[k].rule in b {
        assert t[k] == cs[k + 1];
      }
      forall k, l | 0 <= k < l < |t| ensures t[k].rule != t[l].rule {
        assert t[k] == cs[k + 1] && t[l] == cs[l + 1];
      }
      DistinctRowsWithin(t, b);
      assert |b| == |a| - 1;
    }
  }

  /** Nothing precedes the head of a duplicate-free list. */
  lemma NothingPrecedesHead(ids: seq<RuleId>, z: RuleId)
    requires Distinct(ids) && |ids| > 0
    ensures !Precedes(ids, z, ids[0])
  {
  }

  /** With only P1 and R7 scored, the comparison has a row for P1 and then
      one for R7. */
  lemma ExampleRowRules(a: Report, b: Report)
    requires a.scores.Keys == {"P1", "R7"} && b.scores.Keys == {"P1", "R7"}
    requires ScoreOf(a.scores, "P1") > 0 && ScoreOf(b.scores, "R7") > 0
    ensures var cs := Compare(a, b).changes;
      |cs| == 2 && cs[0].rule == "P1" && cs[1].rule == "R7"
  {
    ExampleRulesListed();
    var cs := Compare(a, b).changes;
    CompareRowsDistinct(a, b);
    CatalogDistinct();
    assert AllRules[0] == "P1";
    assert exists k :: 0 <= k < |cs| && cs[k].rule == "P1";
    assert exists k :: 0 <= k < |cs| && cs[k].rule == "R7";
    TwoRows(cs, AllRules, "P1", "R7");
  }

  /** The rows for P1 at 5 then 5 and R7 at 3 then 5. */
  lemma ExampleRows(a: Report, b: Report)
    requires a.scores == map["P1" := Some(5), "R7" := Some(3)]
    requires b.scores == map["P1" := Some(5), "R7" := Some(5)]
    ensures Compare(a, b).changes == [RuleChange("P1", 5, 5, 0), RuleChange("R7", 3, 5, 2)]
  {
    ExampleRowRules(a, b);
    var cs := Compare(a, b).changes;
    assert cs[0] == RuleChange("P1", 5, 5, 0);
    assert cs[1] == RuleChange("R7", 3, 5, 2);
  }

  /** Raising R7 from 3 to 5 while P1 stays at 5 gives one row per rule, in
      catalog order, and a total improvement of 2. */
  lemma CompareExample()
    ensures var r := Compare(ProcessScores(map["P1" := Some(5), "R7" := Some(3)]),
                             ProcessScores(map["P1" := Some(5), "R7" := Some(5)]));
      r.changes == [RuleChange("P1", 5, 5, 0), RuleChange("R7", 3, 5, 2)] &&
      r.totalImprovement == 2
  {
    var o: ScoreMap := map["P1" := Some(5), "R7" := Some(3)];
    var i: ScoreMap := map["P1" := Some(5), "R7" := Some(5)];
    ExampleRulesListed();
    TwoEntryTotal(o, "P1", "R7", 5, 3);
    TwoEntryTotal(i, "P1", "R7", 5, 5);
    ExampleRows(ProcessScores(o), ProcessScores(i));
  }
}
