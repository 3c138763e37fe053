/** The derivations behind the comparison screen: the score delta, the rows of
    the rule-by-rule table, and the highlight list with the three largest rule
    improvements. */
module ComparisonView {
  import opened Wrappers
  import opened Text
  import opened Catalog
  import opened Evaluator

  // ---------------------------------------------------------------------------
  // Labels
  // ---------------------------------------------------------------------------

  /** The change column: "+n" for a gain, the plain decimal otherwise. */
  function ChangeLabel(n: int): (r: string)
    ensures |r| >= 1 && (r[0] == '+' <==> n > 0)
    ensures PlainDecimal(if r[0] == '+' then r[1..] else r)
  {
    IntToStringPlain(n);
    var r := if n > 0 then "+" + IntToString(n) else IntToString(n);
    assert n > 0 ==> r[1..] == IntToString(n);
    r
  }

  /** Reading a change label back, after its "+" if any, gives the change;
      and since that part is a plain decimal, it is exactly `str(n)`. */
  lemma ChangeLabelRoundTrip(n: int)
    ensures var r := ChangeLabel(n);
      ParseInt(if r[0] == '+' then r[1..] else r) == Some(n)
    ensures var r := ChangeLabel(n);
      (if r[0] == '+' then r[1..] else r) == IntToString(n)
  {
    IntToStringRoundTrip(n);
    if n > 0 {
      assert ChangeLabel(n)[1..] == IntToString(n);
    } else if n < 0 {
      assert IntToString(n)[0] == '-';
    } else {
      assert IntToString(n) == "0";
    }
  }

  /** The delta shown under the total: "+" before the decimal, whatever its
      sign, then "점". */
  function MetricDeltaLabel(delta: int): (r: string)
    ensures |r| >= 3 && r[0] == '+' && r[|r| - 1] == '점'
    ensures ParseInt(r[1..|r| - 1]) == Some(delta) && PlainDecimal(r[1..|r| - 1])
  {
    var r := "+" + IntToString(delta) + "점";
    assert r[1..|r| - 1] == IntToString(delta);
    IntToStringRoundTrip(delta);
    IntToStringPlain(delta);
    r
  }

  /** A fall in the total still gets a leading "+". */
  lemma MetricDeltaOfFall()
    ensures MetricDeltaLabel(-3) == "+-3점"
  {
    assert IntToString(-3) == "-3";
  }

  /** The display names of the few rules that have one. */
  const RuleNames: map<RuleId, string> := map[
    "P1" := "Subject (주어)",
    "P2" := "Modal Verb (의무형 동사)",
    "P3" := "Action (행동)",
    "P4" := "Object (객체)",
    "P5" := "Performance Measure (성능 측정)",
    "C5" := "Singular (단일성)",
    "R7" := "Vague Terms (모호한 용어)"
  ]

  /** A rule's display name, or the rule id itself when it has none. */
  function RuleName(rule: RuleId): (r: string)
    ensures rule in RuleNames ==> r == RuleNames[rule]
    ensures rule !in RuleNames ==> r == rule
  {
    if rule in RuleNames then RuleNames[rule] else rule
  }

  /** The rule column: the id, " - ", and the display name. */
  function RuleLabel(rule: RuleId): (r: string)
    ensures rule + " - " <= r && r[|rule| + 3..] == RuleName(rule)
  {
    rule + " - " + RuleName(rule)
  }

  /** The seven named rules are catalog rules, and each name differs from
      its id, so exactly those rules show a name of their own. */
  lemma NamedRules()
    ensures |RuleNames| == 7
    ensures forall id :: id in RuleNames ==> id in AllRules && RuleName(id) != id
    ensures forall id :: id !in RuleNames ==> RuleLabel(id) == id + " - " + id
  {
    NamedRulesCount();
    NamedRulesInCatalog();
  }

  lemma NamedRulesCount()
    ensures |RuleNames| == 7
  {
  }

  lemma NamedRulesInCatalog()
    ensures forall id :: id in RuleNames ==> id in AllRules
  {
    NamedIdsListed();
  }

  /** The named ids, each found in its group of the catalog. */
  lemma NamedIdsListed()
    ensures "P1" in AllRules && "P2" in AllRules && "P3" in AllRules && "P4" in AllRules
    ensures "P5" in AllRules && "C5" in AllRules && "R7" in AllRules
  {
    assert "P1" in PatternIds && "P2" in PatternIds && "P3" in PatternIds;
    assert "P4" in PatternIds && "P5" in PatternIds;
    assert "C5" in IndividualIds && "R7" in CorrectnessIds;
  }

  /** An id in a range whose letter is not a space contains no space. */
  lemma RangeIdSpaceFree(x: RuleId, r: Range)
    requires InRange(x, r) && r.letter != ' '
    ensures ' ' !in x
  {
    forall i | 1 <= i < |x| ensures x[i] != ' ' {
      assert x[1..][i - 1] == x[i];
      assert IsDigit(x[1..][i - 1]);
    }
  }

  /** No catalog id contains a space. */
  lemma CatalogIdsSpaceFree()
    ensures forall x :: x in AllRules ==> ' ' !in x
  {
    CatalogShape();
    ExpandMembers(CatalogRanges);
    assert forall k :: 0 <= k < |CatalogRanges| ==> CatalogRanges[k].letter in "PCR";
    forall x | x in AllRules ensures ' ' !in x {
      var k :| 0 <= k < |CatalogRanges| && InRange(x, CatalogRanges[k]);
      RangeIdSpaceFree(x, CatalogRanges[k]);
    }
  }

  /** Labels of space-free ids differ when the ids do. */
  lemma SpaceFreeLabelsDiffer(a: RuleId, b: RuleId)
    requires ' ' !in a && ' ' !in b && a != b
    ensures RuleLabel(a) != RuleLabel(b)
  {
    var la, lb := RuleLabel(a), RuleLabel(b);
    if |a| < |b| {
      assert la[|a|] == ' ' && lb[|a|] == b[|a|];
    } else if |b| < |a| {
      assert lb[|b|] == ' ' && la[|b|] == a[|b|];
    } else {
      assert la[..|a|] == a && lb[..|b|] == b;
    }
  }

  /** Two catalog rules have the same label only when they are the same rule. */
  lemma RuleLabelInjective(a: RuleId, b: RuleId)
    requires a in AllRules && b in AllRules
    requires RuleLabel(a) == RuleLabel(b)
    ensures a == b
  {
    CatalogIdsSpaceFree();
    if a != b {
      SpaceFreeLabelsDiffer(a, b);
    }
  }

  // ---------------------------------------------------------------------------
  // The detail table
  // ---------------------------------------------------------------------------

  /** One row of the detail table. */
  datatype DetailRow = DetailRow(caption: string, original: int, improved: int, change: string)

  /** The detail table: one row per comparison row, in the same order. */
  function DetailRows(changes: seq<RuleChange>): (r: seq<DetailRow>)
    ensures |r| == |changes|
    ensures forall k :: 0 <= k < |r| ==>
      r[k].caption == RuleLabel(changes[k].rule) && r[k].original == changes[k].original &&
      r[k].improved == changes[k].improved && r[k].change == ChangeLabel(changes[k].change)
  {
    seq(|changes|, k requires 0 <= k < |changes| =>
      var c := changes[k];
      DetailRow(RuleLabel(c.rule), c.original, c.improved, ChangeLabel(c.change)))
  }

  /** The detail table of a comparison lists the compared rules in catalog
      order, one row each. */
  lemma DetailRowsInCatalogOrder(original: Report, improved: Report)
    ensures var cs := Compare(original, improved).changes;
      var rows := DetailRows(cs);
      forall k, l :: 0 <= k < l < |rows| ==>
        Precedes(AllRules, cs[k].rule, cs[l].rule) && rows[k].caption != rows[l].caption
  {
    var cs := Compare(original, improved).changes;
    var rows := DetailRows(cs);
    CompareRowsDistinct(original, improved);
    forall k, l | 0 <= k < l < |rows|
      ensures rows[k].caption != rows[l].caption
    {
      if rows[k].caption == rows[l].caption {
        RuleLabelInjective(cs[k].rule, cs[l].rule);
      }
    }
  }

  /** The delta the screen shows equals the comparison's total improvement. */
  function TotalDelta(original: Report, improved: Report): (d: int)
    ensures d == Compare(original, improved).totalImprovement
  {
    improved.total - original.total
  }

  // ---------------------------------------------------------------------------
  // Stable sort by change, largest first
  // ---------------------------------------------------------------------------

  /** Changes never increase along `s`. */
  predicate SortedByChange(s: seq<RuleChange>) {
    forall i, j :: 0 <= i < j < |s| ==> s[i].change >= s[j].change
  }

  /** No row of `s` has a change above `c`. */
  predicate AtMost(s: seq<RuleChange>, c: int) {
    forall j :: 0 <= j < |s| ==> s[j].change <= c
  }

  /** The rows of `s` whose change is `v`, in order. */
  function WithChange(s: seq<RuleChange>, v: int): seq<RuleChange> {
    if |s| == 0 then [] else (if s[0].change == v then [s[0]] else []) + WithChange(s[1..], v)
  }

  /** Puts `x` into `s` before the first row whose change is below `x`'s. */
  function Insert(x: RuleChange, s: seq<RuleChange>): (r: seq<RuleChange>)
    ensures |r| == |s| + 1
  {
    if |s| == 0 then [x]
    else if s[0].change < x.change then [x] + s
    else [s[0]] + Insert(x, s[1..])
  }

  /** `sorted(rows, key=change, reverse=True)`, as an insertion sort that puts
      each row after the earlier rows with a change at least as large. */
  function SortByChange(rows: seq<RuleChange>): (r: seq<RuleChange>)
    ensures |r| == |rows|
  {
    if |rows| == 0 then []
    else Insert(rows[|rows| - 1], SortByChange(rows[..|rows| - 1]))
  }

  lemma {:induction false} InsertAtMost(x: RuleChange, s: seq<RuleChange>, c: int)
    requires AtMost(s, c) && x.change <= c
    ensures AtMost(Insert(x, s), c)
  {
    if |s| > 0 && s[0].change >= x.change {
      assert AtMost(s[1..], c) by {
        forall j | 0 <= j < |s[1..]| ensures s[1..][j].change <= c {
          assert s[1..][j] == s[j + 1];
        }
      }
      InsertAtMost(x, s[1..], c);
      var t := Insert(x, s[1..]);
      forall j | 0 <= j < |[s[0]] + t| ensures ([s[0]] + t)[j].change <= c {
        if j > 0 {
          assert ([s[0]] + t)[j] == t[j - 1];
        }
      }
    }
  }

  lemma {:induction false} InsertSorted(x: RuleChange, s: seq<RuleChange>)
    requires SortedByChange(s)
    ensures SortedByChange(Insert(x, s))
  {
    if |s| > 0 {
      if s[0].change < x.change {
        forall i, j | 0 <= i < j < |[x] + s| ensures ([x] + s)[i].change >= ([x] + s)[j].change {
          assert ([x] + s)[j] == s[j - 1];
          if i > 0 {
            assert ([x] + s)[i] == s[i - 1];
          }
        }
      } else {
        var rest := s[1..];
        assert SortedByChange(rest);
        InsertSorted(x, rest);
        assert AtMost(rest, s[0].change) by {
          forall j | 0 <= j < |rest| ensures rest[j].change <= s[0].change {
            assert rest[j] == s[j + 1];
          }
        }
        InsertAtMost(x, rest, s[0].change);
        var t := Insert(x, rest);
        forall i, j | 0 <= i < j < |[s[0]] + t| ensures ([s[0]] + t)[i].change >= ([s[0]] + t)[j].change {
          assert ([s[0]] + t)[j] == t[j - 1];
          if i > 0 {
            assert ([s[0]] + t)[i] == t[i - 1];
          }
        }
      }
    }
  }

  lemma {:induction false} InsertMultiset(x: RuleChange, s: seq<RuleChange>)
    ensures multiset(Insert(x, s)) == multiset(s) + multiset{x}
  {
    if |s| > 0 {
      assert s == [s[0]] + s[1..];
      if s[0].change >= x.change {
        InsertMultiset(x, s[1..]);
      }
    }
  }

  lemma WithChangeCons(x: RuleChange, s: seq<RuleChange>, v: int)
    ensures WithChange([x] + s, v) == (if x.change == v then [x] else []) + WithChange(s, v)
  {
    assert ([x] + s)[1..] == s;
  }

  /** In a sorted sequence that starts below `v`, no row has change `v`. */
  lemma {:induction false} NoneWithChange(s: seq<RuleChange>, v: int)
    requires SortedByChange(s) && |s| > 0 && s[0].change < v
    ensures WithChange(s, v) == []
  {
    if |s| > 1 {
      assert SortedByChange(s[1..]);
      NoneWithChange(s[1..], v);
    }
  }

  /** Inserting into a sorted sequence puts `x` after every row with its
      change. */
  lemma {:induction false} InsertWithChange(x: RuleChange, s: seq<RuleChange>, v: int)
    requires SortedByChange(s)
    ensures WithChange(Insert(x, s), v) == WithChange(s, v) + (if x.change == v then [x] else [])
  {
    if |s| == 0 {
      WithChangeCons(x, s, v);
    } else if s[0].change < x.change {
      WithChangeCons(x, s, v);
      if x.change == v {
        NoneWithChange(s, v);
      }
    } else {
      assert SortedByChange(s[1..]);
      InsertWithChange(x, s[1..], v);
      WithChangeCons(s[0], Insert(x, s[1..]), v);
      assert s == [s[0]] + s[1..];
      WithChangeCons(s[0], s[1..], v);
    }
  }

  lemma {:induction false} WithChangeAppend(a: seq<RuleChange>, b: seq<RuleChange>, v: int)
    ensures WithChange(a + b, v) == WithChange(a, v) + WithChange(b, v)
  {
    if |a| > 0 {
      assert (a + b)[1..] == a[1..] + b;
      WithChangeAppend(a[1..], b, v);
    } else {
      assert a + b == b;
    }
  }

  /** The sort orders the rows by change, largest first, keeps every row, and
      is stable: the rows with any one change keep their original order. */
  lemma SortByChangeSpec(rows: seq<RuleChange>)
    ensures SortedByChange(SortByChange(rows))
    ensures multiset(SortByChange(rows)) == multiset(rows)
    ensures forall v :: WithChange(SortByChange(rows), v) == WithChange(rows, v)
  {
    SortIsSorted(rows);
    SortPermutes(rows);
    forall v
      ensures WithChange(SortByChange(rows), v) == WithChange(rows, v)
    {
      SortIsStable(rows, v);
    }
  }

  lemma {:induction false} SortIsSorted(rows: seq<RuleChange>)
    ensures SortedByChange(SortByChange(rows))
  {
    if |rows| > 0 {
      SortIsSorted(rows[..|rows| - 1]);
      InsertSorted(rows[|rows| - 1], SortByChange(rows[..|rows| - 1]));
    }
  }

  lemma {:induction false} SortPermutes(rows: seq<RuleChange>)
    ensures multiset(SortByChange(rows)) == multiset(rows)
  {
    if |rows| > 0 {
      var n := |rows| - 1;
      SortPermutes(rows[..n]);
      InsertMultiset(rows[n], SortByChange(rows[..n]));
      assert rows == rows[..n] + [rows[n]];
      assert multiset(rows) == multiset(rows[..n]) + multiset{rows[n]};
    }
  }

  lemma {:induction false} SortIsStable(rows: seq<RuleChange>, v: int)
    ensures WithChange(SortByChange(rows), v) == WithChange(rows, v)
  {
    if |rows| > 0 {
      var n := |rows| - 1;
      var init := rows[..n];
      SortIsStable(init, v);
      SortIsSorted(init);
      InsertLastWithChange(rows[n], SortByChange(init), init, v);
      assert rows == init + [rows[n]];
    }
  }

  /** Inserting `x` into a sorted copy of `init` that keeps each change's rows
      in order gives the rows of `init + [x]` with that change, in order. */
  lemma InsertLastWithChange(x: RuleChange, sorted: seq<RuleChange>, init: seq<RuleChange>, v: int)
    requires SortedByChange(sorted) && WithChange(sorted, v) == WithChange(init, v)
    ensures WithChange(Insert(x, sorted), v) == WithChange(init + [x], v)
  {
    InsertWithChange(x, sorted, v);
    WithChangeAppend(init, [x], v);
    WithChangeCons(x, [], v);
    assert [x] + [] == [x];
  }

  // ---------------------------------------------------------------------------
  // Highlights
  // ---------------------------------------------------------------------------

  /** The rows with a positive change, in order. */
  function Gains(s: seq<RuleChange>): (r: seq<RuleChange>)
    ensures |r| <= |s|
    ensures forall k :: 0 <= k < |r| ==> r[k].change > 0 && r[k] in s
  {
    if |s| == 0 then [] else (if s[0].change > 0 then [s[0]] else []) + Gains(s[1..])
  }

  /** The rule highlights: the first three rows of the sorted comparison, of
      which those with a gain. */
  function TopImprovements(changes: seq<RuleChange>): (r: seq<RuleChange>)
    ensures |r| <= 3
    ensures forall k :: 0 <= k < |r| ==> r[k].change > 0 && r[k] in changes
  {
    var sorted := SortByChange(changes);
    var top := sorted[..if |sorted| < 3 then |sorted| else 3];
    var r := Gains(top);
    SortByChangeSpec(changes);
    forall k | 0 <= k < |r| ensures r[k] in changes {
      assert r[k] in multiset(sorted);
    }
    r
  }

  lemma GainsCons(x: RuleChange, t: seq<RuleChange>)
    ensures Gains([x] + t) == (if x.change > 0 then [x] else []) + Gains(t)
  {
    assert ([x] + t)[1..] == t;
  }

  /** A sorted sequence that starts without a gain has none at all. */
  lemma NoGainsBelow(s: seq<RuleChange>)
    requires SortedByChange(s) && |s| > 0 && s[0].change <= 0
    ensures Gains(s) == []
  {
  }

  /** The gains among the first `m` rows of a sorted sequence are its first
      gains, as many as fit in `m`. */
  lemma {:induction false} GainsOfPrefix(s: seq<RuleChange>, m: nat)
    requires SortedByChange(s) && m <= |s|
    ensures var G := |Gains(s)|;
      Gains(s[..m]) == s[..if G < m then G else m]
  {
    if m > 0 {
      var top := s[..m];
      assert SortedByChange(top);
      if s[0].change > 0 {
        var x, rest := s[0], s[1..];
        var t := rest[..m - 1];
        assert SortedByChange(rest);
        GainsOfPrefix(rest, m - 1);
        assert top == [x] + t;
        GainsCons(x, t);
        assert s == [x] + rest;
        GainsCons(x, rest);
        var n := if |Gains(rest)| < m - 1 then |Gains(rest)| else m - 1;
        assert s[..n + 1] == [x] + rest[..n];
      } else {
        NoGainsBelow(s);
        NoGainsBelow(top);
      }
    }
  }

  /** How many rows have a gain. */
  function GainCount(s: seq<RuleChange>): nat {
    if |s| == 0 then 0 else (if s[0].change > 0 then 1 else 0) + GainCount(s[1..])
  }

  lemma {:induction false} GainCountIsLength(s: seq<RuleChange>)
    ensures |Gains(s)| == GainCount(s)
  {
    if |s| > 0 {
      GainCountIsLength(s[1..]);
    }
  }

  lemma GainCountCons(x: RuleChange, t: seq<RuleChange>)
    ensures GainCount([x] + t) == (if x.change > 0 then 1 else 0) + GainCount(t)
  {
    assert ([x] + t)[1..] == t;
  }

  lemma {:induction false} GainCountAppend(a: seq<RuleChange>, b: seq<RuleChange>)
    ensures GainCount(a + b) == GainCount(a) + GainCount(b)
  {
    if |a| > 0 {
      assert (a + b)[1..] == a[1..] + b;
      GainCountAppend(a[1..], b);
    } else {
      assert a + b == b;
    }
  }

  /** Inserting a row adds one gain exactly when the row is a gain. */
  lemma {:induction false} InsertGainCount(x: RuleChange, s: seq<RuleChange>)
    ensures GainCount(Insert(x, s)) == GainCount(s) + (if x.change > 0 then 1 else 0)
  {
    if |s| == 0 || s[0].change < x.change {
      GainCountCons(x, s);
    } else {
      InsertGainCount(x, s[1..]);
      GainCountCons(s[0], Insert(x, s[1..]));
      assert s == [s[0]] + s[1..];
      GainCountCons(s[0], s[1..]);
    }
  }

  /** Sorting keeps the number of gains. */
  lemma {:induction false} SortGainCount(rows: seq<RuleChange>)
    ensures GainCount(SortByChange(rows)) == GainCount(rows)
  {
    if |rows| > 0 {
      var n := |rows| - 1;
      var init, x := rows[..n], rows[n];
      SortGainCount(init);
      InsertGainCount(x, SortByChange(init));
      assert rows == init + [x];
      GainCountAppend(init, [x]);
      GainCountCons(x, []);
      assert [x] + [] == [x];
    }
  }

  /** The rule highlights are the start of the sorted comparison: the largest
      gains, at most three of them, as many as there are gains up to three. */
  lemma TopImprovementsAreLargestGains(changes: seq<RuleChange>)
    ensures var r, sorted := TopImprovements(changes), SortByChange(changes);
      r == sorted[..|r|] &&
      |r| == (if GainCount(changes) < 3 then GainCount(changes) else 3)
  {
    var sorted := SortByChange(changes);
    SortByChangeSpec(changes);
    var m := if |sorted| < 3 then |sorted| else 3;
    GainsOfPrefix(sorted, m);
    GainCountIsLength(sorted);
    SortGainCount(changes);
    assert |sorted| == |changes| by {
      assert |multiset(sorted)| == |multiset(changes)|;
    }
  }

  /** With gains of 2, 3 and 2, a zero and a loss, the highlights are the
      gain of 3 and then the two gains of 2 in their original order. */
  lemma TopImprovementsExample()
    ensures TopImprovements([RuleChange("P1", 3, 5, 2), RuleChange("C5", 5, 3, -2), RuleChange("P2", 0, 3, 3),
                             RuleChange("P3", 2, 4, 2), RuleChange("R7", 3, 3, 0)]) ==
      [RuleChange("P2", 0, 3, 3), RuleChange("P1", 3, 5, 2), RuleChange("P3", 2, 4, 2)]
  {
    ExampleTop(RuleChange("P1", 3, 5, 2), RuleChange("C5", 5, 3, -2), RuleChange("P2", 0, 3, 3),
               RuleChange("P3", 2, 4, 2), RuleChange("R7", 3, 3, 0));
  }

  /** The example's selection, for any rows with its changes. */
  lemma ExampleTop(a: RuleChange, b: RuleChange, c: RuleChange, d: RuleChange, e: RuleChange)
    requires a.change == 2 && b.change == -2 && c.change == 3 && d.change == 2 && e.change == 0
    ensures TopImprovements([a, b, c, d, e]) == [c, a, d]
  {
    ExampleSort(a, b, c, d, e);
    var top := [c, a, d, e, b][..3];
    assert top == [c, a, d];
    assert [c, a, d][1..] == [a, d] && [a, d][1..] == [d] && [d][1..] == [];
    assert Gains([d]) == [d];
    assert Gains([a, d]) == [a, d];
  }

  lemma ExampleSort(a: RuleChange, b: RuleChange, c: RuleChange, d: RuleChange, e: RuleChange)
    requires a.change == 2 && b.change == -2 && c.change == 3 && d.change == 2 && e.change == 0
    ensures SortByChange([a, b, c, d, e]) == [c, a, d, e, b]
  {
    ExampleSortFirstThree(a, b, c);
    SortSnoc([a, b, c], d);
    assert [a, b, c] + [d] == [a, b, c, d];
    ExampleInsertFourth(a, b, c, d);
    SortSnoc([a, b, c, d], e);
    assert [a, b, c, d] + [e] == [a, b, c, d, e];
    ExampleInsertFifth(a, b, c, d, e);
  }

  lemma ExampleSortFirstThree(a: RuleChange, b: RuleChange, c: RuleChange)
    requires a.change == 2 && b.change == -2 && c.change == 3
    ensures SortByChange([a, b, c]) == [c, a, b]
  {
    SortSnoc([], a);
    assert [] + [a] == [a];
    assert Insert(a, []) == [a];
    SortSnoc([a], b);
    assert [a] + [b] == [a, b];
    assert [a][1..] == [];
    assert Insert(b, [a]) == [a, b];
    SortSnoc([a, b], c);
    assert [a, b] + [c] == [a, b, c];
  }

  lemma ExampleInsertFourth(a: RuleChange, b: RuleChange, c: RuleChange, d: RuleChange)
    requires a.change == 2 && b.change == -2 && c.change == 3 && d.change == 2
    ensures Insert(d, [c, a, b]) == [c, a, d, b]
  {
    assert [c, a, b][1..] == [a, b] && [a, b][1..] == [b];
    assert Insert(d, [b]) == [d, b];
    assert Insert(d, [a, b]) == [a, d, b];
  }

  lemma ExampleInsertFifth(a: RuleChange, b: RuleChange, c: RuleChange, d: RuleChange, e: RuleChange)
    requires a.change == 2 && b.change == -2 && c.change == 3 && d.change == 2 && e.change == 0
    ensures Insert(e, [c, a, d, b]) == [c, a, d, e, b]
  {
    assert [c, a, d, b][1..] == [a, d, b] && [a, d, b][1..] == [d, b] && [d, b][1..] == [b];
    assert Insert(e, [b]) == [e, b];
    assert Insert(e, [d, b]) == [d, e, b];
    assert Insert(e, [a, d, b]) == [a, d, e, b];
  }

  /** Sorting a sequence that ends in `x` inserts `x` into the sorted rest. */
  lemma SortSnoc(init: seq<RuleChange>, x: RuleChange)
    ensures SortByChange(init + [x]) == Insert(x, SortByChange(init))
  {
    assert (init + [x])[..|init|] == init;
  }

  /** One line of the improvement summary. */
  datatype Highlight =
    | TotalRaised(from: int, to: int, delta: int)
    | PercentageRaised(fromPercent: real, toPercent: real, deltaPercent: real)
    | RuleImproved(rule: RuleId, original: int, improved: int, change: int)

  /** The improvement summary: the total and percentage lines when the total
      went up, then one line per rule highlight. */
  function Highlights(original: Report, improved: Report): (r: seq<Highlight>)
    ensures var delta, top := TotalDelta(original, improved), TopImprovements(Compare(original, improved).changes);
      |r| == (if delta > 0 then 2 else 0) + |top| && |r| <= 5 &&
      (delta > 0 ==>
        r[0] == TotalRaised(original.total, improved.total, delta) &&
        r[1] == PercentageRaised(original.percentage, improved.percentage, improved.percentage - original.percentage)) &&
      (delta <= 0 ==> forall k :: 0 <= k < |r| ==> r[k].RuleImproved?) &&
      (forall k :: 0 <= k < |top| ==>
        var h := r[|r| - |top| + k];
        h.RuleImproved? && h.rule == top[k].rule && h.original == top[k].original &&
        h.improved == top[k].improved && h.change == top[k].change && h.change > 0)
  {
    var delta := TotalDelta(original, improved);
    var head := if delta > 0 then
      [TotalRaised(original.total, improved.total, delta),
       PercentageRaised(original.percentage, improved.percentage, improved.percentage - original.percentage)]
    else [];
    var top := TopImprovements(Compare(original, improved).changes);
    head + seq(|top|, k requires 0 <= k < |top| => RuleImproved(top[k].rule, top[k].original, top[k].improved, top[k].change))
  }
}
