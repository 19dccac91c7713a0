/** The inference and learning engine of project/engine.py: F1 scoring of
    every rule against the user's symptoms, weighted by a Laplace-smoothed
    historical precision, and the feedback updates of the history. */
module Engine {
  import opened Knowledge
  import opened StableSort
  import opened Ratio

  /** The name reported for a rule whose solution id resolves to nothing. */
  const UnknownSolution: string := "Solução desconhecida"

  /** The default `penalty_factor` of `update_history`. */
  const DefaultPenaltyFactor: real := 0.1

  /** The penalty the consultation passes for the solutions not chosen. */
  const NotChosenPenalty: real := 0.1

  // ----- scoring one rule -----

  /** Rule coverage (`precision_rule`), query coverage (`user_recall`) and
      their harmonic mean (`match`, the F1 adherence). */
  datatype Coverage = Coverage(rulePrecision: real, userRecall: real, matchScore: real)

  /** The coverage of a rule's symptom set by the user's symptom set. */
  function Assess(ruleSet: set<int>, userSet: set<int>): (c: Coverage)
    ensures 0.0 <= c.rulePrecision <= 1.0 && 0.0 <= c.userRecall <= 1.0
    ensures 0.0 <= c.matchScore <= 1.0
  {
    if ruleSet == {} then Coverage(0.0, 0.0, 0.0)
    else
      var inter := |ruleSet * userSet|;
      CardIntersection(ruleSet, userSet);
      var p := inter as real / |ruleSet| as real;
      assert 0.0 <= p <= 1.0 by {
        DivLe(inter as real, |ruleSet| as real, 1.0, 1.0);
        DivLe(0.0, 1.0, inter as real, |ruleSet| as real);
      }
      var r := if |userSet| > 0 then inter as real / |userSet| as real else 0.0;
      assert 0.0 <= r <= 1.0 by {
        if |userSet| > 0 {
          DivLe(inter as real, |userSet| as real, 1.0, 1.0);
          DivLe(0.0, 1.0, inter as real, |userSet| as real);
        }
      }
      var m := if p + r == 0.0 then 0.0 else 2.0 * (p * r) / (p + r);
      HarmonicMeanBounds(p, r);
      Coverage(p, r, m)
  }

  lemma CardSubset(a: set<int>, b: set<int>)
    requires a <= b
    ensures |b| == |a| + |b - a|
  {
    assert b == a + (b - a);
  }

  lemma CardIntersection(a: set<int>, b: set<int>)
    ensures |a * b| <= |a| && |a * b| <= |b|
  {
    CardSubset(a * b, a);
    CardSubset(a * b, b);
  }

  lemma HarmonicMeanBounds(p: real, r: real)
    requires 0.0 <= p <= 1.0 && 0.0 <= r <= 1.0
    ensures p + r != 0.0 ==> 0.0 <= 2.0 * (p * r) / (p + r) <= 1.0
  {
    if p + r != 0.0 {
      var x := p * r;
      MulLeRight(r, 1.0, p);
      assert x <= p;
      MulLeRight(p, 1.0, r);
      assert x <= r;
      MulNonNegative(p, r);
      var q := 2.0 * x / (p + r);
      assert q * (p + r) == 2.0 * x;
      if q > 1.0 { MulLtRight(1.0, q, p + r); }
      if q < 0.0 { MulLtRight(q, 0.0, p + r); }
    }
  }

  lemma HarmonicMeanOfRatios(i: real, s: real, u: real)
    requires i > 0.0 && s > 0.0 && u > 0.0
    ensures 2.0 * ((i / s) * (i / u)) / (i / s + i / u) == 2.0 * i / (s + u)
  {
    var a, b := i / s, i / u;
    assert a * s == i && b * u == i;
    assert a * b * s == b * i by { assert a * b * s == b * (a * s); }
    assert a * b * u == a * i by { assert a * b * u == a * (b * u); }
    assert (2.0 * (a * b)) * (s + u) == (2.0 * i) * (a + b);
    MulNonNegative(i, 1.0 / s);
    assert a > 0.0 && b > 0.0;
    DivEq(2.0 * (a * b), a + b, 2.0 * i, s + u);
  }

  /** A rule with symptoms scores the closed-form F1 2|S∩U| / (|S| + |U|). */
  lemma MatchClosedForm(ruleSet: set<int>, userSet: set<int>)
    requires ruleSet != {}
    ensures Assess(ruleSet, userSet).matchScore
         == 2.0 * (|ruleSet * userSet| as real) / ((|ruleSet| + |userSet|) as real)
  {
    var i := |ruleSet * userSet|;
    CardIntersection(ruleSet, userSet);
    var ir, sr, ur := i as real, |ruleSet| as real, |userSet| as real;
    var c := Assess(ruleSet, userSet);
    assert ((|ruleSet| + |userSet|) as real) == sr + ur;
    if i > 0 {
      var p, r := ir / sr, ir / ur;
      assert c.rulePrecision == p && c.userRecall == r;
      DivLt(0.0, 1.0, ir, sr);
      assert p + r != 0.0;
      assert c.matchScore == 2.0 * (p * r) / (p + r);
      HarmonicMeanOfRatios(ir, sr, ur);
    } else {
      assert c.rulePrecision == 0.0 && c.userRecall == 0.0;
      assert c.matchScore == 0.0;
      assert 2.0 * ir == 0.0;
    }
  }

  /** A rule matches at all exactly when it shares a symptom with the query;
      a rule without symptoms never matches. */
  lemma MatchPositiveIffOverlap(ruleSet: set<int>, userSet: set<int>)
    ensures Assess(ruleSet, userSet).matchScore > 0.0 <==> |ruleSet * userSet| > 0
  {
    if ruleSet != {} {
      MatchClosedForm(ruleSet, userSet);
    } else {
      assert ruleSet * userSet == {};
    }
  }

  lemma SubsetEqualCard(a: set<int>, b: set<int>)
    requires a <= b && |a| == |b|
    ensures a == b
  {
    CardSubset(a, b);
    assert b - a == {};
  }

  /** The adherence is 1 exactly when the rule's symptoms are the query. */
  lemma {:induction false} MatchOneIffEqual(ruleSet: set<int>, userSet: set<int>)
    ensures Assess(ruleSet, userSet).matchScore == 1.0 <==> ruleSet != {} && ruleSet == userSet
  {
    if ruleSet != {} {
      MatchClosedForm(ruleSet, userSet);
      CardIntersection(ruleSet, userSet);
      var i, s, u := |ruleSet * userSet|, |ruleSet|, |userSet|;
      if Assess(ruleSet, userSet).matchScore == 1.0 {
        assert 2 * i == s + u;
        SubsetEqualCard(ruleSet * userSet, ruleSet);
        SubsetEqualCard(ruleSet * userSet, userSet);
      }
      if ruleSet == userSet {
        assert ruleSet * userSet == ruleSet;
      }
    }
  }

  // ----- historical precision -----

  /** `_get_precision`: 0.5 with no record or no recorded weight, otherwise
      the Laplace estimate (success + 1) / (success + fail + 2). */
  function HistoricalPrecision(h: History, ruleId: int): (c: real)
    requires NonNegative(h)
    ensures 0.0 < c < 1.0
  {
    if ruleId !in h then 0.5
    else
      var total := h[ruleId].Success() + h[ruleId].Fail();
      if total == 0.0 then 0.5
      else (h[ruleId].Success() + 1.0) / (total + 2.0)
  }

  /** Both branches that return 0.5 agree with the Laplace estimate, so the
      precision is always (s + 1) / (s + f + 2) of the counters as read. */
  lemma PrecisionIsLaplace(h: History, ruleId: int)
    requires NonNegative(h)
    ensures HistoricalPrecision(h, ruleId)
         == (SuccessOf(h, ruleId) + 1.0) / (SuccessOf(h, ruleId) + FailOf(h, ruleId) + 2.0)
  {
    if ruleId in h {
      var s, f := h[ruleId].Success(), h[ruleId].Fail();
      if s + f == 0.0 {
        assert s == 0.0 && f == 0.0;
      }
    }
  }

  /** (s + 1) / (s + f + 2) does not decrease with s and does not increase with f. */
  lemma LaplaceMonotone(s: real, f: real, s': real, f': real)
    requires 0.0 <= s <= s' && 0.0 <= f' <= f
    ensures (s + 1.0) / (s + f + 2.0) <= (s' + 1.0) / (s' + f' + 2.0)
  {
    MulLeRight(s + 1.0, s' + 1.0, f' + 1.0);
    MulLeRight(f' + 1.0, f + 1.0, s' + 1.0);
    assert (s + 1.0) * (s' + f' + 2.0) == (s + 1.0) * (s' + 1.0) + (s + 1.0) * (f' + 1.0);
    assert (s' + 1.0) * (s + f + 2.0) == (s' + 1.0) * (s + 1.0) + (s' + 1.0) * (f + 1.0);
    DivLe(s + 1.0, s + f + 2.0, s' + 1.0, s' + f' + 2.0);
  }

  /** More success never lowers the precision, more failure never raises it. */
  lemma PrecisionMonotone(h: History, h': History, ruleId: int)
    requires NonNegative(h) && NonNegative(h')
    requires SuccessOf(h, ruleId) <= SuccessOf(h', ruleId)
    requires FailOf(h', ruleId) <= FailOf(h, ruleId)
    ensures HistoricalPrecision(h, ruleId) <= HistoricalPrecision(h', ruleId)
  {
    PrecisionIsLaplace(h, ruleId);
    PrecisionIsLaplace(h', ruleId);
    LaplaceMonotone(SuccessOf(h, ruleId), FailOf(h, ruleId), SuccessOf(h', ruleId), FailOf(h', ruleId));
  }

  // ----- resolving a rule's solution -----

  /** `_find_solution`: the name of the first solution with the id, or the
      placeholder when there is none. */
  function FindSolution(solutions: seq<Solution>, solId: int): (name: string)
    ensures forall i | 0 <= i < |solutions| && solutions[i].id == solId ::
              (forall j | 0 <= j < i :: solutions[j].id != solId) ==> name == solutions[i].name
    ensures (forall i | 0 <= i < |solutions| :: solutions[i].id != solId) ==> name == UnknownSolution
  {
    if solutions == [] then UnknownSolution
    else if solutions[0].id == solId then solutions[0].name
    else
      var name := FindSolution(solutions[1..], solId);
      assert forall i | 1 <= i < |solutions| :: solutions[i] == solutions[1..][i - 1];
      name
  }

  // ----- scoring all rules -----

  /** One entry of the result: the fields of the dictionary built for a rule
      (before the display rounding). `precision` is the historical precision
      and `matchScore` the F1 adherence. */
  datatype Match = Match(ruleId: int, solution: string, score: real, precision: real,
                         matchScore: real, rulePrecision: real, userRecall: real)

  function ScoreOf(m: Match): real { m.score }

  /** `score = match * hist_precision`: the adherence weighted by the
      historical precision, so never above the adherence. */
  function Weighted(adherence: real, precision: real): (score: real)
    ensures 0.0 <= adherence && 0.0 <= precision <= 1.0 ==> 0.0 <= score <= adherence
  {
    ScaledBound(adherence, precision);
    adherence * precision
  }

  /** The entry built for one rule. */
  function Evaluate(rule: Rule, solutions: seq<Solution>, h: History, userSet: set<int>): (m: Match)
    requires NonNegative(h)
    ensures m.ruleId == rule.id && m.solution == FindSolution(solutions, rule.solution)
    ensures 0.0 <= m.score <= m.matchScore <= 1.0
    ensures m.precision == HistoricalPrecision(h, rule.id)
    ensures Coverage(m.rulePrecision, m.userRecall, m.matchScore) == Assess(SymptomSet(rule.symptoms), userSet)
    ensures m.score == Weighted(m.matchScore, m.precision)
    ensures m.matchScore > 0.0 <==> |SymptomSet(rule.symptoms) * userSet| > 0
  {
    var ruleSet := SymptomSet(rule.symptoms);
    var c := Assess(ruleSet, userSet);
    MatchPositiveIffOverlap(ruleSet, userSet);
    var conf := HistoricalPrecision(h, rule.id);
    Match(rule.id, FindSolution(solutions, rule.solution), Weighted(c.matchScore, conf), conf,
          c.matchScore, c.rulePrecision, c.userRecall)
  }

  /** The entries of all rules, in knowledge-base order. */
  function ScoreAll(rules: seq<Rule>, solutions: seq<Solution>, h: History, userSet: set<int>): (ms: seq<Match>)
    requires NonNegative(h)
    ensures |ms| == |rules|
    ensures forall m | m in ms :: 0.0 <= m.score <= m.matchScore <= 1.0 && 0.0 < m.precision < 1.0
  {
    if rules == [] then []
    else ScoreAll(rules[..|rules| - 1], solutions, h, userSet)
         + [Evaluate(rules[|rules| - 1], solutions, h, userSet)]
  }

  lemma ScoreAllSnoc(rules: seq<Rule>, solutions: seq<Solution>, h: History, userSet: set<int>, i: int)
    requires NonNegative(h) && 0 <= i < |rules|
    ensures ScoreAll(rules[..i + 1], solutions, h, userSet)
         == ScoreAll(rules[..i], solutions, h, userSet) + [Evaluate(rules[i], solutions, h, userSet)]
  {
    assert rules[..i + 1][..i] == rules[..i];
  }

  /** `[m for m in matched if m["match"] > 0]`. */
  function Relevant(ms: seq<Match>): (r: seq<Match>)
    ensures forall m | m in r :: m in ms && m.matchScore > 0.0
  {
    if ms == [] then []
    else Relevant(ms[..|ms| - 1]) + (if ms[|ms| - 1].matchScore > 0.0 then [ms[|ms| - 1]] else [])
  }

  /** The rules that share at least one distinct symptom with the query, in order. */
  function Overlapping(rules: seq<Rule>, userSet: set<int>): seq<Rule> {
    if rules == [] then []
    else Overlapping(rules[..|rules| - 1], userSet)
         + (if |SymptomSet(rules[|rules| - 1].symptoms) * userSet| > 0 then [rules[|rules| - 1]] else [])
  }

  /** The value `match_solutions` returns (up to rounding). */
  function Ranking(rules: seq<Rule>, solutions: seq<Solution>, h: History, userSet: set<int>): seq<Match>
    requires NonNegative(h)
  {
    SortByKeyDesc(Relevant(ScoreAll(rules, solutions, h, userSet)), ScoreOf)
  }

  lemma ScoreAllAppend(rules: seq<Rule>, r: Rule, solutions: seq<Solution>, h: History, userSet: set<int>)
    requires NonNegative(h)
    ensures ScoreAll(rules + [r], solutions, h, userSet)
         == ScoreAll(rules, solutions, h, userSet) + [Evaluate(r, solutions, h, userSet)]
  {
    assert (rules + [r])[..|rules|] == rules;
  }

  lemma RelevantAppend(ms: seq<Match>, m: Match)
    ensures Relevant(ms + [m]) == Relevant(ms) + (if m.matchScore > 0.0 then [m] else [])
  {
    assert (ms + [m])[..|ms|] == ms;
  }

  lemma {:induction false} RelevantIsOverlapping(rules: seq<Rule>, solutions: seq<Solution>, h: History, userSet: set<int>)
    requires NonNegative(h)
    ensures Relevant(ScoreAll(rules, solutions, h, userSet))
         == ScoreAll(Overlapping(rules, userSet), solutions, h, userSet)
  {
    if rules != [] {
      var init, last := rules[..|rules| - 1], rules[|rules| - 1];
      assert rules == init + [last];
      RelevantIsOverlapping(init, solutions, h, userSet);
      var e := Evaluate(last, solutions, h, userSet);
      var before := ScoreAll(init, solutions, h, userSet);
      ScoreAllAppend(init, last, solutions, h, userSet);
      RelevantAppend(before, e);
      var ov := Overlapping(init, userSet);
      var overlaps := |SymptomSet(last.symptoms) * userSet| > 0;
      assert Overlapping(rules, userSet) == ov + (if overlaps then [last] else []);
      if overlaps {
        ScoreAllAppend(ov, last, solutions, h, userSet);
      } else {
        assert ov + [] == ov;
      }
    }
  }

  /** The result holds exactly one entry for each rule that shares a
      symptom with the query (as many as there are such rules). */
  lemma RankingEntries(rules: seq<Rule>, solutions: seq<Solution>, h: History, userSet: set<int>)
    requires NonNegative(h)
    ensures multiset(Ranking(rules, solutions, h, userSet))
         == multiset(ScoreAll(Overlapping(rules, userSet), solutions, h, userSet))
  {
    RelevantIsOverlapping(rules, solutions, h, userSet);
    SortPermutes(Relevant(ScoreAll(rules, solutions, h, userSet)), ScoreOf);
  }

  /** The result is ordered by non-increasing final score. */
  lemma RankingSorted(rules: seq<Rule>, solutions: seq<Solution>, h: History, userSet: set<int>)
    requires NonNegative(h)
    ensures var r := Ranking(rules, solutions, h, userSet);
            forall i, j | 0 <= i < j < |r| :: r[i].score >= r[j].score
  {
    var r := Ranking(rules, solutions, h, userSet);
    SortSorted(Relevant(ScoreAll(rules, solutions, h, userSet)), ScoreOf);
    forall i, j | 0 <= i < j < |r| ensures r[i].score >= r[j].score {
      assert ScoreOf(r[i]) >= ScoreOf(r[j]);
    }
  }

  /** Ties keep knowledge-base order: the entries with any one score appear
      in the order of their rules. */
  lemma RankingStable(rules: seq<Rule>, solutions: seq<Solution>, h: History, userSet: set<int>, k: real)
    requires NonNegative(h)
    ensures WithKey(Ranking(rules, solutions, h, userSet), ScoreOf, k)
         == WithKey(ScoreAll(Overlapping(rules, userSet), solutions, h, userSet), ScoreOf, k)
  {
    RelevantIsOverlapping(rules, solutions, h, userSet);
    SortStable(Relevant(ScoreAll(rules, solutions, h, userSet)), ScoreOf, k);
  }

  lemma {:induction false} ScoreAllAt(rules: seq<Rule>, solutions: seq<Solution>, h: History, userSet: set<int>, i: int)
    requires NonNegative(h) && 0 <= i < |rules|
    ensures ScoreAll(rules, solutions, h, userSet)[i] == Evaluate(rules[i], solutions, h, userSet)
  {
    if i < |rules| - 1 {
      ScoreAllAt(rules[..|rules| - 1], solutions, h, userSet, i);
    }
  }

  lemma {:induction false} OverlappingMembers(rules: seq<Rule>, userSet: set<int>)
    ensures forall r | r in Overlapping(rules, userSet) :: r in rules && |SymptomSet(r.symptoms) * userSet| > 0
    ensures forall r | r in rules && |SymptomSet(r.symptoms) * userSet| > 0 :: r in Overlapping(rules, userSet)
  {
    if rules != [] {
      OverlappingMembers(rules[..|rules| - 1], userSet);
      assert rules == rules[..|rules| - 1] + [rules[|rules| - 1]];
    }
  }

  lemma {:induction false} ScoreAllMembers(rules: seq<Rule>, solutions: seq<Solution>, h: History, userSet: set<int>, m: Match)
    requires NonNegative(h)
    ensures m in ScoreAll(rules, solutions, h, userSet) <==> exists r | r in rules :: m == Evaluate(r, solutions, h, userSet)
  {
    if rules != [] {
      var init, last := rules[..|rules| - 1], rules[|rules| - 1];
      assert rules == init + [last];
      ScoreAllMembers(init, solutions, h, userSet, m);
      ScoreAllAppend(init, last, solutions, h, userSet);
      if exists r | r in rules :: m == Evaluate(r, solutions, h, userSet) {
        var r :| r in rules && m == Evaluate(r, solutions, h, userSet);
        if r != last { assert r in init; }
      }
    }
  }

  /** Each entry of the result is the entry of a rule sharing a symptom with
      the query, and every such rule has its entry there: its id, its
      solution's name and its scores. */
  lemma RankingMembers(rules: seq<Rule>, solutions: seq<Solution>, h: History, userSet: set<int>, m: Match)
    requires NonNegative(h)
    ensures m in Ranking(rules, solutions, h, userSet)
        <==> exists r | r in rules :: |SymptomSet(r.symptoms) * userSet| > 0 && m == Evaluate(r, solutions, h, userSet)
  {
    RankingEntries(rules, solutions, h, userSet);
    OverlappingMembers(rules, userSet);
    var ov := Overlapping(rules, userSet);
    ScoreAllMembers(ov, solutions, h, userSet, m);
    assert m in Ranking(rules, solutions, h, userSet) <==> m in multiset(ScoreAll(ov, solutions, h, userSet));
  }

  /** Every entry shown has a positive adherence, a historical precision
      strictly between 0 and 1, and a score no larger than its adherence. */
  lemma RankingPositive(rules: seq<Rule>, solutions: seq<Solution>, h: History, userSet: set<int>)
    requires NonNegative(h)
    ensures forall m | m in Ranking(rules, solutions, h, userSet) ::
              0.0 < m.matchScore <= 1.0 && 0.0 < m.precision < 1.0 && 0.0 <= m.score <= m.matchScore
  {
    var rel := Relevant(ScoreAll(rules, solutions, h, userSet));
    SortPermutes(rel, ScoreOf);
    forall m | m in Ranking(rules, solutions, h, userSet)
      ensures m in rel
    {
      assert m in multiset(rel);
    }
  }

  lemma {:induction false} EmptyQueryOverlapsNothing(rules: seq<Rule>)
    ensures Overlapping(rules, {}) == []
  {
    if rules != [] {
      EmptyQueryOverlapsNothing(rules[..|rules| - 1]);
      assert SymptomSet(rules[|rules| - 1].symptoms) * {} == {};
    }
  }

  /** No symptoms, no suggestions. */
  lemma EmptyQuery(rules: seq<Rule>, solutions: seq<Solution>, h: History)
    requires NonNegative(h)
    ensures Ranking(rules, solutions, h, {}) == []
  {
    RankingEntries(rules, solutions, h, {});
    EmptyQueryOverlapsNothing(rules);
    assert |multiset(Ranking(rules, solutions, h, {}))| == 0;
  }

  /** A rule without symptoms scores 0 whatever the query, so its entry
      never appears in the result. */
  lemma EmptyRuleNeverShown(rules: seq<Rule>, solutions: seq<Solution>, h: History, userSet: set<int>, rule: Rule)
    requires NonNegative(h) && rule.symptoms == []
    ensures Evaluate(rule, solutions, h, userSet).matchScore == 0.0
    ensures Evaluate(rule, solutions, h, userSet) !in Ranking(rules, solutions, h, userSet)
  {
    assert SymptomSet(rule.symptoms) == {};
    RankingPositive(rules, solutions, h, userSet);
  }

  // ----- the seed rule -----

  /** Rule 1 of the seed knowledge base with its solution and no history:
      the query [1, 2] matches it fully, so it scores 0.5. */
  lemma SeedRuleFullQuery()
    ensures Ranking([Rule(1, [1, 2], 1)], [Solution(1, "verificar fonte de alimentação")], map[], {1, 2})
         == [Match(1, "verificar fonte de alimentação", 0.5, 0.5, 1.0, 1.0, 1.0)]
  {
    var rule := Rule(1, [1, 2], 1);
    var solutions := [Solution(1, "verificar fonte de alimentação")];
    assert NonNegative(map[]);
    assert SymptomSet(rule.symptoms) == {1, 2};
    assert {1, 2} * {1, 2} == {1, 2};
    assert [rule][..0] == [];
    assert Relevant([Evaluate(rule, solutions, map[], {1, 2})]) == [Evaluate(rule, solutions, map[], {1, 2})];
  }

  /** The same rule on the query [1]: it covers half of the rule, giving
      adherence 2/3 and score 1/3. */
  lemma SeedRulePartialQuery()
    ensures Ranking([Rule(1, [1, 2], 1)], [Solution(1, "verificar fonte de alimentação")], map[], {1})
         == [Match(1, "verificar fonte de alimentação", 1.0 / 3.0, 0.5, 2.0 / 3.0, 0.5, 1.0)]
  {
    var rule := Rule(1, [1, 2], 1);
    var solutions := [Solution(1, "verificar fonte de alimentação")];
    assert NonNegative(map[]);
    assert SymptomSet(rule.symptoms) == {1, 2};
    assert {1, 2} * {1} == {1};
    assert [rule][..0] == [];
    assert Relevant([Evaluate(rule, solutions, map[], {1})]) == [Evaluate(rule, solutions, map[], {1})];
  }

  // ----- updating the history -----

  /** The history after `update_history(ruleId, success, penalty)`. */
  function Recorded(h: History, ruleId: int, success: bool, penalty: real): (r: History)
    ensures r.Keys == h.Keys + {ruleId}
    ensures forall k | k in h && k != ruleId :: r[k] == h[k]
    ensures forall k | k != ruleId :: SuccessOf(r, k) == SuccessOf(h, k) && FailOf(r, k) == FailOf(h, k)
    ensures SuccessOf(r, ruleId) == SuccessOf(h, ruleId) + (if success then 1.0 else 0.0)
    ensures FailOf(r, ruleId) == FailOf(h, ruleId) + (if success then 0.0 else penalty)
    ensures NonNegative(h) && (success || penalty >= 0.0) ==> NonNegative(r)
  {
    var rec := if ruleId in h then h[ruleId] else EmptyRecord;
    if success then h[ruleId := rec.(success := Some(rec.Success() + 1.0))]
    else h[ruleId := rec.(fail := Some(rec.Fail() + penalty))]
  }

  /** A success strictly raises the rule's precision. */
  lemma SuccessRaisesPrecision(h: History, ruleId: int, penalty: real)
    requires NonNegative(h)
    ensures HistoricalPrecision(h, ruleId) < HistoricalPrecision(Recorded(h, ruleId, true, penalty), ruleId)
  {
    var h' := Recorded(h, ruleId, true, penalty);
    PrecisionIsLaplace(h, ruleId);
    PrecisionIsLaplace(h', ruleId);
    var s, f := SuccessOf(h, ruleId), FailOf(h, ruleId);
    var d := s + f + 2.0;
    assert (s + 1.0) * (d + 1.0) == s * d + s + d + 1.0;
    assert (s + 2.0) * d == s * d + d + d;
    DivLt(s + 1.0, d, s + 2.0, d + 1.0);
  }

  /** A failure with a positive penalty strictly lowers the rule's precision. */
  lemma FailureLowersPrecision(h: History, ruleId: int, penalty: real)
    requires NonNegative(h) && penalty > 0.0
    ensures HistoricalPrecision(Recorded(h, ruleId, false, penalty), ruleId) < HistoricalPrecision(h, ruleId)
  {
    var h' := Recorded(h, ruleId, false, penalty);
    PrecisionIsLaplace(h, ruleId);
    PrecisionIsLaplace(h', ruleId);
    var s, f := SuccessOf(h, ruleId), FailOf(h, ruleId);
    var d := s + f + 2.0;
    var x, e := s + 1.0, d + penalty;
    assert s >= 0.0 && f >= 0.0 && d > 0.0 && e > 0.0 && x > 0.0;
    MulLtRight(d, e, x);
    assert x * d == d * x && x * e == e * x;
    DivLt(x, e, x, d);
  }

  /** From no history: one success gives 2/3, one full failure 1/3, one
      failure with the default penalty 1/2.1. */
  lemma FirstFeedbackPrecision(ruleId: int)
    ensures HistoricalPrecision(Recorded(map[], ruleId, true, DefaultPenaltyFactor), ruleId) == 2.0 / 3.0
    ensures HistoricalPrecision(Recorded(map[], ruleId, false, 1.0), ruleId) == 1.0 / 3.0
    ensures HistoricalPrecision(Recorded(map[], ruleId, false, DefaultPenaltyFactor), ruleId) == 1.0 / 2.1
  {
    assert NonNegative(map[]);
  }

  // ----- feedback after a consultation -----

  /** The rule ids of the shown entries, in order. */
  function RuleIds(ms: seq<Match>): (ids: seq<int>)
    ensures |ids| == |ms| && forall i | 0 <= i < |ms| :: ids[i] == ms[i].ruleId
  {
    seq(|ms|, i requires 0 <= i < |ms| => ms[i].ruleId)
  }

  /** The history after a failure is recorded for each shown rule in turn,
      skipping the chosen one. */
  function Penalized(h: History, shown: seq<int>, chosen: Option<int>, penalty: real): History {
    if shown == [] then h
    else
      var before := Penalized(h, shown[..|shown| - 1], chosen, penalty);
      var k := shown[|shown| - 1];
      if chosen == Some(k) then before else Recorded(before, k, false, penalty)
  }

  /** The history after the feedback block of a consultation: the chosen
      rule, if any, gets a success and every other shown rule a failure of
      0.1; with no choice every shown rule gets the default failure (0.1). */
  function AfterFeedback(h: History, shown: seq<int>, chosen: Option<int>): History {
    match chosen
    case Some(c) => Penalized(Recorded(h, c, true, DefaultPenaltyFactor), shown, chosen, NotChosenPenalty)
    case None => Penalized(h, shown, None, DefaultPenaltyFactor)
  }

  lemma PenalizedLast(h: History, shown: seq<int>, chosen: Option<int>, penalty: real, k: int)
    requires shown != [] && chosen != Some(k)
    ensures var before := Penalized(h, shown[..|shown| - 1], chosen, penalty);
            var after := Penalized(h, shown, chosen, penalty);
            SuccessOf(after, k) == SuccessOf(before, k)
            && FailOf(after, k) == FailOf(before, k) + (if k == shown[|shown| - 1] then penalty else 0.0)
  {}

  lemma CountLast(shown: seq<int>, k: int)
    requires shown != []
    ensures multiset(shown)[k] == multiset(shown[..|shown| - 1])[k] + (if k == shown[|shown| - 1] then 1 else 0)
  {
    assert shown == shown[..|shown| - 1] + [shown[|shown| - 1]];
  }

  /** The failure weight a rule accumulates when it is penalized `n` times. */
  function Charge(penalty: real, n: nat): real { penalty * (n as real) }

  lemma AddCharge(before: real, after: real, penalty: real, n: nat)
    requires after == before + penalty
    ensures after - Charge(penalty, n + 1) == before - Charge(penalty, n)
  {}

  lemma {:induction false} PenalizedCounts(h: History, shown: seq<int>, chosen: Option<int>, penalty: real, k: int)
    requires chosen != Some(k)
    ensures SuccessOf(Penalized(h, shown, chosen, penalty), k) == SuccessOf(h, k)
    ensures FailOf(Penalized(h, shown, chosen, penalty), k)
         == FailOf(h, k) + Charge(penalty, multiset(shown)[k])
  {
    if shown != [] {
      var init := shown[..|shown| - 1];
      PenalizedCounts(h, init, chosen, penalty, k);
      PenalizedLast(h, shown, chosen, penalty, k);
      CountLast(shown, k);
      var n := multiset(init)[k];
      if k == shown[|shown| - 1] {
        AddCharge(FailOf(Penalized(h, init, chosen, penalty), k), FailOf(Penalized(h, shown, chosen, penalty), k), penalty, n);
      }
    }
  }

  lemma {:induction false} PenalizedUntouched(h: History, shown: seq<int>, chosen: Option<int>, penalty: real, k: int)
    requires chosen == Some(k) || k !in shown
    ensures var r := Penalized(h, shown, chosen, penalty);
            (k in r <==> k in h) && (k in h ==> r[k] == h[k])
  {
    if shown != [] {
      var init := shown[..|shown| - 1];
      assert k in init ==> k in shown;
      PenalizedUntouched(h, init, chosen, penalty, k);
    }
  }

  lemma {:induction false} PenalizedNonNegative(h: History, shown: seq<int>, chosen: Option<int>, penalty: real)
    requires NonNegative(h) && penalty >= 0.0
    ensures NonNegative(Penalized(h, shown, chosen, penalty))
  {
    if shown != [] {
      PenalizedNonNegative(h, shown[..|shown| - 1], chosen, penalty);
    }
  }

  /** The chosen rule gains exactly one success and no failure; every other
      rule gains 0.1 of failure per time it is shown and no success; rules
      neither chosen nor shown are untouched. */
  lemma FeedbackChosen(h: History, shown: seq<int>, c: int)
    ensures var r := AfterFeedback(h, shown, Some(c));
            SuccessOf(r, c) == SuccessOf(h, c) + 1.0 && FailOf(r, c) == FailOf(h, c)
    ensures var r := AfterFeedback(h, shown, Some(c));
            forall k | k != c ::
              SuccessOf(r, k) == SuccessOf(h, k)
              && FailOf(r, k) == FailOf(h, k) + NotChosenPenalty * (multiset(shown)[k] as real)
    ensures var r := AfterFeedback(h, shown, Some(c));
            forall k | k != c && k !in shown :: (k in r <==> k in h) && (k in h ==> r[k] == h[k])
  {
    var h1 := Recorded(h, c, true, DefaultPenaltyFactor);
    PenalizedUntouched(h1, shown, Some(c), NotChosenPenalty, c);
    forall k | k != c
      ensures SuccessOf(AfterFeedback(h, shown, Some(c)), k) == SuccessOf(h, k)
      ensures FailOf(AfterFeedback(h, shown, Some(c)), k)
           == FailOf(h, k) + NotChosenPenalty * (multiset(shown)[k] as real)
    {
      PenalizedCounts(h1, shown, Some(c), NotChosenPenalty, k);
    }
    assert SuccessOf(AfterFeedback(h, shown, Some(c)), c) == SuccessOf(h1, c);
    forall k | k != c && k !in shown
      ensures var r := AfterFeedback(h, shown, Some(c));
              (k in r <==> k in h) && (k in h ==> r[k] == h[k])
    {
      PenalizedUntouched(h1, shown, Some(c), NotChosenPenalty, k);
    }
  }

  /** With no solution chosen, every shown rule gains 0.1 of failure per time
      it is shown (the default penalty; the code passes none) and no success;
      the rules not shown are untouched. */
  lemma FeedbackNoneChosen(h: History, shown: seq<int>)
    ensures var r := AfterFeedback(h, shown, None);
            forall k ::
              SuccessOf(r, k) == SuccessOf(h, k)
              && FailOf(r, k) == FailOf(h, k) + DefaultPenaltyFactor * (multiset(shown)[k] as real)
    ensures var r := AfterFeedback(h, shown, None);
            forall k | k !in shown :: (k in r <==> k in h) && (k in h ==> r[k] == h[k])
  {
    forall k
      ensures SuccessOf(AfterFeedback(h, shown, None), k) == SuccessOf(h, k)
      ensures FailOf(AfterFeedback(h, shown, None), k)
           == FailOf(h, k) + DefaultPenaltyFactor * (multiset(shown)[k] as real)
    {
      PenalizedCounts(h, shown, None, DefaultPenaltyFactor, k);
    }
    forall k | k !in shown
      ensures var r := AfterFeedback(h, shown, None);
              (k in r <==> k in h) && (k in h ==> r[k] == h[k])
    {
      PenalizedUntouched(h, shown, None, DefaultPenaltyFactor, k);
    }
  }

  // ----- the engine object -----

  /** The statement form of `Assess`: the body of the scoring loop of
      `match_solutions` that turns a rule's symptom set into its adherence
      and the two coverages. */
  method ComputeCoverage(ruleSet: set<int>, userSet: set<int>)
    returns (adherence: real, precisionRule: real, recallUser: real)
    ensures Coverage(precisionRule, recallUser, adherence) == Assess(ruleSet, userSet)
  {
    var intersection := |ruleSet * userSet|;
    if ruleSet == {} {
      adherence, precisionRule, recallUser := 0.0, 0.0, 0.0;
    } else {
      precisionRule := intersection as real / |ruleSet| as real;
      recallUser := if |userSet| > 0 then intersection as real / |userSet| as real else 0.0;
      if precisionRule + recallUser == 0.0 {
        adherence := 0.0;
      } else {
        adherence := 2.0 * (precisionRule * recallUser) / (precisionRule + recallUser);
      }
    }
  }

  /** `InferenceEngine`: reads the shared knowledge base and owns the history. */
  class InferenceEngine {
    const kb: KnowledgeBase
    var history: History

    ghost predicate Valid()
      reads this
    {
      NonNegative(history)
    }

    constructor (kb: KnowledgeBase, history: History)
      requires NonNegative(history)
      ensures Valid() && this.kb == kb && this.history == history
    {
      this.kb := kb;
      this.history := history;
    }

    /** `match_solutions`: scores every rule, drops the entries with no
        adherence and sorts the rest by score, highest first, stably. */
    method MatchSolutions(userSymptoms: seq<int>) returns (matched: seq<Match>)
      requires Valid()
      ensures matched == Ranking(kb.rules, kb.solutions, history, SymptomSet(userSymptoms))
    {
      matched := [];
      var userSet := SymptomSet(userSymptoms);
      var rules, solutions := kb.rules, kb.solutions;
      var i := 0;
      while i < |rules|
        invariant 0 <= i <= |rules|
        invariant matched == ScoreAll(rules[..i], solutions, history, userSet)
      {
        var rule := rules[i];
        var ruleSet := SymptomSet(rule.symptoms);
        var adherence, precisionRule, recallUser := ComputeCoverage(ruleSet, userSet);
        var histPrecision := HistoricalPrecision(history, rule.id);
        var score := Weighted(adherence, histPrecision);
        var sol := FindSolution(solutions, rule.solution);
        var entry := Match(rule.id, sol, score, histPrecision, adherence, precisionRule, recallUser);
        assert entry == Evaluate(rule, solutions, history, userSet);
        ScoreAllSnoc(rules, solutions, history, userSet, i);
        matched := matched + [entry];
        i := i + 1;
      }
      assert rules[..i] == rules;
      matched := Relevant(matched);
      matched := SortByKeyDesc(matched, ScoreOf);
    }

    /** `update_history`: a success adds 1 to the rule's success counter, a
        failure adds the penalty to its fail counter; an unknown rule starts
        from `{"success": 0, "fail": 0}`. */
    method UpdateHistory(ruleId: int, success: bool, penaltyFactor: real := DefaultPenaltyFactor)
      requires Valid() && penaltyFactor >= 0.0
      modifies this
      ensures Valid()
      ensures history == Recorded(old(history), ruleId, success, penaltyFactor)
    {
      if ruleId !in history {
        history := history[ruleId := EmptyRecord];
      }
      var rec := history[ruleId];
      if success {
        history := history[ruleId := rec.(success := Some(rec.Success() + 1.0))];
      } else {
        history := history[ruleId := rec.(fail := Some(rec.Fail() + penaltyFactor))];
      }
    }
  }

  /** The feedback block of `consult`: `chosen` is the rule id of the
      solution the user picked, or None when none worked. */
  method ApplyFeedback(engine: InferenceEngine, matches: seq<Match>, chosen: Option<int>)
    requires engine.Valid()
    modifies engine
    ensures engine.Valid()
    ensures engine.history == AfterFeedback(old(engine.history), RuleIds(matches), chosen)
  {
    var start: History;
    if chosen.Some? {
      engine.UpdateHistory(chosen.value, true);
      start := engine.history;
    } else {
      start := engine.history;
    }
    var penalty := if chosen.Some? then NotChosenPenalty else DefaultPenaltyFactor;
    var i := 0;
    while i < |matches|
      invariant 0 <= i <= |matches|
      invariant engine.Valid()
      invariant engine.history == Penalized(start, RuleIds(matches[..i]), chosen, penalty)
    {
      assert RuleIds(matches[..i + 1])[..i] == RuleIds(matches[..i]);
      if chosen.Some? {
        if matches[i].ruleId != chosen.value {
          engine.UpdateHistory(matches[i].ruleId, false, NotChosenPenalty);
        }
      } else {
        engine.UpdateHistory(matches[i].ruleId, false);
      }
      i := i + 1;
    }
    assert matches[..i] == matches;
  }
}
