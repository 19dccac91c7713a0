/** The oldest console script: its inference engine scores a rule by the
    share of the rule's symptom list that the query covers (no F1), counts
    every failure as a full 1, and rewards only the chosen rule. */
module V11 {
  import opened Knowledge
  import opened StableSort
  import opened Ratio
  import opened ConsoleInput
  import Engine
  import Authoring

  // ----- scoring -----

  /** A list has at least as many entries as distinct values. */
  lemma {:induction false} CardSetOfSeq(s: seq<int>)
    ensures |SymptomSet(s)| <= |s|
  {
    if s != [] {
      CardSetOfSeq(s[1..]);
      assert SymptomSet(s) == SymptomSet(s[1..]) + {s[0]};
    }
  }

  /** `len(set(rule["symptoms"]) & set(user_symptoms)) / len(rule["symptoms"])`:
      the distinct covered symptoms over the length of the rule's list. */
  function MatchRatio(symptoms: seq<int>, userSet: set<int>): (r: real)
    requires symptoms != []
    ensures 0.0 <= r <= 1.0
    ensures r > 0.0 <==> |SymptomSet(symptoms) * userSet| > 0
  {
    var inter := |SymptomSet(symptoms) * userSet|;
    Engine.CardIntersection(SymptomSet(symptoms), userSet);
    CardSetOfSeq(symptoms);
    FractionBounds(inter, |symptoms|);
    inter as real / |symptoms| as real
  }

  /** i / n for 0 <= i <= n, n > 0, lies in [0, 1] and is positive exactly when i is. */
  lemma FractionBounds(i: nat, n: nat)
    requires i <= n && n > 0
    ensures 0.0 <= i as real / n as real <= 1.0
    ensures i > 0 <==> i as real / n as real > 0.0
  {
    var x, y := i as real, n as real;
    DivLe(x, y, 1.0, 1.0);
    DivLe(0.0, 1.0, x, y);
    if i > 0 { DivLt(0.0, 1.0, x, y); }
  }

  /** One suggestion: the fields of the dictionary built for a rule (before
      the display rounding). */
  datatype Suggestion = Suggestion(ruleId: int, solution: string, score: real, precision: real, matchRatio: real)

  function SuggestionScore(s: Suggestion): real { s.score }

  /** Every record holds both counters: this version reads them without a
      default. */
  ghost predicate CompleteHistory(h: History) {
    forall k | k in h :: h[k].Complete()
  }

  /** `_get_precision` of this version: 0.5 with no record or a zero total,
      otherwise (success + 1) / (success + fail + 2). */
  function Confidence(h: History, ruleId: int): (c: real)
    requires CompleteHistory(h) && NonNegative(h)
  {
    if ruleId !in h then 0.5
    else
      var data := h[ruleId];
      var total := data.success.value + data.fail.value;
      if total == 0.0 then 0.5
      else (data.success.value + 1.0) / (total + 2.0)
  }

  /** On complete records the confidence is the current engine's historical
      precision, so it too lies strictly between 0 and 1. */
  lemma ConfidenceAgrees(h: History, ruleId: int)
    requires CompleteHistory(h) && NonNegative(h)
    ensures Confidence(h, ruleId) == Engine.HistoricalPrecision(h, ruleId)
    ensures 0.0 < Confidence(h, ruleId) < 1.0
  {
    if ruleId in h {
      assert h[ruleId].Success() == h[ruleId].success.value;
      assert h[ruleId].Fail() == h[ruleId].fail.value;
    }
  }

  /** No rule of the list has an empty symptom list. */
  predicate AllNonEmpty(rules: seq<Rule>) {
    forall i | 0 <= i < |rules| :: rules[i].symptoms != []
  }

  /** The suggestion built for a rule some of whose symptoms were given. */
  function Suggest(rule: Rule, solutions: seq<Solution>, h: History, userSet: set<int>): (s: Suggestion)
    requires rule.symptoms != [] && CompleteHistory(h) && NonNegative(h)
    ensures s.ruleId == rule.id && s.solution == Engine.FindSolution(solutions, rule.solution)
    ensures 0.0 <= s.score <= s.matchRatio <= 1.0
    ensures s.matchRatio == MatchRatio(rule.symptoms, userSet) && s.precision == Engine.HistoricalPrecision(h, rule.id)
  {
    ConfidenceAgrees(h, rule.id);
    var ratio := MatchRatio(rule.symptoms, userSet);
    var precision := Confidence(h, rule.id);
    Suggestion(rule.id, Engine.FindSolution(solutions, rule.solution), Engine.Weighted(ratio, precision), precision, ratio)
  }

  /** The suggestions of the rules with a positive ratio, in knowledge-base order. */
  function Suggestions(rules: seq<Rule>, solutions: seq<Solution>, h: History, userSet: set<int>): (ss: seq<Suggestion>)
    requires AllNonEmpty(rules) && CompleteHistory(h) && NonNegative(h)
    ensures |ss| <= |rules|
    ensures forall s | s in ss :: 0.0 < s.matchRatio <= 1.0 && 0.0 <= s.score <= s.matchRatio
  {
    if rules == [] then []
    else
      var last := rules[|rules| - 1];
      var init := Suggestions(rules[..|rules| - 1], solutions, h, userSet);
      init + (if MatchRatio(last.symptoms, userSet) > 0.0 then [Suggest(last, solutions, h, userSet)] else [])
  }

  /** The suggestions are exactly those of the rules sharing a symptom with
      the query: one per such rule, in knowledge-base order. */
  lemma {:induction false} SuggestionsOfOverlapping(rules: seq<Rule>, solutions: seq<Solution>, h: History, userSet: set<int>)
    requires AllNonEmpty(rules) && CompleteHistory(h) && NonNegative(h)
    ensures var ov, ss := Engine.Overlapping(rules, userSet), Suggestions(rules, solutions, h, userSet);
            |ss| == |ov|
            && forall i | 0 <= i < |ss| :: ov[i].symptoms != [] && ss[i] == Suggest(ov[i], solutions, h, userSet)
  {
    if rules != [] {
      var init, last := rules[..|rules| - 1], rules[|rules| - 1];
      assert AllNonEmpty(init);
      SuggestionsOfOverlapping(init, solutions, h, userSet);
      var ov0, ss0 := Engine.Overlapping(init, userSet), Suggestions(init, solutions, h, userSet);
      var ov, ss := Engine.Overlapping(rules, userSet), Suggestions(rules, solutions, h, userSet);
      assert last.symptoms != [];
      if MatchRatio(last.symptoms, userSet) > 0.0 {
        assert ov == ov0 + [last];
        assert ss == ss0 + [Suggest(last, solutions, h, userSet)];
        forall i | 0 <= i < |ss|
          ensures ov[i].symptoms != [] && ss[i] == Suggest(ov[i], solutions, h, userSet)
        {
          if i < |ss0| { assert ov[i] == ov0[i] && ss[i] == ss0[i]; }
        }
      } else {
        assert ov == ov0;
        assert ss == ss0;
      }
    }
  }

  /** The value `match_solutions` returns (up to rounding). */
  function Ranked(rules: seq<Rule>, solutions: seq<Solution>, h: History, userSet: set<int>): seq<Suggestion>
    requires AllNonEmpty(rules) && CompleteHistory(h) && NonNegative(h)
  {
    SortByKeyDesc(Suggestions(rules, solutions, h, userSet), SuggestionScore)
  }

  lemma AllNonEmptySnoc(rules: seq<Rule>, i: int)
    requires 0 <= i < |rules| && AllNonEmpty(rules[..i]) && rules[i].symptoms != []
    ensures AllNonEmpty(rules[..i + 1])
  {
    var t, u := rules[..i + 1], rules[..i];
    forall j | 0 <= j < |t| ensures t[j].symptoms != [] {
      if j < i { assert t[j] == u[j]; }
    }
  }

  lemma SuggestionsSnoc(rules: seq<Rule>, solutions: seq<Solution>, h: History, userSet: set<int>, i: int)
    requires 0 <= i < |rules| && AllNonEmpty(rules[..i + 1]) && CompleteHistory(h) && NonNegative(h)
    ensures var r := rules[i];
            Suggestions(rules[..i + 1], solutions, h, userSet)
            == Suggestions(rules[..i], solutions, h, userSet)
               + (if MatchRatio(r.symptoms, userSet) > 0.0 then [Suggest(r, solutions, h, userSet)] else [])
  {
    assert rules[..i + 1][..i] == rules[..i];
  }

  /** The result is ordered by non-increasing score, holds the same
      suggestions as before sorting, and keeps ties in knowledge-base order. */
  lemma RankedOrder(rules: seq<Rule>, solutions: seq<Solution>, h: History, userSet: set<int>, k: real)
    requires AllNonEmpty(rules) && CompleteHistory(h) && NonNegative(h)
    ensures var r := Ranked(rules, solutions, h, userSet);
            forall i, j | 0 <= i < j < |r| :: r[i].score >= r[j].score
    ensures multiset(Ranked(rules, solutions, h, userSet)) == multiset(Suggestions(rules, solutions, h, userSet))
    ensures WithKey(Ranked(rules, solutions, h, userSet), SuggestionScore, k)
         == WithKey(Suggestions(rules, solutions, h, userSet), SuggestionScore, k)
  {
    var s := Suggestions(rules, solutions, h, userSet);
    var r := Ranked(rules, solutions, h, userSet);
    SortSorted(s, SuggestionScore);
    SortPermutes(s, SuggestionScore);
    SortStable(s, SuggestionScore, k);
    forall i, j | 0 <= i < j < |r| ensures r[i].score >= r[j].score {
      assert SuggestionScore(r[i]) >= SuggestionScore(r[j]);
    }
  }

  /** Giving more symptoms never lowers a rule's ratio. */
  lemma RatioMonotone(symptoms: seq<int>, userSet: set<int>, userSet': set<int>)
    requires symptoms != [] && userSet <= userSet'
    ensures MatchRatio(symptoms, userSet) <= MatchRatio(symptoms, userSet')
  {
    var s := SymptomSet(symptoms);
    Engine.CardSubset(s * userSet, s * userSet');
    var n := |symptoms| as real;
    MulLeRight(|s * userSet| as real, |s * userSet'| as real, n);
    DivLe(|s * userSet| as real, n, |s * userSet'| as real, n);
  }

  /** A rule listing each symptom once scores 1 as soon as all its symptoms
      are given, however many other symptoms are given with them; the
      current engine's adherence stays below 1 when there are such extras. */
  lemma ExtraSymptomsIgnored(symptoms: seq<int>, userSet: set<int>)
    requires symptoms != [] && |SymptomSet(symptoms)| == |symptoms| && SymptomSet(symptoms) <= userSet
    ensures MatchRatio(symptoms, userSet) == 1.0
    ensures SymptomSet(symptoms) != userSet ==> Engine.Assess(SymptomSet(symptoms), userSet).matchScore < 1.0
  {
    var s := SymptomSet(symptoms);
    assert s * userSet == s;
    Engine.MatchOneIffEqual(s, userSet);
  }

  /** A repeated symptom counts twice in the denominator: the rule [1, 1]
      scores 1/2 on the query [1], where the current engine's adherence is 1. */
  lemma RepeatedSymptomHalvesRatio()
    ensures MatchRatio([1, 1], {1}) == 0.5
    ensures Engine.Assess(SymptomSet([1, 1]), {1}).matchScore == 1.0
  {
    assert SymptomSet([1, 1]) == {1};
    assert {1} * {1} == {1};
  }

  function SuggestionIds(ss: seq<Suggestion>): (ids: seq<int>)
    ensures |ids| == |ss| && forall i | 0 <= i < |ss| :: ids[i] == ss[i].ruleId
  {
    seq(|ss|, i requires 0 <= i < |ss| => ss[i].ruleId)
  }

  lemma SuggestionIdsSnoc(a: seq<Suggestion>, b: seq<Suggestion>, ids: seq<int>, more: seq<int>)
    requires SuggestionIds(a) == ids && SuggestionIds(b) == more
    ensures SuggestionIds(a + b) == ids + more
  {}

  lemma RuleIdsSnoc(a: seq<Engine.Match>, b: seq<Engine.Match>, ids: seq<int>, more: seq<int>)
    requires Engine.RuleIds(a) == ids && Engine.RuleIds(b) == more
    ensures Engine.RuleIds(a + b) == ids + more
  {}

  /** Without empty rules, this version suggests the same rules as the
      current engine, in the same knowledge-base order before sorting: the
      rules sharing a symptom with the query. */
  lemma {:induction false} SameRulesSuggested(rules: seq<Rule>, solutions: seq<Solution>, h: History, userSet: set<int>)
    requires AllNonEmpty(rules) && CompleteHistory(h) && NonNegative(h)
    ensures SuggestionIds(Suggestions(rules, solutions, h, userSet))
         == Engine.RuleIds(Engine.Relevant(Engine.ScoreAll(rules, solutions, h, userSet)))
  {
    if rules != [] {
      var init, last := rules[..|rules| - 1], rules[|rules| - 1];
      assert rules == init + [last];
      assert AllNonEmpty(init);
      SameRulesSuggested(init, solutions, h, userSet);
      var before := Engine.ScoreAll(init, solutions, h, userSet);
      var e := Engine.Evaluate(last, solutions, h, userSet);
      Engine.ScoreAllAppend(init, last, solutions, h, userSet);
      Engine.RelevantAppend(before, e);
      var shown := MatchRatio(last.symptoms, userSet) > 0.0;
      assert shown <==> e.matchScore > 0.0;
      var mine := if shown then [Suggest(last, solutions, h, userSet)] else [];
      var theirs := if shown then [e] else [];
      SuggestionIdsSnoc(Suggestions(init, solutions, h, userSet), mine,
                        SuggestionIds(Suggestions(init, solutions, h, userSet)), if shown then [last.id] else []);
      RuleIdsSnoc(Engine.Relevant(before), theirs,
                  Engine.RuleIds(Engine.Relevant(before)), if shown then [last.id] else []);
    }
  }

  // ----- learning -----

  /** The history after the feedback block of this version's `consult`:
      the chosen rule alone gets a success; with no choice every shown rule
      gets a failure of 1. */
  function Learned(h: History, shown: seq<int>, chosen: Option<int>): History {
    match chosen
    case Some(c) => Engine.Recorded(h, c, true, 1.0)
    case None => Engine.Penalized(h, shown, None, 1.0)
  }

  /** With no choice every shown rule gains exactly one failure per showing
      and no success; the rules not shown are untouched. */
  lemma NoneWorkedCounts(h: History, shown: seq<int>)
    ensures forall k ::
              SuccessOf(Learned(h, shown, None), k) == SuccessOf(h, k)
              && FailOf(Learned(h, shown, None), k) == FailOf(h, k) + (multiset(shown)[k] as real)
    ensures forall k | k !in shown ::
              (k in Learned(h, shown, None) <==> k in h)
              && (k in h ==> Learned(h, shown, None)[k] == h[k])
  {
    forall k
      ensures SuccessOf(Learned(h, shown, None), k) == SuccessOf(h, k)
      ensures FailOf(Learned(h, shown, None), k) == FailOf(h, k) + (multiset(shown)[k] as real)
    {
      Engine.PenalizedCounts(h, shown, None, 1.0, k);
    }
    forall k | k !in shown
      ensures (k in Learned(h, shown, None) <==> k in h) && (k in h ==> Learned(h, shown, None)[k] == h[k])
    {
      Engine.PenalizedUntouched(h, shown, None, 1.0, k);
    }
  }

  lemma {:induction false} PenalizedComplete(h: History, shown: seq<int>, penalty: real)
    requires CompleteHistory(h)
    ensures CompleteHistory(Engine.Penalized(h, shown, None, penalty))
  {
    if shown != [] {
      PenalizedComplete(h, shown[..|shown| - 1], penalty);
    }
  }

  /** The history after a consultation whose answer resolved to `outcome`
      (None: nothing was shown or matching failed, so nothing was asked). */
  function Consulted(h: History, shown: seq<Suggestion>, outcome: Option<Selection<Suggestion>>): History {
    match outcome
    case None => h
    case Some(Picked(s)) => Learned(h, SuggestionIds(shown), Some(s.ruleId))
    case Some(NoneWorked) => Learned(h, SuggestionIds(shown), None)
    case Some(IndexError) => h
  }

  /** `InferenceEngine` of this version. */
  class InferenceEngine {
    const kb: KnowledgeBase
    var history: History

    ghost predicate Valid()
      reads this
    {
      NonNegative(history) && CompleteHistory(history)
    }

    constructor (kb: KnowledgeBase, history: History)
      requires NonNegative(history) && CompleteHistory(history)
      ensures Valid() && this.kb == kb && this.history == history
    {
      this.kb := kb;
      this.history := history;
    }

    /** `match_solutions`. A rule with an empty symptom list makes the ratio
        divide by zero; the model returns None for that ZeroDivisionError. */
    method MatchSolutions(userSymptoms: seq<int>) returns (matched: Option<seq<Suggestion>>)
      requires Valid()
      ensures matched.None? <==> !AllNonEmpty(kb.rules)
      ensures matched.Some? ==> AllNonEmpty(kb.rules) && matched.value == Ranked(kb.rules, kb.solutions, history, SymptomSet(userSymptoms))
    {
      var result: seq<Suggestion> := [];
      var userSet := SymptomSet(userSymptoms);
      var rules, solutions := kb.rules, kb.solutions;
      var i := 0;
      while i < |rules|
        invariant 0 <= i <= |rules|
        invariant AllNonEmpty(rules[..i])
        invariant result == Suggestions(rules[..i], solutions, history, userSet)
      {
        var rule := rules[i];
        if rule.symptoms == [] {
          matched := None;
          return;
        }
        AllNonEmptySnoc(rules, i);
        var matchRatio := MatchRatio(rule.symptoms, userSet);
        SuggestionsSnoc(rules, solutions, history, userSet, i);
        if matchRatio > 0.0 {
          var precision := Confidence(history, rule.id);
          ConfidenceAgrees(history, rule.id);
          var score := Engine.Weighted(matchRatio, precision);
          var sol := Engine.FindSolution(solutions, rule.solution);
          result := result + [Suggestion(rule.id, sol, score, precision, matchRatio)];
        }
        i := i + 1;
      }
      assert rules[..i] == rules;
      matched := Some(SortByKeyDesc(result, SuggestionScore));
    }

    /** `update_history`: adds exactly 1 to the success or the fail counter. */
    method UpdateHistory(ruleId: int, success: bool)
      requires Valid()
      modifies this
      ensures Valid()
      ensures history == Engine.Recorded(old(history), ruleId, success, 1.0)
    {
      if ruleId !in history {
        history := history[ruleId := EmptyRecord];
      }
      var rec := history[ruleId];
      if success {
        history := history[ruleId := rec.(success := Some(rec.success.value + 1.0))];
      } else {
        history := history[ruleId := rec.(fail := Some(rec.fail.value + 1.0))];
      }
    }
  }

  /** The feedback block of `consult`: `chosen` is the rule id of the
      suggestion the user picked, or None when none worked. */
  method ApplyFeedback(engine: InferenceEngine, matches: seq<Suggestion>, chosen: Option<int>)
    requires engine.Valid()
    modifies engine
    ensures engine.Valid()
    ensures engine.history == Learned(old(engine.history), SuggestionIds(matches), chosen)
  {
    if chosen.Some? {
      engine.UpdateHistory(chosen.value, true);
      return;
    }
    ghost var start := engine.history;
    var i := 0;
    while i < |matches|
      invariant 0 <= i <= |matches|
      invariant engine.Valid()
      invariant engine.history == Engine.Penalized(start, SuggestionIds(matches[..i]), None, 1.0)
    {
      assert SuggestionIds(matches[..i + 1])[..i] == SuggestionIds(matches[..i]);
      engine.UpdateHistory(matches[i].ruleId, false);
      i := i + 1;
    }
    assert matches[..i] == matches;
  }

  /** `consult`: parses the typed ids, ranks the rules, and when something
      matched, applies the feedback the typed answer selects. */
  method Consult(engine: InferenceEngine, idsText: string, answer: string)
    returns (matches: Option<seq<Suggestion>>, outcome: Option<Selection<Suggestion>>)
    requires engine.Valid()
    modifies engine
    ensures engine.Valid()
    ensures matches.None? <==> !AllNonEmpty(engine.kb.rules)
    ensures matches.Some? ==>
              (AllNonEmpty(engine.kb.rules)
               && matches.value == Ranked(engine.kb.rules, engine.kb.solutions, old(engine.history), SymptomSet(ParseIds(idsText))))
    ensures outcome.Some? <==> matches.Some? && matches.value != []
    ensures outcome.Some? ==> outcome.value == ResolveAnswer(matches.value, answer)
    ensures engine.history == Consulted(old(engine.history), if matches.Some? then matches.value else [], outcome)
  {
    var userSymptoms := ParseIds(idsText);
    matches := engine.MatchSolutions(userSymptoms);
    if matches.None? || matches.value == [] {
      outcome := None;
      return;
    }
    var shown := matches.value;
    var selection := ResolveAnswer(shown, answer);
    outcome := Some(selection);
    match selection
    case Picked(s) =>
      ApplyFeedback(engine, shown, Some(s.ruleId));
    case NoneWorked =>
      ApplyFeedback(engine, shown, None);
    case IndexError =>
  }

  // ----- authoring can break matching -----

  /** Answering "n" to new symptoms and typing no valid id creates a rule
      with an empty symptom list, after which every consultation divides by
      zero in `match_solutions`. */
  lemma AuthoringEmptyRule(c: KbContents, solutionName: string)
    ensures !AllNonEmpty(Authoring.Authored(c, false, [], "", solutionName).rules)
  {
    var c' := Authoring.Authored(c, false, [], "", solutionName);
    ParseNonNumbers();
    Authoring.AuthoredRule(c, false, [], "", solutionName);
    assert c'.rules[|c.rules|].symptoms == [];
  }
}
