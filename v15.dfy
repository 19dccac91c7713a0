/** The consultation of the earlier console script: it scores the rules with
    the same engine as the current script, shows every match at once and
    reads the number of the solution that worked as free text. */
module V15 {
  import opened Knowledge
  import opened ConsoleInput
  import opened Engine

  /** The history after a consultation whose matches were `matches` and
      whose answer resolved to `outcome` (None: nothing was shown, so nothing
      was asked). A number out of range raises IndexError before any update. */
  function Learned(h: History, matches: seq<Match>, outcome: Option<Selection<Match>>): History {
    match outcome
    case None => h
    case Some(Picked(m)) => AfterFeedback(h, RuleIds(matches), Some(m.ruleId))
    case Some(NoneWorked) => AfterFeedback(h, RuleIds(matches), None)
    case Some(IndexError) => h
  }

  /** `consult`: parses the typed ids, ranks the rules, and when something
      matched, applies the feedback the typed answer selects. */
  method Consult(engine: InferenceEngine, idsText: string, answer: string)
    returns (matches: seq<Match>, outcome: Option<Selection<Match>>)
    requires engine.Valid()
    modifies engine
    ensures engine.Valid()
    ensures matches == Ranking(engine.kb.rules, engine.kb.solutions, old(engine.history), SymptomSet(ParseIds(idsText)))
    ensures matches == [] <==> outcome.None?
    ensures outcome.Some? ==> outcome.value == ResolveAnswer(matches, answer)
    ensures engine.history == Learned(old(engine.history), matches, outcome)
  {
    var userSymptoms := ParseIds(idsText);
    matches := engine.MatchSolutions(userSymptoms);
    if matches == [] {
      outcome := None;
      return;
    }
    var selection := ResolveAnswer(matches, answer);
    outcome := Some(selection);
    match selection
    case Picked(m) =>
      ApplyFeedback(engine, matches, Some(m.ruleId));
    case NoneWorked =>
      ApplyFeedback(engine, matches, None);
    case IndexError =>
  }

  /** Typing the number k of a shown match rewards that match's rule and
      penalizes the others lightly. */
  lemma AnswerNumber(h: History, matches: seq<Match>, k: nat)
    requires 1 <= k <= |matches|
    ensures Learned(h, matches, Some(ResolveAnswer(matches, NatToString(k))))
         == AfterFeedback(h, RuleIds(matches), Some(matches[k - 1].ruleId))
  {
    ResolveNumber(matches, k);
  }

  /** Typing 0 rewards the last match shown: `matches[-1]`. */
  lemma AnswerZero(h: History, matches: seq<Match>)
    requires matches != []
    ensures Learned(h, matches, Some(ResolveAnswer(matches, "0")))
         == AfterFeedback(h, RuleIds(matches), Some(matches[|matches| - 1].ruleId))
  {
    ResolveZero(matches);
  }

  /** A number past the last match changes nothing. */
  lemma AnswerOutOfRange(h: History, matches: seq<Match>, k: nat)
    requires k > |matches|
    ensures Learned(h, matches, Some(ResolveAnswer(matches, NatToString(k)))) == h
  {
    StripDigits(NatToString(k));
    NatToStringValue(k);
  }

  /** An empty answer ("Enter if none") records a failure for every shown
      rule, with the default penalty of 0.1 per showing: the "normal"
      penalty announced for this branch is the same light one. */
  lemma BlankAnswer(h: History, matches: seq<Match>)
    ensures var r := Learned(h, matches, Some(ResolveAnswer(matches, "")));
            forall k ::
              SuccessOf(r, k) == SuccessOf(h, k)
              && FailOf(r, k) == FailOf(h, k) + 0.1 * (multiset(RuleIds(matches))[k] as real)
  {
    assert !IsDigits(Strip(""));
    FeedbackNoneChosen(h, RuleIds(matches));
  }
}
