/** The knowledge base of the diagnostic expert system (symptoms, solutions,
    rules) and the per-rule feedback records kept in the history map. */
module Knowledge {

  datatype Option<+T> = None | Some(value: T) {
    function GetOr(default: T): T {
      match this
      case Some(v) => v
      case None => default
    }
  }

  /** A symptom of the knowledge base: `{"id": .., "name": ..}`. */
  datatype Symptom = Symptom(id: int, name: string)

  /** A solution (remedy) of the knowledge base. */
  datatype Solution = Solution(id: int, name: string)

  /** A rule: the list of symptom ids it requires and the id of the solution
      it proposes. The id list may hold repetitions or be empty. */
  datatype Rule = Rule(id: int, symptoms: seq<int>, solution: int)

  /** The feedback record of one rule. A record read from the history file
      may lack either field; the engine then reads the missing one as 0. */
  datatype Record = Record(success: Option<real>, fail: Option<real>) {
    function Success(): real { success.GetOr(0.0) }
    function Fail(): real { fail.GetOr(0.0) }
    predicate Complete() { success.Some? && fail.Some? }
  }

  /** The record a rule gets before its first update: `{"success": 0, "fail": 0}`. */
  const EmptyRecord := Record(Some(0.0), Some(0.0))

  /** The history, keyed by rule id. */
  type History = map<int, Record>

  /** Every counter present in the history is non-negative. */
  ghost predicate NonNegative(h: History) {
    forall k | k in h :: h[k].Success() >= 0.0 && h[k].Fail() >= 0.0
  }

  /** The success counter of rule `k` as the engine reads it (0 when absent). */
  function SuccessOf(h: History, k: int): real {
    if k in h then h[k].Success() else 0.0
  }

  /** The fail counter of rule `k` as the engine reads it (0 when absent). */
  function FailOf(h: History, k: int): real {
    if k in h then h[k].Fail() else 0.0
  }

  /** The distinct symptom ids of a list: Python's `set(...)`. */
  function SymptomSet(ids: seq<int>): (s: set<int>)
    ensures forall x :: x in s <==> x in ids
  {
    set x | x in ids
  }

  /** The three lists of a knowledge base, as a value. */
  datatype KbContents = KbContents(symptoms: seq<Symptom>, solutions: seq<Solution>, rules: seq<Rule>)

  /** The knowledge base: three lists that authoring appends to in place and
      that the inference engine reads through a shared reference. */
  class KnowledgeBase {
    var symptoms: seq<Symptom>
    var solutions: seq<Solution>
    var rules: seq<Rule>

    function Contents(): KbContents
      reads this
    {
      KbContents(symptoms, solutions, rules)
    }

    constructor (symptoms: seq<Symptom>, solutions: seq<Solution>, rules: seq<Rule>)
      ensures this.symptoms == symptoms && this.solutions == solutions && this.rules == rules
    {
      this.symptoms := symptoms;
      this.solutions := solutions;
      this.rules := rules;
    }
  }
}
