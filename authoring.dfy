/** `add_rule`: appends the newly typed symptoms, one new solution and one
    new rule to the knowledge base. Every new id is `max(existing ids,
    default=0) + 1`, computed over the list as it stands at that moment. */
module Authoring {
  import opened Knowledge
  import opened ConsoleInput

  /** Python's `max(ids)` on a non-empty list. */
  function Max(ids: seq<int>): (m: int)
    requires ids != []
    ensures m in ids && forall i | 0 <= i < |ids| :: ids[i] <= m
  {
    if |ids| == 1 then ids[0]
    else
      var rest := Max(ids[1..]);
      if ids[0] >= rest then ids[0] else rest
  }

  /** `max(ids, default=0) + 1`. */
  function NextId(ids: seq<int>): (r: int)
    ensures forall i | 0 <= i < |ids| :: ids[i] < r
    ensures ids == [] ==> r == 1
    ensures ids != [] ==> r - 1 in ids
  {
    (if ids == [] then 0 else Max(ids)) + 1
  }

  /** The ids of a list, in order: `[s["id"] for s in kb[...]]`. The three
      versions below differ only in the element type of the list. */
  function SymptomIds(ss: seq<Symptom>): (ids: seq<int>)
    ensures |ids| == |ss| && forall i | 0 <= i < |ss| :: ids[i] == ss[i].id
  {
    seq(|ss|, i requires 0 <= i < |ss| => ss[i].id)
  }

  function SolutionIds(ss: seq<Solution>): (ids: seq<int>)
    ensures |ids| == |ss| && forall i | 0 <= i < |ss| :: ids[i] == ss[i].id
  {
    seq(|ss|, i requires 0 <= i < |ss| => ss[i].id)
  }

  function RuleIdList(rs: seq<Rule>): (ids: seq<int>)
    ensures |ids| == |rs| && forall i | 0 <= i < |rs| :: ids[i] == rs[i].id
  {
    seq(|rs|, i requires 0 <= i < |rs| => rs[i].id)
  }

  /** The symptom names the user types: each line stripped, up to the first
      line that is blank once stripped (or the end of the input). */
  function TypedNames(lines: seq<string>): (names: seq<string>)
    ensures |names| <= |lines|
    ensures forall j | 0 <= j < |names| :: names[j] != ""
  {
    if lines == [] || Strip(lines[0]) == "" then []
    else [Strip(lines[0])] + TypedNames(lines[1..])
  }

  /** `k` consecutive ids starting at `first`. */
  function Consecutive(first: int, k: nat): (ids: seq<int>)
    ensures |ids| == k
  {
    if k == 0 then [] else Consecutive(first, k - 1) + [first + k - 1]
  }

  lemma {:induction false} ConsecutiveAt(first: int, k: nat)
    ensures forall j | 0 <= j < k :: Consecutive(first, k)[j] == first + j
  {
    if k > 0 {
      ConsecutiveAt(first, k - 1);
    }
  }

  /** The symptoms created for `names`, numbered from `first`. */
  function NewSymptoms(first: int, names: seq<string>): (ss: seq<Symptom>)
    ensures |ss| == |names|
  {
    if names == [] then []
    else NewSymptoms(first, names[..|names| - 1]) + [Symptom(first + |names| - 1, names[|names| - 1])]
  }

  lemma {:induction false} NewSymptomsAt(first: int, names: seq<string>)
    ensures forall j | 0 <= j < |names| :: NewSymptoms(first, names)[j] == Symptom(first + j, names[j])
  {
    if names != [] {
      var init := names[..|names| - 1];
      NewSymptomsAt(first, init);
      forall j | 0 <= j < |names| ensures NewSymptoms(first, names)[j] == Symptom(first + j, names[j]) {
        if j < |init| { assert names[j] == init[j]; }
      }
    }
  }

  /** No id occurs twice. */
  predicate Distinct(ids: seq<int>) {
    forall i, j | 0 <= i < j < |ids| :: ids[i] != ids[j]
  }

  /** Every list of the knowledge base has distinct ids. */
  predicate UniqueIds(c: KbContents) {
    Distinct(SymptomIds(c.symptoms)) && Distinct(SolutionIds(c.solutions)) && Distinct(RuleIdList(c.rules))
  }

  /** The knowledge base after `add_rule`: the new symptoms numbered from the
      first fresh symptom id, one new solution and one new rule listing the
      typed ids followed by the new symptoms' ids. */
  function Authored(c: KbContents, wantsNew: bool, lines: seq<string>, idsText: string, solutionName: string): KbContents {
    var names := if wantsNew then TypedNames(lines) else [];
    var first := NextId(SymptomIds(c.symptoms));
    var solId := NextId(SolutionIds(c.solutions));
    KbContents(c.symptoms + NewSymptoms(first, names),
             c.solutions + [Solution(solId, solutionName)],
             c.rules + [Rule(NextId(RuleIdList(c.rules)), ParseIds(idsText) + Consecutive(first, |names|), solId)])
  }

  /** The id generated for an appended entry is one more than the id it
      follows: after appending `NextId(ids)`, the next id is `NextId(ids) + 1`. */
  lemma NextIdAfterAppend(ids: seq<int>)
    ensures NextId(ids + [NextId(ids)]) == NextId(ids) + 1
  {
    var x := NextId(ids);
    var s := ids + [x];
    assert s[|s| - 1] == x;
    assert Max(s) == x;
  }

  /** Appending the fresh id keeps the ids distinct. */
  lemma DistinctAppendNext(ids: seq<int>)
    requires Distinct(ids)
    ensures Distinct(ids + [NextId(ids)])
  {
    var s := ids + [NextId(ids)];
    forall i, j | 0 <= i < j < |s| ensures s[i] != s[j] {
      if j == |ids| { assert s[i] == ids[i]; }
      else { assert s[i] == ids[i] && s[j] == ids[j]; }
    }
  }

  lemma SymptomIdsAppend(a: seq<Symptom>, b: seq<Symptom>)
    ensures SymptomIds(a + b) == SymptomIds(a) + SymptomIds(b)
  {}

  lemma NewSymptomsSnoc(first: int, names: seq<string>)
    requires names != []
    ensures NewSymptoms(first, names)
         == NewSymptoms(first, names[..|names| - 1]) + [Symptom(first + |names| - 1, names[|names| - 1])]
  {}

  /** Creating symptoms one at a time with `max + 1` numbers them
      consecutively from the first fresh id, each above every earlier id. */
  lemma {:induction false} NewSymptomsNumbering(old_: seq<Symptom>, names: seq<string>)
    ensures var first := NextId(SymptomIds(old_));
            NextId(SymptomIds(old_ + NewSymptoms(first, names))) == first + |names|
  {
    var first := NextId(SymptomIds(old_));
    if names == [] {
      assert old_ + NewSymptoms(first, names) == old_;
    } else {
      var init := names[..|names| - 1];
      NewSymptomsNumbering(old_, init);
      var before := old_ + NewSymptoms(first, init);
      var x := NextId(SymptomIds(before));
      var added := Symptom(x, names[|names| - 1]);
      NewSymptomsSnoc(first, names);
      assert old_ + NewSymptoms(first, names) == before + [added];
      SymptomIdsAppend(before, [added]);
      assert SymptomIds([added]) == [x];
      NextIdAfterAppend(SymptomIds(before));
    }
  }

  /** The new symptoms' ids are distinct from each other and from the old ones. */
  lemma NewSymptomsDistinct(old_: seq<Symptom>, names: seq<string>)
    requires Distinct(SymptomIds(old_))
    ensures Distinct(SymptomIds(old_ + NewSymptoms(NextId(SymptomIds(old_)), names)))
  {
    var first := NextId(SymptomIds(old_));
    var all := old_ + NewSymptoms(first, names);
    var ids := SymptomIds(all);
    NewSymptomsAt(first, names);
    forall i, j | 0 <= i < j < |ids| ensures ids[i] != ids[j] {
      if j < |old_| {
        assert ids[i] == SymptomIds(old_)[i] && ids[j] == SymptomIds(old_)[j];
      } else if i < |old_| {
        assert ids[i] == SymptomIds(old_)[i] < first;
        assert ids[j] == first + (j - |old_|);
      } else {
        assert ids[i] == first + (i - |old_|) && ids[j] == first + (j - |old_|);
      }
    }
  }

  /** Authoring only appends: every earlier symptom, solution and rule keeps
      its place, and each new id is larger than every id of its list. */
  lemma AuthoredAppendsFresh(c: KbContents, wantsNew: bool, lines: seq<string>, idsText: string, solutionName: string)
    ensures var c' := Authored(c, wantsNew, lines, idsText, solutionName);
            && c'.symptoms[..|c.symptoms|] == c.symptoms
            && c'.solutions[..|c.solutions|] == c.solutions
            && c'.rules[..|c.rules|] == c.rules
            && |c'.solutions| == |c.solutions| + 1 && |c'.rules| == |c.rules| + 1
            && (forall i, j | 0 <= i < |c.symptoms| <= j < |c'.symptoms| :: c.symptoms[i].id < c'.symptoms[j].id)
            && (forall i | 0 <= i < |c.solutions| :: c.solutions[i].id < c'.solutions[|c.solutions|].id)
            && (forall i | 0 <= i < |c.rules| :: c.rules[i].id < c'.rules[|c.rules|].id)
  {
    var c' := Authored(c, wantsNew, lines, idsText, solutionName);
    var first := NextId(SymptomIds(c.symptoms));
    NewSymptomsAt(first, if wantsNew then TypedNames(lines) else []);
    forall i, j | 0 <= i < |c.symptoms| <= j < |c'.symptoms|
      ensures c.symptoms[i].id < c'.symptoms[j].id
    {
      assert SymptomIds(c.symptoms)[i] == c.symptoms[i].id;
      assert c'.symptoms[j].id == first + (j - |c.symptoms|);
    }
    forall i | 0 <= i < |c.solutions| ensures c.solutions[i].id < c'.solutions[|c.solutions|].id {
      assert SolutionIds(c.solutions)[i] == c.solutions[i].id;
    }
    forall i | 0 <= i < |c.rules| ensures c.rules[i].id < c'.rules[|c.rules|].id {
      assert RuleIdList(c.rules)[i] == c.rules[i].id;
    }
  }

  /** The symptoms `add_rule` creates, and the id list of the rule it adds. */
  lemma AuthoredParts(c: KbContents, wantsNew: bool, lines: seq<string>, idsText: string, solutionName: string)
    ensures var c' := Authored(c, wantsNew, lines, idsText, solutionName);
            var names := if wantsNew then TypedNames(lines) else [];
            var first := NextId(SymptomIds(c.symptoms));
            && c'.symptoms[|c.symptoms|..] == NewSymptoms(first, names)
            && c'.rules[|c.rules|] == Rule(NextId(RuleIdList(c.rules)), ParseIds(idsText) + Consecutive(first, |names|), c'.solutions[|c.solutions|].id)
  {
    var c' := Authored(c, wantsNew, lines, idsText, solutionName);
    var names := if wantsNew then TypedNames(lines) else [];
    SplitAppended(c.symptoms, NewSymptoms(NextId(SymptomIds(c.symptoms)), names), c'.symptoms);
  }

  lemma SplitAppended<T>(a: seq<T>, b: seq<T>, s: seq<T>)
    requires s == a + b
    ensures s[..|a|] == a && s[|a|..] == b
  {}

  /** The new rule proposes the new solution and lists the parsed ids, then
      the ids of the symptoms created in the same step; with no typed names
      none is created. */
  lemma AuthoredRule(c: KbContents, wantsNew: bool, lines: seq<string>, idsText: string, solutionName: string)
    ensures var c' := Authored(c, wantsNew, lines, idsText, solutionName);
            var rule := c'.rules[|c.rules|];
            var created := c'.symptoms[|c.symptoms|..];
            && rule.solution == c'.solutions[|c.solutions|].id
            && rule.symptoms[..|ParseIds(idsText)|] == ParseIds(idsText)
            && |rule.symptoms| == |ParseIds(idsText)| + |created|
            && (forall j | 0 <= j < |created| :: rule.symptoms[|ParseIds(idsText)| + j] == created[j].id)
            && (!wantsNew ==> created == [])
  {
    var names := if wantsNew then TypedNames(lines) else [];
    AuthoredParts(c, wantsNew, lines, idsText, solutionName);
    RuleSymptomIds(ParseIds(idsText), NextId(SymptomIds(c.symptoms)), names);
  }

  /** The listed ids followed by the ids of the created symptoms, in order. */
  lemma RuleSymptomIds(parsed: seq<nat>, first: int, names: seq<string>)
    ensures var ids := parsed + Consecutive(first, |names|);
            var created := NewSymptoms(first, names);
            && ids[..|parsed|] == parsed && |ids| == |parsed| + |created|
            && forall j | 0 <= j < |created| :: ids[|parsed| + j] == created[j].id
  {
    var created := NewSymptoms(first, names);
    var ids := parsed + Consecutive(first, |names|);
    SplitAppended(parsed, Consecutive(first, |names|), ids);
    NewSymptomsAt(first, names);
    ConsecutiveAt(first, |names|);
    forall j | 0 <= j < |created| ensures ids[|parsed| + j] == created[j].id {
      assert ids[|parsed| + j] == Consecutive(first, |names|)[j];
    }
  }

  /** Authoring keeps the ids of every list distinct. */
  lemma AuthoredKeepsUnique(c: KbContents, wantsNew: bool, lines: seq<string>, idsText: string, solutionName: string)
    requires UniqueIds(c)
    ensures UniqueIds(Authored(c, wantsNew, lines, idsText, solutionName))
  {
    var c' := Authored(c, wantsNew, lines, idsText, solutionName);
    NewSymptomsDistinct(c.symptoms, if wantsNew then TypedNames(lines) else []);
    DistinctAppendNext(SolutionIds(c.solutions));
    assert SolutionIds(c'.solutions) == SolutionIds(c.solutions) + [NextId(SolutionIds(c.solutions))];
    DistinctAppendNext(RuleIdList(c.rules));
    assert RuleIdList(c'.rules) == RuleIdList(c.rules) + [NextId(RuleIdList(c.rules))];
  }

  /** One more typed symptom: appending it with the next id extends the
      consecutively numbered new symptoms (and their ids) by one. */
  lemma AddOneSymptom(start: seq<Symptom>, first: int, typed: seq<string>, name: string,
                      symptoms: seq<Symptom>, ids: seq<int>, newId: int)
    requires symptoms == start + NewSymptoms(first, typed)
    requires ids == Consecutive(first, |typed|) && newId == first + |typed|
    ensures symptoms + [Symptom(newId, name)] == start + NewSymptoms(first, typed + [name])
    ensures ids + [newId] == Consecutive(first, |typed + [name]|)
  {
    assert (typed + [name])[..|typed|] == typed;
  }

  /** A non-blank line extends the names typed so far by its stripped text. */
  lemma TypedNamesStep(lines: seq<string>, i: nat, typed: seq<string>)
    requires i < |lines| && Strip(lines[i]) != ""
    requires TypedNames(lines) == typed + TypedNames(lines[i..])
    ensures TypedNames(lines) == (typed + [Strip(lines[i])]) + TypedNames(lines[i + 1..])
  {
    var t := lines[i..];
    assert t[0] == lines[i] && t[1..] == lines[i + 1..];
    var x, rest := Strip(lines[i]), TypedNames(lines[i + 1..]);
    assert TypedNames(t) == [x] + rest;
    AppendAssoc(typed, [x], rest);
  }

  lemma AppendAssoc<T>(a: seq<T>, b: seq<T>, c: seq<T>)
    ensures a + (b + c) == (a + b) + c
  {}

  /** The loop of `add_rule` that reads symptom names until a blank line,
      appending each one to the symptom list with a fresh id. */
  method AddTypedSymptoms(kb: KnowledgeBase, lines: seq<string>) returns (newIds: seq<int>)
    modifies kb
    ensures var first := NextId(SymptomIds(old(kb.symptoms)));
            && kb.symptoms == old(kb.symptoms) + NewSymptoms(first, TypedNames(lines))
            && newIds == Consecutive(first, |TypedNames(lines)|)
    ensures kb.solutions == old(kb.solutions) && kb.rules == old(kb.rules)
  {
    ghost var start := kb.symptoms;
    ghost var first := NextId(SymptomIds(start));
    ghost var typed: seq<string> := [];
    newIds := [];
    var i := 0;
    while i < |lines|
      invariant 0 <= i <= |lines|
      invariant TypedNames(lines) == typed + TypedNames(lines[i..])
      invariant kb.symptoms == start + NewSymptoms(first, typed)
      invariant newIds == Consecutive(first, |typed|)
      invariant NextId(SymptomIds(kb.symptoms)) == first + |typed|
      invariant kb.solutions == old(kb.solutions) && kb.rules == old(kb.rules)
    {
      var name := Strip(lines[i]);
      if name == "" {
        assert TypedNames(lines[i..]) == [];
        assert typed + [] == typed;
        break;
      }
      var newId := NextId(SymptomIds(kb.symptoms));
      ghost var typed' := typed + [name];
      AddOneSymptom(start, first, typed, name, kb.symptoms, newIds, newId);
      NewSymptomsNumbering(start, typed');
      TypedNamesStep(lines, i, typed);
      kb.symptoms := kb.symptoms + [Symptom(newId, name)];
      newIds := newIds + [newId];
      typed := typed';
      i := i + 1;
    }
    assert typed == TypedNames(lines);
  }

  /** `add_rule`. `wantsNew` is the answer "s" to "add new symptoms?",
      `lines` the lines typed after it, `idsText` the comma-separated ids of
      existing symptoms and `solutionName` the new solution's description. */
  method AddRule(kb: KnowledgeBase, wantsNew: bool, lines: seq<string>, idsText: string, solutionName: string)
    modifies kb
    ensures kb.Contents() == Authored(old(kb.Contents()), wantsNew, lines, idsText, solutionName)
  {
    var newSymptomIds: seq<int> := [];
    if wantsNew {
      newSymptomIds := AddTypedSymptoms(kb, lines);
    } else {
      assert NewSymptoms(NextId(SymptomIds(kb.symptoms)), []) == [];
    }
    var symptomIds := ParseIds(idsText);
    var ruleSymptoms: seq<int> := symptomIds + newSymptomIds;
    var newSolId := NextId(SolutionIds(kb.solutions));
    kb.solutions := kb.solutions + [Solution(newSolId, solutionName)];
    var newRuleId := NextId(RuleIdList(kb.rules));
    kb.rules := kb.rules + [Rule(newRuleId, ruleSymptoms, newSolId)];
  }
}
