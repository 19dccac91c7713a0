/** The two pieces of console text the engine's callers turn into data:
    a comma-separated list of ids, `[int(x.strip()) for x in ids.split(",")
    if x.strip().isdigit()]`, and the answer to "which solution worked?",
    `matches[int(idx) - 1]` when `idx.strip().isdigit()`. */
module ConsoleInput {

  /** Python's `str.split(sep)`: the pieces between separators, empty ones
      included, so that `""` splits into `[""]`. */
  function Split(s: string, sep: char): (r: seq<string>)
    ensures |r| >= 1
  {
    if s == [] then [""]
    else if s[0] == sep then [""] + Split(s[1..], sep)
    else
      var rest := Split(s[1..], sep);
      [[s[0]] + rest[0]] + rest[1..]
  }

  /** The characters Python's `str.strip()` removes. */
  predicate IsSpace(c: char) {
    || c == ' ' || c == '\t' || c == '\n' || c == '\r'
    || c == '\U{000B}' || c == '\U{000C}'
    || ('\U{001C}' <= c <= '\U{001F}')
    || c == '\U{0085}' || c == '\U{00A0}' || c == '\U{1680}'
    || ('\U{2000}' <= c <= '\U{200A}')
    || c == '\U{2028}' || c == '\U{2029}' || c == '\U{202F}'
    || c == '\U{205F}' || c == '\U{3000}'
  }

  function StripLeft(s: string): (r: string)
    ensures |r| <= |s|
  {
    if s != [] && IsSpace(s[0]) then StripLeft(s[1..]) else s
  }

  function StripRight(s: string): (r: string)
    ensures |r| <= |s|
  {
    if s != [] && IsSpace(s[|s| - 1]) then StripRight(s[..|s| - 1]) else s
  }

  /** Python's `str.strip()`. */
  function Strip(s: string): string {
    StripRight(StripLeft(s))
  }

  predicate IsDigit(c: char) { '0' <= c <= '9' }

  /** Python's `str.isdigit()`, restricted to the ASCII digits. */
  predicate IsDigits(s: string) {
    s != [] && forall i | 0 <= i < |s| :: IsDigit(s[i])
  }

  /** Python's `int(s)` on a string of decimal digits. */
  function DigitsValue(s: string): nat
    requires forall i | 0 <= i < |s| :: IsDigit(s[i])
  {
    if s == [] then 0
    else
      assert IsDigit(s[|s| - 1]);
      DigitsValue(s[..|s| - 1]) * 10 + ((s[|s| - 1] as int) - ('0' as int))
  }

  /** The id one token contributes: its value when it is a digit string
      once stripped, nothing otherwise. */
  function TokenId(token: string): seq<nat> {
    var t := Strip(token);
    if IsDigits(t) then [DigitsValue(t)] else []
  }

  /** Keeps the tokens that are digit strings once stripped, as numbers. */
  function KeepIds(tokens: seq<string>): seq<nat> {
    if tokens == [] then [] else TokenId(tokens[0]) + KeepIds(tokens[1..])
  }

  /** The comma-separated id list parser. */
  function ParseIds(text: string): seq<nat> {
    KeepIds(Split(text, ','))
  }

  // ----- the inverse: writing ids back as text -----

  /** The decimal representation of `n`, as Python's `str(n)` writes it. */
  function NatToString(n: nat): (r: string)
    ensures IsDigits(r)
  {
    if n < 10 then [(('0' as int) + n) as char]
    else NatToString(n / 10) + [(('0' as int) + n % 10) as char]
  }

  /** The ids joined by commas, as `",".join(map(str, ids))` writes them. */
  function JoinIds(ids: seq<nat>): string {
    if ids == [] then ""
    else if |ids| == 1 then NatToString(ids[0])
    else NatToString(ids[0]) + "," + JoinIds(ids[1..])
  }

  lemma {:induction false} SplitAppend(a: string, b: string, sep: char)
    ensures Split(a + [sep] + b, sep) == Split(a, sep) + Split(b, sep)
  {
    if a == [] {
      assert a + [sep] + b == [sep] + b;
      assert ([sep] + b)[1..] == b;
    } else {
      assert (a + [sep] + b)[1..] == a[1..] + [sep] + b;
      SplitAppend(a[1..], b, sep);
    }
  }

  lemma {:induction false} KeepIdsAppend(a: seq<string>, b: seq<string>)
    ensures KeepIds(a + b) == KeepIds(a) + KeepIds(b)
  {
    if a == [] {
      assert a + b == b;
    } else {
      assert (a + b)[0] == a[0];
      assert (a + b)[1..] == a[1..] + b;
      KeepIdsAppend(a[1..], b);
    }
  }

  /** Parsing distributes over a comma: the pieces on either side are parsed
      independently and their ids concatenated in order. */
  lemma ParseIdsAppend(a: string, b: string)
    ensures ParseIds(a + "," + b) == ParseIds(a) + ParseIds(b)
  {
    SplitAppend(a, b, ',');
    KeepIdsAppend(Split(a, ','), Split(b, ','));
  }

  lemma {:induction false} SplitNoSep(s: string, sep: char)
    requires forall i | 0 <= i < |s| :: s[i] != sep
    ensures Split(s, sep) == [s]
  {
    if s != [] {
      SplitNoSep(s[1..], sep);
      assert [s[0]] + s[1..] == s;
    }
  }

  lemma StripDigits(s: string)
    requires IsDigits(s)
    ensures Strip(s) == s
  {
    assert !IsSpace(s[0]);
    assert !IsSpace(s[|s| - 1]);
  }

  lemma {:induction false} NatToStringValue(n: nat)
    ensures DigitsValue(NatToString(n)) == n
  {
    var r := NatToString(n);
    if n >= 10 {
      NatToStringValue(n / 10);
      assert r[..|r| - 1] == NatToString(n / 10);
    }
  }

  /** A single id written in decimal parses back to itself. */
  lemma ParseSingle(n: nat)
    ensures ParseIds(NatToString(n)) == [n]
  {
    var s := NatToString(n);
    SplitNoSep(s, ',');
    StripDigits(s);
    NatToStringValue(n);
    assert KeepIds([s]) == TokenId(s) + KeepIds([]);
  }

  /** Round trip: the comma-joined decimal ids parse back to the same list,
      in the same order. */
  lemma {:induction false} ParseJoinIds(ids: seq<nat>)
    ensures ParseIds(JoinIds(ids)) == ids
  {
    if ids == [] {
      assert Split("", ',') == [""];
      assert !IsDigits(Strip(""));
    } else if |ids| == 1 {
      ParseSingle(ids[0]);
    } else {
      ParseIdsAppend(NatToString(ids[0]), JoinIds(ids[1..]));
      ParseSingle(ids[0]);
      ParseJoinIds(ids[1..]);
    }
  }

  /** The ids of one comma-free piece of text. */
  lemma ParsePiece(s: string)
    requires forall i | 0 <= i < |s| :: s[i] != ','
    ensures ParseIds(s) == (if IsDigits(Strip(s)) then [DigitsValue(Strip(s))] else [])
  {
    SplitNoSep(s, ',');
    assert KeepIds([s]) == TokenId(s) + KeepIds([]);
  }

  /** Space-separated ids are one token that is not a digit string, so they
      yield no id at all. */
  lemma ParseSpaceSeparated()
    ensures ParseIds("1 2") == []
  {
    ParsePiece("1 2");
    assert !IsSpace('1') && !IsSpace('2') && !IsDigit(' ');
    assert Strip("1 2") == "1 2";
  }

  /** Padding around an id is ignored. */
  lemma ParsePadded()
    ensures ParseIds(" 3 ") == [3]
  {
    ParsePiece(" 3 ");
    assert StripLeft(" 3 ") == "3 ";
    assert StripRight("3 ") == "3";
    assert DigitsValue("3") == 3;
  }

  /** Non-numeric and empty text yields no id. */
  lemma ParseNonNumbers()
    ensures ParseIds("x") == [] && ParseIds("") == []
  {
    ParsePiece("x");
    assert Strip("x") == "x";
    ParsePiece("");
  }

  // ----- the answer to "which of these solutions worked?" -----

  /** What the typed answer selects among the shown entries. */
  datatype Selection<T> = Picked(item: T) | NoneWorked | IndexError

  /** `if idx.strip().isdigit(): selected = matches[int(idx) - 1]`, with
      Python's indexing: 0 selects the last entry (index -1) and a number past
      the end raises IndexError. Anything but a digit string means that none
      of the solutions worked. */
  function ResolveAnswer<T>(shown: seq<T>, answer: string): (r: Selection<T>)
    ensures r.NoneWorked? <==> !IsDigits(Strip(answer))
    ensures r.Picked? ==> r.item in shown
    ensures r.IndexError? <==> IsDigits(Strip(answer)) && (shown == [] || DigitsValue(Strip(answer)) > |shown|)
  {
    var t := Strip(answer);
    if !IsDigits(t) then NoneWorked
    else
      var i := DigitsValue(t) - 1;
      if -|shown| <= i < |shown| then Picked(shown[if i >= 0 then i else i + |shown|])
      else IndexError
  }

  /** Typing the number k of an entry, 1 <= k <= |shown|, selects that entry. */
  lemma ResolveNumber<T>(shown: seq<T>, k: nat)
    requires 1 <= k <= |shown|
    ensures ResolveAnswer(shown, NatToString(k)) == Picked(shown[k - 1])
  {
    StripDigits(NatToString(k));
    NatToStringValue(k);
  }

  /** Typing 0 selects the last entry shown. */
  lemma ResolveZero<T>(shown: seq<T>)
    requires shown != []
    ensures ResolveAnswer(shown, "0") == Picked(shown[|shown| - 1])
  {
    assert Strip("0") == "0" by { StripDigits("0"); }
    assert DigitsValue("0") == 0;
  }
}
