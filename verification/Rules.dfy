/**
 Conditions on scenario variables, as the runtime build writes them: "Var:a,b" accepts the listed
 values and "Var:!a,!b" every declared value but those.  A list of conditions is parsed into a
 Rule, which is then matched against an assignment of the variables.
 */
module Rules {
  import opened Common

  /** The scenario variables, each with the values it may take. */
  type Declared = map<string, seq<string>>

  type Assignment = map<string, string>

  /** The values accepted for each constrained variable; an invalid rule never matches. */
  datatype Rule = Rule(accepted: map<string, seq<string>>, invalid: bool)

  datatype RuleError = WrongSyntax | UnknownVariable | MixedNegation | RepeatedNegation | DuplicatedVariable

  /** One parsed condition. */
  datatype Condition = Condition(variable: string, negate: bool, cases: seq<string>)

  /** What the table of scenario variables guarantees: no value is listed twice. */
  ghost predicate WellDeclared(declared: Declared) {
    forall v :: v in declared ==> Distinct(declared[v])
  }

  // ----- text -----

  function Split(s: string, sep: char): (parts: seq<string>)
    ensures |parts| >= 1
  {
    if s == "" then [""]
    else
      var rest := Split(s[1..], sep);
      if s[0] == sep then [""] + rest else [[s[0]] + rest[0]] + rest[1..]
  }

  /** White space, as a string is stripped of it. */
  predicate IsSpace(c: char) {
    var u := c as int;
    || 0x09 <= u <= 0x0D || 0x1C <= u <= 0x20 || u == 0x85 || u == 0xA0 || u == 0x1680
    || 0x2000 <= u <= 0x200A || u == 0x2028 || u == 0x2029 || u == 0x202F || u == 0x205F || u == 0x3000
  }

  function StripLeft(s: string): string {
    if s != "" && IsSpace(s[0]) then StripLeft(s[1..]) else s
  }

  function StripRight(s: string): string {
    if s != "" && IsSpace(s[|s| - 1]) then StripRight(s[..|s| - 1]) else s
  }

  function Strip(s: string): string {
    StripRight(StripLeft(s))
  }

  function StripAll(parts: seq<string>): (r: seq<string>)
    ensures |r| == |parts|
  {
    if parts == [] then [] else [Strip(parts[0])] + StripAll(parts[1..])
  }

  /** Drops the leading "!" of each case, or fails when one of them carries none. */
  function DropNegations(cases: seq<string>): Option<seq<string>> {
    if cases == [] then Some([])
    else if cases[0] == "" || cases[0][0] != '!' then None
    else
      match DropNegations(cases[1..])
      case None => None
      case Some(rest) => Some([cases[0][1..]] + rest)
  }

  /** The text of one condition, checked as the constructor of a rule checks it. */
  function ParseCondition(text: string, declared: Declared): Result<Condition, RuleError> {
    var parts := Split(text, ':');
    if |parts| != 2 then Failure(WrongSyntax)
    else
      var variable, value := Strip(parts[0]), Strip(parts[1]);
      if variable == "" || value == "" then Failure(WrongSyntax)
      else if variable !in declared then Failure(UnknownVariable)
      else
        var cases := StripAll(Split(value, ','));
        if cases[0] == "" then Failure(WrongSyntax)
        else if cases[0][0] == '!' then
          match DropNegations(cases)
          case None => Failure(MixedNegation)
          case Some(names) => Success(Condition(variable, true, names))
        else Success(Condition(variable, false, cases))
  }

  // ----- conditions as they are written -----

  lemma {:induction false} SplitPlain(s: string, sep: char)
    requires sep !in s
    ensures Split(s, sep) == [s]
  {
    if s != "" {
      SplitPlain(s[1..], sep);
      assert [s[0]] + s[1..] == s;
    }
  }

  lemma {:induction false} SplitAtFirst(a: string, b: string, sep: char)
    requires sep !in a
    ensures Split(a + [sep] + b, sep) == [a] + Split(b, sep)
  {
    if a == "" {
      assert a + [sep] + b == [sep] + b;
    } else {
      SplitAtFirst(a[1..], b, sep);
      assert (a + [sep] + b)[1..] == a[1..] + [sep] + b;
      assert [a[0]] + a[1..] == a;
    }
  }

  predicate PlainWord(s: string) {
    s != "" && forall i :: 0 <= i < |s| ==> s[i] !in {':', ',', '!'} && !IsSpace(s[i])
  }

  /** The values as they are listed in a condition, each with its mark. */
  function Marked(names: seq<string>, negate: bool): (r: seq<string>)
    ensures |r| == |names|
    ensures forall i :: 0 <= i < |r| ==> r[i] == (if negate then "!" else "") + names[i]
  {
    if names == [] then [] else [(if negate then "!" else "") + names[0]] + Marked(names[1..], negate)
  }

  function Joined(words: seq<string>): string
    requires words != []
  {
    if |words| == 1 then words[0] else words[0] + "," + Joined(words[1..])
  }

  function Written(variable: string, names: seq<string>, negate: bool): string
    requires names != []
  {
    variable + ":" + Joined(Marked(names, negate))
  }

  lemma {:induction false} SplitJoined(words: seq<string>)
    requires words != [] && forall i :: 0 <= i < |words| ==> ',' !in words[i]
    ensures Split(Joined(words), ',') == words
    decreases |words|
  {
    if |words| == 1 {
      SplitPlain(words[0], ',');
    } else {
      SplitAtFirst(words[0], Joined(words[1..]), ',');
      SplitJoined(words[1..]);
    }
  }

  lemma {:induction false} JoinedIsPlain(words: seq<string>)
    requires words != [] && forall i :: 0 <= i < |words| ==> IsBare(words[i])
    ensures IsBare(Joined(words))
    decreases |words|
  {
    if |words| > 1 {
      JoinedIsPlain(words[1..]);
      assert words[1..][0] == words[1];
    }
  }

  /** Neither a colon nor white space anywhere. */
  predicate IsBare(s: string) {
    s != "" && ':' !in s && forall i :: 0 <= i < |s| ==> !IsSpace(s[i])
  }

  lemma BareIsStripped(s: string)
    requires IsBare(s)
    ensures Strip(s) == s
  {
    hide IsSpace;
    assert !IsSpace(s[0]) && !IsSpace(s[|s| - 1]);
  }

  lemma {:induction false} BareAreStripped(words: seq<string>)
    requires forall i :: 0 <= i < |words| ==> IsBare(words[i])
    ensures StripAll(words) == words
    decreases |words|
  {
    if words != [] {
      BareIsStripped(words[0]);
      BareAreStripped(words[1..]);
    }
  }

  lemma {:induction false} NegationsAreDropped(names: seq<string>)
    ensures DropNegations(Marked(names, true)) == Some(names)
    decreases |names|
  {
    if names != [] {
      NegationsAreDropped(names[1..]);
      var word := "!" + names[0];
      assert word[0] == '!' && word[1..] == names[0];
      assert Marked(names, true)[1..] == Marked(names[1..], true);
      assert [names[0]] + names[1..] == names;
    }
  }

  lemma MarkedAreBare(names: seq<string>, negate: bool)
    requires names != [] && forall i :: 0 <= i < |names| ==> PlainWord(names[i])
    ensures forall i :: 0 <= i < |names| ==> IsBare(Marked(names, negate)[i]) && ',' !in Marked(names, negate)[i]
    ensures Marked(names, negate)[0] != "" && (Marked(names, negate)[0][0] == '!' <==> negate)
    ensures !negate ==> Marked(names, negate) == names
  {
    var words := Marked(names, negate);
    forall i | 0 <= i < |words|
      ensures IsBare(words[i]) && ',' !in words[i] && (words[i][0] == '!' <==>
        negate) && (!negate ==> words[i] == names[i])
    {
      assert PlainWord(names[i]);
    }
  }

  /** A condition that is written down is read back: its variable, whether it negates, and its values. */
  lemma ConditionReadsBack(variable: string, names: seq<string>, negate: bool, declared: Declared)
    requires PlainWord(variable) && variable in declared
    requires names != [] && forall i :: 0 <= i < |names| ==> PlainWord(names[i])
    ensures ParseCondition(Written(variable, names, negate), declared) == Success(Condition(variable, negate, names))
  {
    var words := Marked(names, negate);
    var value := Joined(words);
    MarkedAreBare(names, negate);
    JoinedIsPlain(words);
    SplitAtFirst(variable, value, ':');
    SplitPlain(value, ':');
    BareIsStripped(variable);
    BareIsStripped(value);
    SplitJoined(words);
    BareAreStripped(words);
    hide Strip;
    hide StripAll;
    hide Split;
    hide Joined;
    if negate {
      NegationsAreDropped(names);
    }
    hide DropNegations;
    hide Marked;
  }

  /** Blanks, tabs and line ends only. */
  predicate IsPadding(s: string) {
    forall i :: 0 <= i < |s| ==> s[i] in {' ', '\t', '\n', '\r'}
  }

  lemma {:induction false} LeftIsStripped(pre: string, rest: string)
    requires IsPadding(pre) && rest != "" && !IsSpace(rest[0])
    ensures StripLeft(pre + rest) == rest
  {
    if pre == "" {
      assert pre + rest == rest;
    } else {
      assert (pre + rest)[1..] == pre[1..] + rest;
      LeftIsStripped(pre[1..], rest);
    }
  }

  lemma {:induction false} RightIsStripped(rest: string, post: string)
    requires IsPadding(post) && rest != "" && !IsSpace(rest[|rest| - 1])
    ensures StripRight(rest + post) == rest
    decreases |post|
  {
    if post == "" {
      assert rest + post == rest;
    } else {
      assert (rest + post)[..|rest + post| - 1] == rest + post[..|post| - 1];
      RightIsStripped(rest, post[..|post| - 1]);
    }
  }

  /** A word with white space around it. */
  datatype Spaced = Spaced(pre: string, word: string, post: string) {
    function Text(): string { pre + word + post }

    predicate Fine() { IsPadding(pre) && IsPadding(post) && IsBare(word) && ',' !in word }
  }

  lemma SpacedIsStripped(s: Spaced)
    requires s.Fine()
    ensures Strip(s.Text()) == s.word && ':' !in s.Text() && ',' !in s.Text()
  {
    hide IsSpace;
    assert s.Text() == s.pre + (s.word + s.post);
    assert (s.word + s.post)[0] == s.word[0];
    LeftIsStripped(s.pre, s.word + s.post);
    RightIsStripped(s.word, s.post);
  }

  function Texts(words: seq<Spaced>): (r: seq<string>)
    ensures |r| == |words| && forall i :: 0 <= i < |r| ==> r[i] == words[i].Text()
  {
    if words == [] then [] else [words[0].Text()] + Texts(words[1..])
  }

  function Words(words: seq<Spaced>): (r: seq<string>)
    ensures |r| == |words| && forall i :: 0 <= i < |r| ==> r[i] == words[i].word
  {
    if words == [] then [] else [words[0].word] + Words(words[1..])
  }

  lemma {:induction false} AllAreStripped(words: seq<Spaced>)
    requires forall i :: 0 <= i < |words| ==> words[i].Fine()
    ensures StripAll(Texts(words)) == Words(words)
  {
    if words != [] {
      SpacedIsStripped(words[0]);
      AllAreStripped(words[1..]);
    }
  }

  lemma FirstPadding(words: seq<Spaced>)
    requires words != []
    ensures Joined(Texts(words)) == words[0].pre + Joined(Texts(words[0 := words[0].(pre := "")]))
  {
    var trimmed := words[0 := words[0].(pre := "")];
    assert trimmed[1..] == words[1..];
  }

  lemma {:induction false} LastPadding(words: seq<Spaced>)
    requires words != []
    ensures var last := |words| - 1;
      Joined(Texts(words)) == Joined(Texts(words[last := words[last].(post := "")])) + words[last].post
    decreases |words|
  {
    var last := |words| - 1;
    var trimmed := words[last := words[last].(post := "")];
    if last > 0 {
      LastPadding(words[1..]);
      assert trimmed[1..] == words[1..][last - 1 := words[1..][last - 1].(post := "")];
    }
  }

  lemma {:induction false} EndsWithWord(words: seq<Spaced>)
    requires words != [] && words[|words| - 1].post == "" && words[|words| - 1].word != ""
    ensures var all, last := Joined(Texts(words)), words[|words| - 1].word;
      all != "" && all[|all| - 1] == last[|last| - 1]
    decreases |words|
  {
    if |words| > 1 {
      EndsWithWord(words[1..]);
    }
  }

  lemma StartsWithWord(words: seq<Spaced>)
    requires words != [] && words[0].pre == "" && words[0].word != ""
    ensures Joined(Texts(words)) != "" && Joined(Texts(words))[0] == words[0].word[0]
  {
  }

  /** What is left of a list of values when the white space around all of it is taken off. */
  lemma ValueIsStripped(words: seq<Spaced>) returns (inner: seq<Spaced>)
    requires AllFine(words)
    ensures AllFine(inner) && Words(inner) == Words(words)
    ensures Strip(Joined(Texts(words))) == Joined(Texts(inner)) != ""
  {
    hide *;
    NotEmpty(words);
    var last := |words| - 1;
    var half := words[0 := words[0].(pre := "")];
    inner := half[last := half[last].(post := "")];
    TrimmedIsFine(words, 0, words[0].(pre := ""));
    TrimmedIsFine(half, last, half[last].(post := ""));
    FineEnds(words);
    FineEnds(half);
    FineEnds(inner);
    FirstPadding(words);
    LastPadding(half);
    EndsWithWord(inner);
    StartsWithWord(inner);
    StartsWithWord(half);
    StrippedBothSides(words[0].pre, Joined(Texts(inner)), half[last].post);
    assert Joined(Texts(words)) == words[0].pre + (Joined(Texts(inner)) + half[last].post);
  }

  ghost predicate AllFine(words: seq<Spaced>) {
    words != [] && forall i :: 0 <= i < |words| ==> words[i].Fine()
  }

  lemma FineAreStripped(words: seq<Spaced>)
    requires AllFine(words)
    ensures StripAll(Texts(words)) == Words(words)
  {
    AllAreStripped(words);
  }

  lemma NotEmpty(words: seq<Spaced>)
    requires AllFine(words)
    ensures words != []
  {
  }

  lemma TrimmedIsFine(words: seq<Spaced>, k: nat, w: Spaced)
    requires AllFine(words) && k < |words| && w.word == words[k].word
    requires w.pre in {"", words[k].pre} && w.post in {"", words[k].post}
    ensures AllFine(words[k := w]) && Words(words[k := w]) == Words(words)
  {
    hide IsBare;
    assert words[k].Fine();
  }

  /** The words at the ends begin and end with something else than white space. */
  lemma FineEnds(words: seq<Spaced>)
    requires AllFine(words)
    ensures var first, last := words[0], words[|words| - 1];
      && IsPadding(first.pre) && IsPadding(last.post) && first.word != "" && last.word != ""
      && !IsSpace(first.word[0]) && !IsSpace(last.word[|last.word| - 1])
  {
    hide IsSpace;
    assert words[0].Fine() && words[|words| - 1].Fine();
  }

  lemma StrippedBothSides(pre: string, value: string, post: string)
    requires IsPadding(pre) && IsPadding(post) && value != "" && !IsSpace(value[0]) && !IsSpace(value[|value| - 1])
    ensures Strip(pre + (value + post)) == value
  {
    hide IsSpace;
    LeftIsStripped(pre, value + post);
    RightIsStripped(value, post);
  }

  lemma {:induction false} JoinedHasNoColon(words: seq<string>)
    requires words != [] && forall i :: 0 <= i < |words| ==> ':' !in words[i]
    ensures ':' !in Joined(words)
    decreases |words|
  {
    if |words| > 1 {
      JoinedHasNoColon(words[1..]);
    }
  }

  lemma TextsHaveNoMarks(words: seq<Spaced>)
    requires AllFine(words)
    ensures ':' !in Joined(Texts(words)) && forall i :: 0 <= i < |words| ==> ',' !in Texts(words)[i]
  {
    hide Joined;
    hide Strip;
    forall i | 0 <= i < |words|
      ensures ':' !in Texts(words)[i] && ',' !in Texts(words)[i]
    {
      SpacedIsStripped(words[i]);
    }
    JoinedHasNoColon(Texts(words));
  }

  /** What is made of the cases of a condition. */
  function ConditionOf(variable: string, names: seq<string>): Result<Condition, RuleError>
    requires names != []
  {
    if names[0] == "" || names[0][0] != '!' then Success(Condition(variable, false, names))
    else
      match DropNegations(names)
      case None => Failure(MixedNegation)
      case Some(bare) => Success(Condition(variable, true, bare))
  }

  lemma PartsParsed(text: string, declared: Declared, left: string, right: string, names: seq<string>)
    requires Split(text, ':') == [left, right] && Strip(left) in declared && Strip(left) != "" && Strip(right) != ""
    requires StripAll(Split(Strip(right), ',')) == names && names != [] && names[0] != ""
    ensures ParseCondition(text, declared) == ConditionOf(Strip(left), names)
  {
    hide Strip;
    hide StripAll;
    hide Split;
    hide DropNegations;
  }

  lemma WordsAreBare(words: seq<Spaced>)
    requires AllFine(words)
    ensures Words(words)[0] != ""
  {
    assert words[0].Fine();
  }

  /** How a condition is parsed, given its variable and its cases without the white space around them. */
  lemma ParsedAs(variable: Spaced, words: seq<Spaced>, declared: Declared)
    requires variable.Fine() && variable.word in declared && variable.word != ""
    requires AllFine(words)
    ensures ParseCondition(variable.Text() + ":" + Joined(Texts(words)), declared)
      == ConditionOf(variable.word, Words(words))
  {
    hide *;
    NotEmpty(words);
    var value := Joined(Texts(words));
    TextsHaveNoMarks(words);
    SpacedIsStripped(variable);
    SplitAtFirst(variable.Text(), value, ':');
    SplitPlain(value, ':');
    var inner := ValueIsStripped(words);
    TextsHaveNoMarks(inner);
    SplitJoined(Texts(inner));
    FineAreStripped(inner);
    WordsAreBare(words);
    assert [variable.Text()] + [value] == [variable.Text(), value];
    PartsParsed(variable.Text() + ":" + value, declared, variable.Text(), value, Words(words));
  }

  lemma BareTexts(words: seq<Spaced>)
    requires AllFine(words)
    ensures var bares := seq(|words|, i requires 0 <= i < |words| => Spaced("", words[i].word, ""));
      AllFine(bares) && Texts(bares) == Words(words) == Words(bares)
  {
    hide IsBare;
    var bares := seq(|words|, i requires 0 <= i < |words| => Spaced("", words[i].word, ""));
    forall i | 0 <= i < |words|
      ensures bares[i].Fine() && bares[i].Text() == words[i].word
    {
      assert words[i].Fine();
    }
  }

  lemma BareText(s: Spaced)
    requires s.Fine()
    ensures Spaced("", s.word, "").Fine() && Spaced("", s.word, "").Text() == s.word != ""
  {
  }

  /** White space around the variable and around each value makes no difference. */
  lemma SpacingIsIgnored(variable: Spaced, words: seq<Spaced>, declared: Declared)
    requires variable.Fine() && variable.word in declared && AllFine(words)
    ensures Words(words) != []
    ensures ParseCondition(variable.Text() + ":" + Joined(Texts(words)), declared)
      == ParseCondition(variable.word + ":" + Joined(Words(words)), declared)
  {
    hide *;
    NotEmpty(words);
    BareTexts(words);
    BareText(variable);
    var bares := seq(|words|, i requires 0 <= i < |words| => Spaced("", words[i].word, ""));
    ParsedAs(variable, words, declared);
    ParsedAs(Spaced("", variable.word, ""), bares, declared);
  }

  // ----- accepted values -----

  /** The condition accepts this value of its variable. */
  predicate Accepts(c: Condition, declared: Declared, value: string) {
    c.variable in declared && value in declared[c.variable] && (value in c.cases <==> !c.negate)
  }

  /** The assignment satisfies the condition written in this text. */
  predicate Holds(text: string, declared: Declared, assignment: Assignment) {
    match ParseCondition(text, declared)
    case Failure(_) => false
    case Success(c) => c.variable in assignment && Accepts(c, declared, assignment[c.variable])
  }

  function RemoveFirst(s: seq<string>, x: string): (r: seq<string>)
    requires x in s
    requires Distinct(s)
    ensures Distinct(r)
    ensures forall y :: y in r <==> y in s && y != x
  {
    if s[0] == x then
      assert s == [s[0]] + s[1..];
      s[1..]
    else
      assert s == [s[0]] + s[1..];
      var rest := RemoveFirst(s[1..], x);
      assert s[0] !in s[1..];
      assert forall j :: 0 <= j < |rest| ==> rest[j] in rest;
      [s[0]] + rest
  }

  /** "Var:a,b" holds if the variable has one of these values, "Var:!a,!b" if it has another declared one. */
  lemma WrittenMeans(variable: string, names: seq<string>, negate: bool, declared: Declared, a: Assignment)
    requires PlainWord(variable) && variable in declared
    requires names != [] && forall i :: 0 <= i < |names| ==> PlainWord(names[i])
    ensures Holds(Written(variable, names, negate), declared, a)
      <==> variable in a && a[variable] in declared[variable] && (a[variable] in names <==> !negate)
  {
    ConditionReadsBack(variable, names, negate, declared);
    hide ParseCondition;
  }

  /** The values left to the variable: the loop over the cases of one condition. */
  method AcceptedValues(c: Condition, declared: Declared) returns (r: Result<seq<string>, RuleError>)
    requires c.variable in declared && WellDeclared(declared)
    ensures r.Success? ==> forall x :: x in r.value <==> Accepts(c, declared, x)
    ensures r.Failure? <==> RepeatsNegation(c, declared)
  {
    var values := if c.negate then declared[c.variable] else [];
    for k := 0 to |c.cases|
      invariant c.negate ==> Distinct(values)
      invariant forall x :: x in values <==> x in declared[c.variable] && (x in c.cases[..k] <==> !c.negate)
      invariant c.negate ==> forall i, j :: 0 <= i < j < k && c.cases[i] == c.cases[j] ==>
        c.cases[i] !in declared[c.variable]
    {
      var item := c.cases[k];
      assert c.cases[..k + 1] == c.cases[..k] + [item];
      if item in declared[c.variable] {
        if c.negate {
          if item !in values {
            assert item in c.cases[..k];
            return Failure(RepeatedNegation);
          }
          values := RemoveFirst(values, item);
        } else {
          values := values + [item];
        }
      }
    }
    assert c.cases[..|c.cases|] == c.cases;
    return Success(values);
  }

  // ----- rules -----

  /** Every accepted list is a non-empty part of the declared values, and an invalid rule lists nothing. */
  ghost predicate WellFormed(r: Rule, declared: Declared) {
    && (r.invalid ==> r.accepted == map[])
    && forall v :: v in r.accepted ==>
         v in declared && r.accepted[v] != [] && forall x :: x in r.accepted[v] ==> x in declared[v]
  }

  predicate Matches(r: Rule, variables: Assignment, exact: bool) {
    && !r.invalid
    && (forall v | v in r.accepted :: v in variables && variables[v] in r.accepted[v])
    && (exact ==> forall v | v in variables :: v in r.accepted)
  }

  predicate PartialMatch(r: Rule, variables: Assignment) {
    forall v | v in variables :: v in r.accepted && variables[v] in r.accepted[v]
  }

  /** The rule matches exactly the assignments that satisfy each of the conditions it was read from. */
  ghost predicate Means(r: Rule, texts: seq<string>, declared: Declared) {
    forall a: Assignment :: Matches(r, a, false) <==> forall i :: 0 <= i < |texts| ==> Holds(texts[i], declared, a)
  }

  /** Condition number i reads correctly and constrains v. */
  ghost predicate Constrains(texts: seq<string>, i: nat, declared: Declared, v: string)
    requires i < |texts|
  {
    match ParseCondition(texts[i], declared)
    case Failure(_) => false
    case Success(c) => c.variable == v
  }

  /** What the loop over the conditions has built from the first n of them. */
  ghost predicate Built(accepted: map<string, seq<string>>, texts: seq<string>, n: nat, declared: Declared)
    requires n <= |texts|
  {
    && WellFormed(Rule(accepted, false), declared)
    && (forall v :: v in accepted ==> exists i :: 0 <= i < n && Constrains(texts, i, declared, v))
    && (forall i :: 0 <= i < n ==> ParsedInto(accepted, texts[i], declared))
  }

  ghost predicate ParsedInto(accepted: map<string, seq<string>>, text: string, declared: Declared) {
    match ParseCondition(text, declared)
    case Failure(_) => false
    case Success(c) =>
      && c.variable in accepted
      && forall x :: x in accepted[c.variable] <==> Accepts(c, declared, x)
  }

  /** A negation that lists a declared value twice. */
  predicate RepeatsNegation(c: Condition, declared: Declared) {
    && c.negate && c.variable in declared
    && exists i, j :: 0 <= i < j < |c.cases| && c.cases[i] == c.cases[j] && c.cases[i] in declared[c.variable]
  }

  /** Condition number k is an error: by its text, or because an earlier one constrains the same variable. */
  ghost predicate Faulty(texts: seq<string>, declared: Declared, k: nat)
    requires k < |texts|
  {
    match ParseCondition(texts[k], declared)
    case Failure(_) => true
    case Success(c) =>
      || (exists i :: 0 <= i < k && Constrains(texts, i, declared, c.variable))
      || RepeatsNegation(c, declared)
  }

  /** Condition number k accepts no value at all. */
  ghost predicate Impossible(texts: seq<string>, declared: Declared, k: nat)
    requires k < |texts|
  {
    match ParseCondition(texts[k], declared)
    case Failure(_) => false
    case Success(c) => forall x :: !Accepts(c, declared, x)
  }

  /** The first k conditions are neither errors nor impossible: condition number k is looked at. */
  ghost predicate Passes(texts: seq<string>, declared: Declared, k: nat)
    requires k <= |texts|
  {
    forall j :: 0 <= j < k ==> !Faulty(texts, declared, j) && !Impossible(texts, declared, j)
  }

  /** The conditions are rejected: an error comes before any impossible condition. */
  ghost predicate Rejected(texts: seq<string>, declared: Declared) {
    exists k :: 0 <= k < |texts| && Passes(texts, declared, k) && Faulty(texts, declared, k)
  }

  /** The conditions can never be met: an impossible one comes before any error. */
  ghost predicate NeverMet(texts: seq<string>, declared: Declared) {
    exists k :: 0 <= k < |texts| && Passes(texts, declared, k) && !Faulty(texts, declared, k)
      && Impossible(texts, declared, k)
  }

  lemma FirstDecides(texts: seq<string>, declared: Declared, k: nat)
    requires k < |texts| && Passes(texts, declared, k) && (Faulty(texts, declared, k) || Impossible(texts, declared, k))
    ensures Rejected(texts, declared) <==> Faulty(texts, declared, k)
    ensures NeverMet(texts, declared) <==> !Faulty(texts, declared, k)
  {
    hide Faulty;
    hide Impossible;
    forall j | 0 <= j < |texts| && Passes(texts, declared, j)
      && (Faulty(texts, declared, j) || Impossible(texts, declared, j))
      ensures j == k
    {
    }
  }

  lemma AllPass(texts: seq<string>, declared: Declared)
    requires Passes(texts, declared, |texts|)
    ensures !Rejected(texts, declared) && !NeverMet(texts, declared)
  {
  }

  lemma BuiltMeans(accepted: map<string, seq<string>>, texts: seq<string>, declared: Declared)
    requires Built(accepted, texts, |texts|, declared)
    ensures Means(Rule(accepted, false), texts, declared)
  {
    var r := Rule(accepted, false);
    forall a: Assignment
      ensures Matches(r, a, false) <==> forall i :: 0 <= i < |texts| ==> Holds(texts[i], declared, a)
    {
      if Matches(r, a, false) {
        forall i | 0 <= i < |texts|
          ensures Holds(texts[i], declared, a)
        {
          assert ParsedInto(accepted, texts[i], declared);
        }
      }
      if forall i :: 0 <= i < |texts| ==> Holds(texts[i], declared, a) {
        forall v | v in accepted
          ensures v in a && a[v] in accepted[v]
        {
          var i :| 0 <= i < |texts| && Constrains(texts, i, declared, v);
          assert Holds(texts[i], declared, a) && ParsedInto(accepted, texts[i], declared);
        }
      }
    }
  }

  lemma NeverAccepted(texts: seq<string>, k: nat, declared: Declared)
    requires k < |texts|
    requires ParseCondition(texts[k], declared).Success?
    requires forall x :: !Accepts(ParseCondition(texts[k], declared).value, declared, x)
    ensures Means(Rule(map[], true), texts, declared)
  {
    forall a: Assignment
      ensures !Holds(texts[k], declared, a)
    {
    }
  }

  /** The constructor of a rule. */
  method NewRule(texts: seq<string>, declared: Declared) returns (r: Result<Rule, RuleError>)
    requires WellDeclared(declared)
    ensures r.Failure? <==> Rejected(texts, declared)
    ensures r.Success? ==> WellFormed(r.value, declared) && Means(r.value, texts, declared)
    ensures r.Success? ==> (r.value.invalid <==> NeverMet(texts, declared))
    ensures r.Success? && !r.value.invalid ==> Built(r.value.accepted, texts, |texts|, declared)
  {
    hide Means;
    hide ParseCondition;
    var accepted := map[];
    for k := 0 to |texts|
      invariant Built(accepted, texts, k, declared) && Passes(texts, declared, k)
    {
      var parsed := ParseCondition(texts[k], declared);
      if parsed.Failure? {
        FirstDecides(texts, declared, k);
        return Failure(parsed.error);
      }
      var c := parsed.value;
      ParsedVariable(texts[k], declared);
      RepeatedVariable(accepted, texts, k, declared);
      if c.variable in accepted {
        FirstDecides(texts, declared, k);
        return Failure(DuplicatedVariable);
      }
      var values := AcceptedValues(c, declared);
      if values.Failure? {
        FirstDecides(texts, declared, k);
        return Failure(values.error);
      }
      if values.value == [] {
        NothingAccepted(texts, k, declared, values.value);
        FirstDecides(texts, declared, k);
        NeverAccepted(texts, k, declared);
        return Success(Rule(map[], true));
      }
      assert Accepts(c, declared, values.value[0]);
      BuiltStep(accepted, texts, k, declared, values.value);
      accepted := accepted[c.variable := values.value];
    }
    AllPass(texts, declared);
    BuiltMeans(accepted, texts, declared);
    return Success(Rule(accepted, false));
  }

  lemma ParsedVariable(text: string, declared: Declared)
    requires ParseCondition(text, declared).Success?
    ensures ParseCondition(text, declared).value.variable in declared
  {
  }

  /** The variables constrained so far are those of the conditions read so far. */
  lemma RepeatedVariable(accepted: map<string, seq<string>>, texts: seq<string>, k: nat, declared: Declared)
    requires k < |texts| && Built(accepted, texts, k, declared) && ParseCondition(texts[k], declared).Success?
    ensures var v := ParseCondition(texts[k], declared).value.variable;
      v in accepted <==> exists i :: 0 <= i < k && Constrains(texts, i, declared, v)
  {
    hide ParseCondition;
    var v := ParseCondition(texts[k], declared).value.variable;
    if i :| 0 <= i < k && Constrains(texts, i, declared, v) {
      assert ParsedInto(accepted, texts[i], declared);
    }
  }

  lemma NothingAccepted(texts: seq<string>, k: nat, declared: Declared, values: seq<string>)
    requires k < |texts| && ParseCondition(texts[k], declared).Success? && values == []
    requires forall x :: x in values <==> Accepts(ParseCondition(texts[k], declared).value, declared, x)
    ensures Impossible(texts, declared, k)
    ensures forall x :: !Accepts(ParseCondition(texts[k], declared).value, declared, x)
  {
    forall x
      ensures !Accepts(ParseCondition(texts[k], declared).value, declared, x)
    {
      assert x !in values;
    }
  }

  lemma BuiltStep(accepted: map<string, seq<string>>, texts: seq<string>, k: nat, declared: Declared,
                  values: seq<string>)
    requires k < |texts| && Built(accepted, texts, k, declared)
    requires ParseCondition(texts[k], declared).Success?
    requires var c := ParseCondition(texts[k], declared).value;
      && c.variable !in accepted && values != []
      && forall x :: x in values <==> Accepts(c, declared, x)
    ensures Built(accepted[ParseCondition(texts[k], declared).value.variable := values], texts, k + 1, declared)
  {
    var c := ParseCondition(texts[k], declared).value;
    var after := accepted[c.variable := values];
    assert Accepts(c, declared, values[0]);
    assert Constrains(texts, k, declared, c.variable);
    forall i | 0 <= i < k + 1
      ensures ParsedInto(after, texts[i], declared)
    {
      if i < k {
        assert ParsedInto(accepted, texts[i], declared);
      }
    }
  }
}
