/**
 From the conditions written for each directory of one library to the directories installed for a
 configuration: rules are collected, compiled to a tree, and the tree is walked under the
 configuration completed with default values.
 */
module Installer {
  import opened Common
  import opened Rules
  import opened SourceTree

  datatype AddError = DefinedTwice | BadRule(error: RuleError)

  /** Every condition written for the directory holds. */
  ghost predicate AllHold(texts: seq<string>, declared: Declared, a: Assignment) {
    forall i :: 0 <= i < |texts| ==> Holds(texts[i], declared, a)
  }

  /** The directories whose conditions all hold. */
  ghost function Wanted(conditions: map<string, seq<string>>, declared: Declared, a: Assignment): set<string> {
    set d | d in conditions && AllHold(conditions[d], declared, a)
  }

  /** Unassigned scenario variables take their first declared value; nothing else changes. */
  method AddDefaults(scenarios: seq<string>, declared: Declared, before: Assignment) returns (after: Assignment)
    requires forall v :: v in scenarios ==> v in declared && declared[v] != []
    ensures forall v :: v in before ==> v in after && after[v] == before[v]
    ensures forall v :: v in scenarios && v !in before ==> v in after && after[v] == declared[v][0]
    ensures forall v :: v in after ==> v in before || v in scenarios
  {
    after := before;
    for k := 0 to |scenarios|
      invariant forall v :: v in before ==> v in after && after[v] == before[v]
      invariant forall v :: v in scenarios[..k] && v !in before ==> v in after && after[v] == declared[v][0]
      invariant forall v :: v in after ==> v in before || v in scenarios[..k]
    {
      if scenarios[k] !in after {
        after := after[scenarios[k] := declared[scenarios[k]][0]];
      }
    }
  }

  lemma TwicePresent(s: seq<string>, i: nat, j: nat)
    requires i < j < |s| && s[i] == s[j]
    ensures multiset(s)[s[i]] >= 2
  {
    assert s == s[..j] + s[j..];
    assert s[..j][i] == s[j..][0];
  }

  lemma EachOnce(dirs: seq<string>, wanted: set<string>)
    requires multiset(dirs) == multiset(wanted)
    ensures Distinct(dirs) && forall d :: d in dirs <==> d in wanted
  {
    forall d
      ensures d in dirs <==> d in wanted
    {
      assert d in dirs <==> d in multiset(dirs);
    }
    forall i, j | 0 <= i < j < |dirs| && dirs[i] == dirs[j]
      ensures false
    {
      TwicePresent(dirs, i, j);
    }
  }

  /** The rules of one library, as the source tree collects them. */
  class Library {
    const declared: Declared
    var rules: map<string, Rule>
    var used: seq<string>
    ghost var conditions: map<string, seq<string>>

    ghost predicate Valid()
      reads this
    {
      && PlainNames(declared)
      && Distinct(used)
      && (forall v :: v in used ==> v in declared && declared[v] != [])
      && rules.Keys == conditions.Keys
      && forall d :: d in rules ==>
           && WellFormed(rules[d], declared)
           && Means(rules[d], conditions[d], declared)
           && forall v :: v in rules[d].accepted ==> v in used
    }

    constructor (declared: Declared)
      requires PlainNames(declared)
      ensures Valid() && this.declared == declared && conditions == map[]
    {
      this.declared := declared;
      rules, used, conditions := map[], [], map[];
    }

    /** Records the scenario variables of a rule that no earlier rule uses. */
    method NoteScenarios(rule: Rule)
      requires Distinct(used) && forall v :: v in used ==> v in declared && declared[v] != []
      requires WellFormed(rule, declared)
      modifies this`used
      ensures Distinct(used) && forall v :: v in used ==> v in declared && declared[v] != []
      ensures forall v :: v in used <==> v in old(used) || v in rule.accepted
    {
      var todo := rule.accepted.Keys;
      while todo != {}
        invariant todo <= rule.accepted.Keys
        invariant Distinct(used) && forall v :: v in used ==> v in declared && declared[v] != []
        invariant forall v :: v in old(used) || (v in rule.accepted && v !in todo) ==> v in used
        invariant forall v :: v in used ==> v in old(used) || v in rule.accepted
        decreases |todo|
      {
        var v :| v in todo;
        assert rule.accepted[v][0] in declared[v];
        if v !in used {
          used := used + [v];
        }
        todo := todo - {v};
      }
    }

    method AddRule(directory: string, texts: seq<string>) returns (r: Result<Rule, AddError>)
      requires Valid()
      modifies this
      ensures Valid()
      ensures r.Success? ==> directory !in old(conditions) && conditions == old(conditions)[directory := texts]
      ensures r.Failure? ==> conditions == old(conditions) && rules == old(rules) && used == old(used)
      ensures r == Failure(DefinedTwice) <==> directory in old(conditions)
      ensures r.Failure? <==> directory in old(conditions) || Rejected(texts, declared)
    {
      if directory in rules {
        return Failure(DefinedTwice);
      }
      var parsed := NewRule(texts, declared);
      if parsed.Failure? {
        return Failure(BadRule(parsed.error));
      }
      rules := rules[directory := parsed.value];
      conditions := conditions[directory := texts];
      NoteScenarios(parsed.value);
      return Success(parsed.value);
    }

    /**
     The directories installed for a configuration: exactly those whose conditions all hold, each
     once, whatever the order in which the scenario variables are examined.  The assignment they have
     to hold under keeps every value the configuration has and gives each other variable in use its
     first declared value.
     */
    method InstalledDirs(order: seq<string>, variables: Assignment) returns (dirs: seq<string>, ghost full: Assignment)
      requires Valid() && rules != map[]
      requires Distinct(order) && forall v :: v in order <==> v in used
      ensures forall v :: v in variables ==> v in full && full[v] == variables[v]
      ensures forall v :: v in used && v !in variables ==> v in full && full[v] == declared[v][0]
      ensures forall v :: v in full ==> v in variables || v in used
      ensures forall d :: d in dirs <==>
        d in conditions && forall i :: 0 <= i < |conditions[d]| ==> Holds(conditions[d][i], declared, full)
      ensures Distinct(dirs)
    {
      var compiler := new Compiler(declared, rules);
      var tree := compiler.Dump(order);
      var assignment := AddDefaults(used, declared, variables);
      full := assignment;
      dirs := GetRtsDirs(tree.value, assignment);
      SelectedAtTop(rules, order, assignment);
      MatchingIsWanted(assignment);
      EachOnce(dirs, Wanted(conditions, declared, assignment));
    }

    lemma MatchingIsWanted(a: Assignment)
      requires Valid()
      ensures Matching(rules, a) == Wanted(conditions, declared, a)
    {
      forall d | d in rules
        ensures Matches(rules[d], a, false) <==> AllHold(conditions[d], declared, a)
      {
        assert Means(rules[d], conditions[d], declared);
      }
    }
  }
}
