/**
 The completion of a configuration with the scenario values that its active source directories
 require, repeated until a whole pass over the table changes nothing.
 */
module CheckDeps {
  import opened Common
  import opened Rules

  /** A source directory: the rule that activates it, if any, and the rule it requires, if any. */
  datatype Entry = Entry(conditions: Option<Rule>, needs: Option<Rule>)

  predicate Active(e: Entry, s: Assignment) {
    e.conditions.Some? ==> Matches(e.conditions.value, s, false)
  }

  predicate Satisfied(e: Entry, s: Assignment) {
    e.needs.Some? && Active(e, s) ==> Matches(e.needs.value, s, false)
  }

  ghost predicate Closed(table: seq<Entry>, s: Assignment) {
    forall e :: e in table ==> Satisfied(e, s)
  }

  /** What is required is possible, single-valued, and the same value everywhere, namely that of the goal. */
  ghost predicate Consistent(table: seq<Entry>, goal: Assignment) {
    forall e :: e in table && e.needs.Some? ==> Demands(e.needs.value, goal)
  }

  ghost predicate Demands(needs: Rule, goal: Assignment) {
    && !needs.invalid
    && forall v :: v in needs.accepted ==> v in goal && needs.accepted[v] == [goal[v]]
  }

  /** Whatever becomes active on the way from the given configuration to the goal demands only the goal. */
  ghost predicate Steered(table: seq<Entry>, before: Assignment, goal: Assignment) {
    forall e, t :: e in table && e.needs.Some? && Extends(before, t, goal) && Active(e, t) ==>
      Demands(e.needs.value, goal)
  }

  lemma ConsistentIsSteered(table: seq<Entry>, before: Assignment, goal: Assignment)
    requires Consistent(table, goal)
    ensures Steered(table, before, goal)
  {
  }

  /** A condition on a required variable accepts the required value. */
  ghost predicate Monotone(table: seq<Entry>, goal: Assignment) {
    forall e :: e in table && e.conditions.Some? ==>
      forall v :: v in e.conditions.value.accepted && v in goal ==> goal[v] in e.conditions.value.accepted[v]
  }

  predicate Reached(s: Assignment, v: string, goal: Assignment)
    requires v in goal
  {
    v in s && s[v] == goal[v]
  }

  /** Only required values have been set on top of the given configuration. */
  ghost predicate Extends(before: Assignment, after: Assignment, goal: Assignment) {
    && (forall v :: v in before ==> v in after)
    && forall v :: v in after ==> (v in before && after[v] == before[v]) || (v in goal && Reached(after, v, goal))
  }

  /** Whatever has been changed in s is at its required value in t as well. */
  ghost predicate Below(before: Assignment, s: Assignment, t: Assignment, goal: Assignment) {
    forall v :: v in goal && Reached(s, v, goal) && !Reached(before, v, goal) ==> Reached(t, v, goal)
  }

  ghost predicate LeastClosed(table: seq<Entry>, before: Assignment, s: Assignment, goal: Assignment) {
    && Extends(before, s, goal)
    && Closed(table, s)
    && forall t :: Extends(before, t, goal) && Closed(table, t) ==> Below(before, s, t, goal)
  }

  /** The required variables not yet at their required value: what the loop uses up. */
  ghost function Open(s: Assignment, goal: Assignment): set<string> {
    set v | v in goal && !Reached(s, v, goal)
  }

  /** The single value of each variable of a required rule. */
  function CorrespondingScenario(needs: Rule): Assignment
    requires SingleValued(needs)
  {
    map v | v in needs.accepted :: needs.accepted[v][0]
  }

  /** No choice is left for any variable; an invalid rule lists none. */
  predicate SingleValued(needs: Rule) {
    forall v | v in needs.accepted :: |needs.accepted[v]| == 1
  }

  /** The entry is active and what it requires is not met. */
  predicate Unmet(e: Entry, s: Assignment) {
    e.needs.Some? && Active(e, s) && !Matches(e.needs.value, s, false)
  }

  /** Meeting an unmet requirement uses up a required variable and sets required values only. */
  lemma UpdateAdvances(needs: Rule, before: Assignment, s: Assignment, goal: Assignment)
    requires Demands(needs, goal) && Extends(before, s, goal) && !Matches(needs, s, false)
    ensures var after := s + CorrespondingScenario(needs);
      Open(after, goal) < Open(s, goal) && Extends(before, after, goal)
  {
    var after := s + CorrespondingScenario(needs);
    var v :| v in needs.accepted && !(v in s && s[v] in needs.accepted[v]);
    assert v in Open(s, goal) && v !in Open(after, goal);
    forall u | u in Open(after, goal)
      ensures u in Open(s, goal)
    {
      assert u !in needs.accepted;
    }
  }

  /** A closed extension has to follow every forced update. */
  lemma UpdateStaysBelow(table: seq<Entry>, e: Entry, before: Assignment, s: Assignment, t: Assignment,
                         goal: Assignment)
    requires Steered(table, before, goal) && Monotone(table, goal)
    requires e in table && e.needs.Some? && Active(e, s)
    requires Extends(before, s, goal) && Extends(before, t, goal) && Closed(table, t) && Below(before, s, t, goal)
    ensures Demands(e.needs.value, goal) && Below(before, s + CorrespondingScenario(e.needs.value), t, goal)
  {
    assert Demands(e.needs.value, goal);
    if e.conditions.Some? {
      forall v | v in e.conditions.value.accepted
        ensures v in t && t[v] in e.conditions.value.accepted[v]
      {
        assert v in s;
        if v in goal && Reached(s, v, goal) && !Reached(before, v, goal) {
          assert Reached(t, v, goal);
        }
      }
    }
    assert Satisfied(e, t);
  }

  // ----- the run as an iteration -----

  ghost predicate AllSingle(table: seq<Entry>) {
    forall e :: e in table && e.needs.Some? ==> SingleValued(e.needs.value)
  }

  function Visit(e: Entry, s: Assignment): Assignment
    requires e.needs.Some? ==> SingleValued(e.needs.value)
  {
    if Unmet(e, s) then s + CorrespondingScenario(e.needs.value) else s
  }

  /** The configuration after one pass. */
  ghost function PassOf(table: seq<Entry>, s: Assignment): Assignment
    requires AllSingle(table)
    decreases |table|
  {
    if table == [] then s
    else
      assert table[0] in table && forall e :: e in table[1..] ==> e in table;
      PassOf(table[1..], Visit(table[0], s))
  }

  /** The configuration after n passes. */
  ghost function Iterate(table: seq<Entry>, s: Assignment, n: nat): Assignment
    requires AllSingle(table)
  {
    if n == 0 then s else PassOf(table, Iterate(table, s, n - 1))
  }

  /** The loop ends: after some pass there is nothing left to modify. */
  ghost predicate Stops(table: seq<Entry>, s: Assignment)
    requires AllSingle(table)
  {
    exists n: nat :: Closed(table, Iterate(table, s, n))
  }

  lemma {:induction false} PassSplit(a: seq<Entry>, b: seq<Entry>, s: Assignment)
    requires AllSingle(a + b)
    ensures AllSingle(a) && AllSingle(b) && PassOf(a + b, s) == PassOf(b, PassOf(a, s))
    decreases |a|
  {
    assert forall e :: e in a ==> e in a + b;
    assert forall e :: e in b ==> e in a + b;
    if a == [] {
      assert a + b == b;
    } else {
      assert (a + b)[1..] == a[1..] + b;
      assert forall e :: e in a[1..] + b ==> e in a + b;
      PassSplit(a[1..], b, Visit(a[0], s));
    }
  }

  class Configuration {
    var scenarios: Assignment

    constructor (scenarios: Assignment)
      ensures this.scenarios == scenarios
    {
      this.scenarios := scenarios;
    }

    /** One pass over the table. */
    method Pass(table: seq<Entry>, ghost before: Assignment, ghost goal: Assignment) returns (modified: bool)
      requires Steered(table, before, goal) && Extends(before, scenarios, goal)
      modifies this
      ensures Extends(before, scenarios, goal)
      ensures AllSingle(table) ==> scenarios == PassOf(table, old(scenarios))
      ensures modified <==> !Closed(table, old(scenarios))
      ensures !modified ==> scenarios == old(scenarios)
      ensures modified ==> Open(scenarios, goal) < Open(old(scenarios), goal)
      ensures Monotone(table, goal) ==> forall t ::
        Extends(before, t, goal) && Closed(table, t) && Below(before, old(scenarios), t, goal) ==>
          Below(before, scenarios, t, goal)
    {
      modified := false;
      assert table[..0] == [];
      for k := 0 to |table|
        invariant Extends(before, scenarios, goal)
        invariant AllSingle(table) ==> AllSingle(table[..k]) && scenarios == PassOf(table[..k], old(scenarios))
        invariant modified ==> !Closed(table, old(scenarios))
        invariant !modified ==> scenarios == old(scenarios) && forall i :: 0 <= i < k ==> Satisfied(table[i], scenarios)
        invariant modified ==> Open(scenarios, goal) < Open(old(scenarios), goal)
        invariant Monotone(table, goal) ==> forall t ::
          Extends(before, t, goal) && Closed(table, t) && Below(before, old(scenarios), t, goal) ==>
            Below(before, scenarios, t, goal)
      {
        var e := table[k];
        if AllSingle(table) {
          PassNext(table, k, old(scenarios));
        }
        if e.needs.Some? && Active(e, scenarios) && !Matches(e.needs.value, scenarios, false) {
          ghost var s := scenarios;
          assert !modified ==> !Satisfied(e, old(scenarios));
          modified := true;
          assert Demands(e.needs.value, goal);
          UpdateAdvances(e.needs.value, before, s, goal);
          if Monotone(table, goal) {
            forall t | Extends(before, t, goal) && Closed(table, t) && Below(before, s, t, goal) {
              UpdateStaysBelow(table, e, before, s, t, goal);
            }
          }
          scenarios := scenarios + CorrespondingScenario(e.needs.value);
        }
      }
      assert table[..|table|] == table;
    }

    /**
     Passes until nothing changes.  The result satisfies what every active directory requires,
     and it is the least such extension when no condition turns against a required value.
     */
    method CheckDeps(table: seq<Entry>, ghost goal: Assignment)
      requires Steered(table, scenarios, goal)
      modifies this
      ensures Closed(table, scenarios)
      ensures Extends(old(scenarios), scenarios, goal)
      ensures AllSingle(table) ==> exists n: nat :: scenarios == Iterate(table, old(scenarios), n)
      ensures Monotone(table, goal) ==> LeastClosed(table, old(scenarios), scenarios, goal)
    {
      ghost var before := scenarios;
      var modified := true;
      ghost var n := 0;
      while modified
        invariant Extends(before, scenarios, goal)
        invariant AllSingle(table) ==> scenarios == Iterate(table, before, n)
        invariant !modified ==> Closed(table, scenarios)
        invariant Monotone(table, goal) ==> forall t ::
          Extends(before, t, goal) && Closed(table, t) ==> Below(before, scenarios, t, goal)
        decreases Open(scenarios, goal), modified
      {
        modified := Pass(table, before, goal);
        n := n + 1;
      }
    }
  }

  lemma PassNext(table: seq<Entry>, k: nat, s: Assignment)
    requires AllSingle(table) && k < |table|
    ensures AllSingle(table[..k]) && AllSingle(table[..k + 1])
    ensures PassOf(table[..k + 1], s) == Visit(table[k], PassOf(table[..k], s))
  {
    assert table[..k + 1] == table[..k] + [table[k]];
    assert forall e :: e in table[..k + 1] ==> e in table;
    PassSplit(table[..k], [table[k]], s);
    assert [table[k]][1..] == [];
  }

  /** There is only one least closed extension, so the order of the table does not matter. */
  lemma OrderIrrelevant(table: seq<Entry>, other: seq<Entry>, before: Assignment, s: Assignment, t: Assignment,
                        goal: Assignment)
    requires forall e :: e in table <==> e in other
    requires LeastClosed(table, before, s, goal) && LeastClosed(other, before, t, goal)
    ensures s == t
  {
    assert Closed(other, s) && Closed(table, t);
    assert Below(before, s, t, goal) && Below(before, t, s, goal);
    forall v
      ensures v in s <==> v in t
      ensures v in s && v in t ==> s[v] == t[v]
    {
    }
  }

  // ----- when the loop ends -----

  lemma {:induction false} PassAdvances(table: seq<Entry>, part: seq<Entry>, before: Assignment, s: Assignment,
                                        goal: Assignment)
    requires AllSingle(table) && Steered(table, before, goal) && Extends(before, s, goal)
    requires forall e :: e in part ==> e in table
    ensures AllSingle(part) && Extends(before, PassOf(part, s), goal)
    ensures if Closed(part, s) then PassOf(part, s) == s else Open(PassOf(part, s), goal) < Open(s, goal)
    decreases |part|
  {
    if part != [] {
      var e, next := part[0], Visit(part[0], s);
      assert e in part;
      if Unmet(e, s) {
        assert !Satisfied(e, s);
        UpdateAdvances(e.needs.value, before, s, goal);
      } else {
        assert Satisfied(e, s);
      }
      PassAdvances(table, part[1..], before, next, goal);
      assert forall f :: f in part <==> f == e || f in part[1..];
    }
  }

  /** For any table: if only the goal is ever demanded, the loop ends. */
  lemma {:induction false} SteeredStops(table: seq<Entry>, before: Assignment, goal: Assignment, n: nat)
    requires AllSingle(table) && Steered(table, before, goal) && Extends(before, Iterate(table, before, n), goal)
    ensures Stops(table, before)
    decreases Open(Iterate(table, before, n), goal)
  {
    var s := Iterate(table, before, n);
    PassAdvances(table, table, before, s, goal);
    if !Closed(table, s) {
      assert Iterate(table, before, n + 1) == PassOf(table, s);
      SteeredStops(table, before, goal, n + 1);
    }
  }

  /** As in the table of sources: requirements that all name the same value never keep the loop going. */
  lemma SameValueStops(table: seq<Entry>, s: Assignment, x: string)
    requires forall e, v :: e in table && e.needs.Some? && v in e.needs.value.accepted ==>
      e.needs.value.accepted[v] == [x]
    requires forall e :: e in table && e.needs.Some? ==> !e.needs.value.invalid
    ensures AllSingle(table) && Stops(table, s)
  {
    var goal: Assignment := map v | v in Required(table) :: x;
    forall e | e in table && e.needs.Some?
      ensures Demands(e.needs.value, goal)
    {
      forall v | v in e.needs.value.accepted
        ensures v in goal && e.needs.value.accepted[v] == [goal[v]]
      {
        RequiredBy(table, e, v);
      }
    }
    ConsistentIsSteered(table, s, goal);
    SteeredStops(table, s, goal, 0);
  }

  /** The variables that some entry requires. */
  ghost function Required(table: seq<Entry>): set<string> {
    if table == [] then {}
    else (if table[0].needs.Some? then table[0].needs.value.accepted.Keys else {}) + Required(table[1..])
  }

  lemma {:induction false} RequiredBy(table: seq<Entry>, e: Entry, v: string)
    requires e in table && e.needs.Some? && v in e.needs.value.accepted
    ensures v in Required(table)
    decreases |table|
  {
    if table[0] != e {
      RequiredBy(table[1..], e, v);
    }
  }

  // ----- exactly when it ends -----

  /** The value x is required of v somewhere in the table. */
  ghost predicate Wanted(table: seq<Entry>, v: string, x: string) {
    exists e :: e in table && e.needs.Some? && v in e.needs.value.accepted && x in e.needs.value.accepted[v]
  }

  /** Conditions on required variables accept every value that is required of them. */
  ghost predicate Positive(table: seq<Entry>) {
    forall e, v, x :: e in table && e.conditions.Some? && v in e.conditions.value.accepted && Wanted(table, v, x) ==>
      x in e.conditions.value.accepted[v]
  }

  /** The entry can become active once the variables in reach have been set. */
  ghost predicate Possible(e: Entry, s: Assignment, reach: set<string>) {
    e.conditions.Some? ==>
      && !e.conditions.value.invalid
      && forall v :: v in e.conditions.value.accepted ==>
           v in reach || (v in s && s[v] in e.conditions.value.accepted[v])
  }

  /** One more round of the variables that possible entries require. */
  ghost function Needed(table: seq<Entry>, s: Assignment, reach: set<string>): set<string> {
    reach + set v | v in Required(table) && NeededBy(table, s, reach, v)
  }

  ghost predicate NeededBy(table: seq<Entry>, s: Assignment, reach: set<string>, v: string) {
    exists e :: e in table && e.needs.Some? && Possible(e, s, reach) && v in e.needs.value.accepted
  }

  /** All variables that can come into reach. */
  ghost function Closure(table: seq<Entry>, s: Assignment, reach: set<string>): (r: set<string>)
    ensures reach <= r && Needed(table, s, r) == r
    decreases Required(table) - reach
  {
    var more := Needed(table, s, reach);
    if more == reach then reach
    else
      assert Required(table) - more < Required(table) - reach;
      Closure(table, s, more)
  }

  /** The requirements of all entries that can become active are possible and agree. */
  ghost predicate Agree(table: seq<Entry>, s: Assignment) {
    var reach := Closure(table, s, {});
    && (forall e :: e in table && e.needs.Some? && Possible(e, s, reach) ==> !e.needs.value.invalid)
    && forall e, f, v ::
         && e in table && e.needs.Some? && Possible(e, s, reach) && v in e.needs.value.accepted
         && f in table && f.needs.Some? && Possible(f, s, reach) && v in f.needs.value.accepted
         ==> e.needs.value.accepted[v] == f.needs.value.accepted[v]
  }

  /** Nothing but required values has been put over the configuration. */
  ghost predicate Grown(table: seq<Entry>, s: Assignment, t: Assignment) {
    && (forall v :: v in s ==> v in t)
    && forall v :: v in t ==> (v in s && t[v] == s[v]) || Wanted(table, v, t[v])
  }

  /** What can become active is active in every closed extension, which therefore meets its requirements. */
  lemma {:induction false} ReachIsSet(table: seq<Entry>, s: Assignment, t: Assignment, reach: set<string>)
    requires Positive(table) && Grown(table, s, t) && Closed(table, t)
    requires forall v :: v in reach ==> v in t && Wanted(table, v, t[v])
    ensures forall v :: v in Closure(table, s, reach) ==> v in t && Wanted(table, v, t[v])
    decreases Required(table) - reach
  {
    var more := Needed(table, s, reach);
    if more != reach {
      forall v | v in more && v !in reach
        ensures v in t && Wanted(table, v, t[v])
      {
        var e :| e in table && e.needs.Some? && Possible(e, s, reach) && v in e.needs.value.accepted;
        PossibleIsActive(table, e, s, t, reach);
        assert Satisfied(e, t);
      }
      assert Required(table) - more < Required(table) - reach;
      ReachIsSet(table, s, t, more);
    }
  }

  lemma PossibleIsActive(table: seq<Entry>, e: Entry, s: Assignment, t: Assignment, reach: set<string>)
    requires Positive(table) && Grown(table, s, t) && e in table && Possible(e, s, reach)
    requires forall v :: v in reach ==> v in t && Wanted(table, v, t[v])
    ensures Active(e, t)
  {
    if e.conditions.Some? {
      forall v | v in e.conditions.value.accepted
        ensures v in t && t[v] in e.conditions.value.accepted[v]
      {
      }
    }
  }

  lemma ClosedAgrees(table: seq<Entry>, s: Assignment, t: Assignment)
    requires AllSingle(table) && Positive(table) && Grown(table, s, t) && Closed(table, t)
    ensures Agree(table, s)
  {
    hide Closure;
    hide Positive;
    hide Wanted;
    hide Possible;
    hide Closed;
    hide Grown;
    var reach := Closure(table, s, {});
    ReachIsSet(table, s, t, {});
    forall e | e in table && e.needs.Some? && Possible(e, s, reach)
      ensures MetBy(e.needs.value, t)
    {
      PossibleIsMet(table, e, s, t, reach);
    }
  }

  lemma PossibleIsMet(table: seq<Entry>, e: Entry, s: Assignment, t: Assignment, reach: set<string>)
    requires AllSingle(table) && Positive(table) && Grown(table, s, t) && Closed(table, t)
    requires e in table && e.needs.Some? && Possible(e, s, reach)
    requires forall v :: v in reach ==> v in t && Wanted(table, v, t[v])
    ensures MetBy(e.needs.value, t)
  {
    PossibleIsActive(table, e, s, t, reach);
    hide Positive;
    hide Grown;
    hide Wanted;
    hide Possible;
    assert Satisfied(e, t) && SingleValued(e.needs.value);
  }

  /** The rule is possible and names exactly the values of t. */
  ghost predicate MetBy(needs: Rule, t: Assignment) {
    !needs.invalid && forall v :: v in needs.accepted ==> v in t && needs.accepted[v] == [t[v]]
  }

  /** Where the requirements of all possible entries lead. */
  lemma AgreedGoal(table: seq<Entry>, s: Assignment) returns (goal: Assignment)
    requires AllSingle(table) && Agree(table, s)
    ensures Steered(table, s, goal)
  {
    var reach := Closure(table, s, {});
    goal := map v | v in Required(table) && NeededBy(table, s, reach, v) :: AgreedValue(table, s, reach, v);
    assert goal.Keys <= reach;
    forall e, t | e in table && e.needs.Some? && Extends(s, t, goal) && Active(e, t)
      ensures Demands(e.needs.value, goal)
    {
      assert Possible(e, s, reach);
      forall v | v in e.needs.value.accepted
        ensures v in goal && e.needs.value.accepted[v] == [goal[v]]
      {
        RequiredBy(table, e, v);
        assert NeededBy(table, s, reach, v);
        assert |e.needs.value.accepted[v]| == 1;
      }
    }
  }

  ghost function AgreedValue(table: seq<Entry>, s: Assignment, reach: set<string>, v: string): (x: string)
    requires AllSingle(table) && NeededBy(table, s, reach, v)
    ensures exists e ::
      e in table && e.needs.Some? && Possible(e, s, reach) && v in e.needs.value.accepted
        && e.needs.value.accepted[v] == [x]
  {
    var e :| e in table && e.needs.Some? && Possible(e, s, reach) && v in e.needs.value.accepted;
    assert SingleValued(e.needs.value);
    e.needs.value.accepted[v][0]
  }

  lemma {:induction false} PassGrows(table: seq<Entry>, part: seq<Entry>, s: Assignment, t: Assignment)
    requires AllSingle(table) && Grown(table, s, t) && forall e :: e in part ==> e in table
    ensures AllSingle(part) && Grown(table, s, PassOf(part, t))
    decreases |part|
  {
    if part != [] {
      var e, next := part[0], Visit(part[0], t);
      assert e in part;
      forall v | v in next
        ensures (v in s && next[v] == s[v]) || Wanted(table, v, next[v])
      {
        if Unmet(e, t) && v in e.needs.value.accepted {
          assert next[v] in e.needs.value.accepted[v];
        }
      }
      PassGrows(table, part[1..], s, next);
    }
  }

  lemma {:induction false} IterateGrows(table: seq<Entry>, s: Assignment, n: nat)
    requires AllSingle(table)
    ensures Grown(table, s, Iterate(table, s, n))
  {
    if n > 0 {
      IterateGrows(table, s, n - 1);
      PassGrows(table, table, s, Iterate(table, s, n - 1));
    }
  }

  /**
   For a table whose conditions accept what is required: the loop ends if and only if the
   requirements of all entries that can become active are possible and agree.
   */
  lemma StopsIfAgreed(table: seq<Entry>, s: Assignment)
    requires AllSingle(table) && Positive(table)
    ensures Stops(table, s) <==> Agree(table, s)
  {
    if n: nat :| Closed(table, Iterate(table, s, n)) {
      IterateGrows(table, s, n);
      ClosedAgrees(table, s, Iterate(table, s, n));
    }
    if Agree(table, s) {
      var goal := AgreedGoal(table, s);
      SteeredStops(table, s, goal, 0);
    }
  }

  /** For such a table the loop finds a closed extension whenever there is one. */
  lemma StopsIfSolvable(table: seq<Entry>, s: Assignment)
    requires AllSingle(table) && Positive(table)
    ensures Stops(table, s) <==> exists t :: Grown(table, s, t) && Closed(table, t)
  {
    StopsIfAgreed(table, s);
    if t :| Grown(table, s, t) && Closed(table, t) {
      ClosedAgrees(table, s, t);
    }
    if n: nat :| Closed(table, Iterate(table, s, n)) {
      IterateGrows(table, s, n);
    }
  }

  /** Two active entries that require different values of one variable are never both satisfied. */
  lemma ConflictNeverCloses(table: seq<Entry>, one: Entry, two: Entry, v: string, x: string, y: string, s: Assignment)
    requires one in table && two in table && Active(one, s) && Active(two, s) && x != y
    requires one.needs.Some? && v in one.needs.value.accepted && one.needs.value.accepted[v] == [x]
    requires two.needs.Some? && v in two.needs.value.accepted && two.needs.value.accepted[v] == [y]
    ensures !Closed(table, s)
  {
    assert Satisfied(one, s) ==> v in s && s[v] == x;
    assert Satisfied(two, s) ==> v in s && s[v] == y;
  }

  /** Nor is an active entry that requires what no declared value meets. */
  lemma ImpossibleNeverCloses(table: seq<Entry>, e: Entry, s: Assignment)
    requires e in table && Active(e, s) && e.needs.Some? && e.needs.value.invalid
    ensures !Closed(table, s)
  {
    assert !Satisfied(e, s);
  }

  /** Two such tables, on which the loop goes on for ever, and one that looks inconsistent but ends at once. */
  lemma EndlessTables(v: string, x: string, y: string, s: Assignment)
    requires x != y
    ensures var table := [Requires(None, v, x), Requires(None, v, y)]; AllSingle(table) && !Stops(table, s)
    ensures var table := [Entry(None, Some(Rule(map[], true)))]; AllSingle(table) && !Stops(table, s)
  {
    var conflict := [Requires(None, v, x), Requires(None, v, y)];
    var impossible := [Entry(None, Some(Rule(map[], true)))];
    assert conflict[0] in conflict && conflict[1] in conflict && impossible[0] in impossible;
    forall n: nat
      ensures !Closed(conflict, Iterate(conflict, s, n)) && !Closed(impossible, Iterate(impossible, s, n))
    {
      ConflictNeverCloses(conflict, conflict[0], conflict[1], v, x, y, Iterate(conflict, s, n));
      ImpossibleNeverCloses(impossible, impossible[0], Iterate(impossible, s, n));
    }
  }

  /** An entry that requires one value of one variable. */
  function Requires(conditions: Option<Rule>, v: string, x: string): Entry {
    Entry(conditions, Some(Rule(map[v := [x]], false)))
  }

  /** Requirements that contradict each other do no harm as long as one of them stays inactive. */
  lemma InactiveConflictStops(u: string, v: string, x: string, y: string, s: Assignment)
    requires u != v && x != y && s == map[u := x, v := x]
    ensures var table := [Requires(Some(Rule(map[u := [x]], false)), v, x),
                       Requires(Some(Rule(map[u := [y]], false)), v, y)];
      AllSingle(table) && Stops(table, s) && forall goal :: !Consistent(table, goal)
  {
    var table := [Requires(Some(Rule(map[u := [x]], false)), v, x), Requires(Some(Rule(map[u := [y]], false)), v, y)];
    assert u in table[1].conditions.value.accepted && !Active(table[1], s);
    assert Iterate(table, s, 0) == s && Satisfied(table[0], s);
    assert table[0] in table && table[1] in table;
    forall goal
      ensures !Consistent(table, goal)
    {
      assert v in table[0].needs.value.accepted && v in table[1].needs.value.accepted;
    }
  }
}
