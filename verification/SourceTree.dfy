/**
 The compilation of a flat table "directory -> rule" into a tree of scenario decisions, and the
 installer that walks the tree under an assignment.  The compiler prunes and restores one shared
 table of directories and extends and retracts one shared environment across its recursion.
 */
module SourceTree {
  import opened Common
  import opened Rules

  /** The dumped JSON object: the directories under "_srcs" and one sub-object per key "Var:value". */
  datatype Tree = Node(srcs: seq<string>, subs: map<string, Tree>)

  // ----- keys of the tree -----

  function Key(variable: string, value: string): string {
    variable + ":" + value
  }

  /** A key written by the compiler is read back as the same variable and value. */
  lemma KeyReadsBack(variable: string, value: string)
    requires ':' !in variable && ':' !in value
    ensures Split(Key(variable, value), ':') == [variable, value]
  {
    SplitAtFirst(variable, value, ':');
    SplitPlain(value, ':');
  }

  /** Every key of the tree splits into a variable and a value, so that the installer can read it. */
  ghost predicate Readable(t: Tree) {
    forall k :: k in t.subs ==> |Split(k, ':')| == 2 && Readable(t.subs[k])
  }

  // ----- what a tree stands for -----

  predicate Selects(key: string, a: Assignment) {
    var parts := Split(key, ':');
    |parts| == 2 && parts[0] in a && a[parts[0]] == parts[1]
  }

  /** The directories the installer collects, with their multiplicity. */
  ghost function Dirs(t: Tree, a: Assignment): multiset<string>
    decreases t, 1, 0
  {
    multiset(t.srcs) + SubDirs(t, t.subs.Keys, a)
  }

  ghost function BranchDirs(t: Tree, k: string, a: Assignment): multiset<string>
    requires k in t.subs
    decreases t, 0, 0
  {
    if Selects(k, a) then Dirs(t.subs[k], a) else multiset{}
  }

  ghost function SubDirs(t: Tree, keys: set<string>, a: Assignment): multiset<string>
    requires keys <= t.subs.Keys
    decreases t, 0, |keys| + 1
  {
    if keys == {} then multiset{}
    else
      var k :| k in keys;
      BranchDirs(t, k, a) + SubDirs(t, keys - {k}, a)
  }

  /** The branches may be added up in any order. */
  lemma {:induction false} SubDirsSplit(t: Tree, keys: set<string>, k: string, a: Assignment)
    requires keys <= t.subs.Keys && k in keys
    ensures SubDirs(t, keys, a) == BranchDirs(t, k, a) + SubDirs(t, keys - {k}, a)
    decreases |keys|
  {
    var first :| first in keys && SubDirs(t, keys, a) == BranchDirs(t, first, a) + SubDirs(t, keys - {first}, a);
    if first != k {
      SubDirsSplit(t, keys - {first}, k, a);
      SubDirsSplit(t, keys - {k}, first, a);
      assert keys - {first} - {k} == keys - {k} - {first};
    }
  }

  lemma {:induction false} SubDirsAgree(t: Tree, u: Tree, keys: set<string>, a: Assignment)
    requires keys <= t.subs.Keys && keys <= u.subs.Keys
    requires forall k :: k in keys ==> t.subs[k] == u.subs[k]
    ensures SubDirs(t, keys, a) == SubDirs(u, keys, a)
    decreases |keys|
  {
    if keys != {} {
      hide Selects;
      var k :| k in keys;
      SubDirsSplit(t, keys, k, a);
      SubDirsSplit(u, keys, k, a);
      SubDirsAgree(t, u, keys - {k}, a);
    }
  }

  /** Adding a branch under a fresh key adds exactly what the branch contributes. */
  lemma AddBranch(t: Tree, key: string, sub: Tree, a: Assignment)
    requires key !in t.subs
    ensures Dirs(Node(t.srcs, t.subs[key := sub]), a)
         == Dirs(t, a) + (if Selects(key, a) then Dirs(sub, a) else multiset{})
  {
    hide Selects;
    var u := Node(t.srcs, t.subs[key := sub]);
    SubDirsSplit(u, u.subs.Keys, key, a);
    assert u.subs.Keys - {key} == t.subs.Keys;
    SubDirsAgree(t, u, t.subs.Keys, a);
  }

  predicate Empty(t: Tree) {
    t.srcs == [] && t.subs == map[]
  }

  /** Leaving out an empty branch, or adding any other one under a fresh key, contributes the same. */
  lemma BranchAdded(t: Tree, sub: Tree, variable: string, value: string, a: Assignment)
    requires ':' !in variable && ':' !in value && Key(variable, value) !in t.subs
    ensures Dirs(if Empty(sub) then t else Node(t.srcs, t.subs[Key(variable, value) := sub]), a)
         == Dirs(t, a) + (if variable in a && a[variable] == value then Dirs(sub, a) else multiset{})
  {
    KeyReadsBack(variable, value);
    AddBranch(t, Key(variable, value), sub, a);
  }

  // ----- the installer -----

  /** The directories to install: keys are visited in whatever order the JSON object lists them. */
  method GetRtsDirs(t: Tree, a: Assignment) returns (ret: seq<string>)
    requires Readable(t)
    ensures multiset(ret) == Dirs(t, a)
    decreases t
  {
    ret := t.srcs;
    var keys := t.subs.Keys;
    while keys != {}
      invariant keys <= t.subs.Keys
      invariant multiset(ret) + SubDirs(t, keys, a) == Dirs(t, a)
      decreases |keys|
    {
      var k :| k in keys;
      SubDirsSplit(t, keys, k, a);
      var parts := Split(k, ':');
      if parts[0] in a && a[parts[0]] == parts[1] {
        var more := GetRtsDirs(t.subs[k], a);
        ret := ret + more;
      }
      keys := keys - {k};
    }
  }

  // ----- the directories a call of the compiler has to cover -----

  /**
   The rule is met by the environment on the variables fixed so far and by the assignment on all
   others, which are still to be chosen among the given scenario variables.
   */
  ghost predicate Reachable(r: Rule, scenarios: seq<string>, env: Assignment, a: Assignment) {
    && !r.invalid
    && PartialMatch(r, env)
    && forall v :: v in r.accepted && v !in env ==> v in scenarios && v in a && a[v] in r.accepted[v]
  }

  ghost function Selected(dirs: map<string, Rule>, scenarios: seq<string>, env: Assignment,
                          a: Assignment): set<string> {
    set d | d in dirs && Reachable(dirs[d], scenarios, env, a)
  }

  /** Of these, the ones constrained by one of the first j scenario variables. */
  ghost function SelectedBy(dirs: map<string, Rule>, scenarios: seq<string>, env: Assignment, a: Assignment,
                            j: nat): set<string>
    requires j <= |scenarios|
  {
    set d | d in dirs && Reachable(dirs[d], scenarios, env, a)
      && exists i :: 0 <= i < j && scenarios[i] in dirs[d].accepted
  }

  ghost predicate Denotes(t: Tree, dirs: map<string, Rule>, scenarios: seq<string>, env: Assignment) {
    forall a: Assignment :: Dirs(t, a) == multiset(Selected(dirs, scenarios, env, a))
  }

  /** The directories whose rule matches the assignment. */
  ghost function Matching(dirs: map<string, Rule>, a: Assignment): set<string> {
    set d | d in dirs && Matches(dirs[d], a, false)
  }

  /** Seen from the empty environment, the directories to cover are those whose rule matches. */
  lemma SelectedAtTop(dirs: map<string, Rule>, scenarios: seq<string>, a: Assignment)
    requires forall d, v :: d in dirs && v in dirs[d].accepted ==> v in scenarios
    ensures Selected(dirs, scenarios, map[], a) == Matching(dirs, a)
  {
  }

  /** Fixing scenario j to the assigned value leads to exactly the directories it is the first to constrain. */
  lemma SelectedUnder(dirs: map<string, Rule>, scenarios: seq<string>, env: Assignment, a: Assignment, j: nat)
    requires j < |scenarios| && Distinct(scenarios) && scenarios[j] in a
    requires forall i :: 0 <= i < |scenarios| ==> scenarios[i] !in env
    ensures var under := Selected(dirs, scenarios[j + 1..], env[scenarios[j] := a[scenarios[j]]], a);
      && under !! SelectedBy(dirs, scenarios, env, a, j)
      && under + SelectedBy(dirs, scenarios, env, a, j) == SelectedBy(dirs, scenarios, env, a, j + 1)
  {
    var next, rest := scenarios[j], scenarios[j + 1..];
    var env' := env[next := a[next]];
    var under := Selected(dirs, rest, env', a);
    forall d | d in under
      ensures d in SelectedBy(dirs, scenarios, env, a, j + 1) && d !in SelectedBy(dirs, scenarios, env, a, j)
    {
      UnderIsReachable(dirs[d], scenarios, env, a, j);
    }
    forall d | d in SelectedBy(dirs, scenarios, env, a, j + 1) && d !in SelectedBy(dirs, scenarios, env, a, j)
      ensures d in under
    {
      ReachableIsUnder(dirs[d], scenarios, env, a, j);
    }
  }

  lemma UnderIsReachable(r: Rule, scenarios: seq<string>, env: Assignment, a: Assignment, j: nat)
    requires j < |scenarios| && Distinct(scenarios) && scenarios[j] in a
    requires forall i :: 0 <= i < |scenarios| ==> scenarios[i] !in env
    requires Reachable(r, scenarios[j + 1..], env[scenarios[j] := a[scenarios[j]]], a)
    ensures Reachable(r, scenarios, env, a) && scenarios[j] in r.accepted
    ensures forall i :: 0 <= i < j ==> scenarios[i] !in r.accepted
  {
    var env' := env[scenarios[j] := a[scenarios[j]]];
    assert scenarios[j] in env';
    assert forall v :: v in env ==> v in env' && env'[v] == env[v];
    assert forall v :: v in scenarios[j + 1..] ==> v in scenarios;
    forall i | 0 <= i < j
      ensures scenarios[i] !in r.accepted
    {
      assert scenarios[i] !in scenarios[j + 1..];
      assert scenarios[i] !in env';
    }
  }

  lemma ReachableIsUnder(r: Rule, scenarios: seq<string>, env: Assignment, a: Assignment, j: nat)
    requires j < |scenarios| && Distinct(scenarios) && scenarios[j] in a
    requires Reachable(r, scenarios, env, a)
    requires exists i :: 0 <= i < j + 1 && scenarios[i] in r.accepted
    requires forall i :: 0 <= i < |scenarios| ==> scenarios[i] !in env
    requires forall i :: 0 <= i < j ==> scenarios[i] !in r.accepted
    ensures Reachable(r, scenarios[j + 1..], env[scenarios[j] := a[scenarios[j]]], a)
  {
    assert scenarios[j] in r.accepted;
    forall v | v in r.accepted && v !in env && v != scenarios[j]
      ensures v in scenarios[j + 1..]
    {
      var i :| 0 <= i < |scenarios| && scenarios[i] == v;
      assert v == scenarios[j + 1..][i - (j + 1)];
    }
  }

  lemma SelectedSkip(dirs: map<string, Rule>, scenarios: seq<string>, env: Assignment, a: Assignment, j: nat)
    requires j < |scenarios| && forall d :: d in dirs ==> scenarios[j] !in dirs[d].accepted
    ensures SelectedBy(dirs, scenarios, env, a, j + 1) == SelectedBy(dirs, scenarios, env, a, j)
  {
  }

  /**
   What is left after the matched directories are taken out and the hopeless ones are pruned is
   constrained by some scenario variable still to come.
   */
  lemma SelectedSplit(dirs: map<string, Rule>, live: map<string, Rule>, matched: set<string>,
                      scenarios: seq<string>, env: Assignment, a: Assignment)
    requires matched == set d | d in dirs && Matches(dirs[d], env, true)
    requires live == Live(dirs, matched, env)
    ensures matched !! SelectedBy(live, scenarios, env, a, |scenarios|)
    ensures Selected(dirs, scenarios, env, a) == matched + SelectedBy(live, scenarios, env, a, |scenarios|)
  {
    forall d | d in dirs && Reachable(dirs[d], scenarios, env, a) && d !in matched
      ensures d in SelectedBy(live, scenarios, env, a, |scenarios|)
    {
      var v :| v in dirs[d].accepted && v !in env;
      var i :| 0 <= i < |scenarios| && scenarios[i] == v;
    }
  }

  /** What is left of the table of directories once it has been pruned. */
  ghost function Live(dirs: map<string, Rule>, matched: set<string>, env: Assignment): map<string, Rule> {
    map d | d in dirs && PartialMatch(dirs[d], env) && d !in matched :: dirs[d]
  }

  lemma MatchedIsAll(dirs: map<string, Rule>, matched: set<string>, env: Assignment, a: Assignment)
    requires matched == set d | d in dirs && Matches(dirs[d], env, true)
    ensures Selected(dirs, [], env, a) == matched
  {
  }

  lemma DenotesMatched(t: Tree, dirs: map<string, Rule>, matched: set<string>, env: Assignment)
    requires matched == set d | d in dirs && Matches(dirs[d], env, true)
    requires t.subs == map[] && multiset(t.srcs) == multiset(matched)
    ensures Denotes(t, dirs, [], env)
  {
    forall a: Assignment
      ensures Dirs(t, a) == multiset(Selected(dirs, [], env, a))
    {
      MatchedIsAll(dirs, matched, env, a);
    }
  }

  lemma DenotesAll(t: Tree, dirs: map<string, Rule>, matched: set<string>, scenarios: seq<string>, env: Assignment)
    requires matched == set d | d in dirs && Matches(dirs[d], env, true)
    requires forall a: Assignment ::
      Dirs(t, a) == multiset(matched) + multiset(SelectedBy(Live(dirs, matched, env), scenarios, env, a, |scenarios|))
    ensures Denotes(t, dirs, scenarios, env)
  {
    forall a: Assignment
      ensures Dirs(t, a) == multiset(Selected(dirs, scenarios, env, a))
    {
      SelectedSplit(dirs, Live(dirs, matched, env), matched, scenarios, env, a);
    }
  }

  /** The directories below the branches for the given values of scenario variable j. */
  ghost function Chosen(dirs: map<string, Rule>, scenarios: seq<string>, env: Assignment,
                        j: nat, values: seq<string>, a: Assignment): multiset<string>
    requires j < |scenarios|
  {
    var next := scenarios[j];
    if next in a && a[next] in values then multiset(Selected(dirs, scenarios[j + 1..], env[next := a[next]], a))
    else multiset{}
  }

  lemma ChosenNext(dirs: map<string, Rule>, scenarios: seq<string>, env: Assignment,
                   j: nat, values: seq<string>, k: nat, a: Assignment)
    requires j < |scenarios| && k < |values| && Distinct(values)
    ensures Chosen(dirs, scenarios, env, j, values[..k + 1], a)
         == Chosen(dirs, scenarios, env, j, values[..k], a)
            + (if scenarios[j] in a && a[scenarios[j]] == values[k]
               then multiset(Selected(dirs, scenarios[j + 1..], env[scenarios[j] := values[k]], a))
               else multiset{})
  {
    assert values[..k + 1] == values[..k] + [values[k]];
    assert values[k] !in values[..k];
  }

  /** Adding the branch for value k. */
  lemma ChosenStep(t: Tree, sub: Tree, dirs: map<string, Rule>, scenarios: seq<string>, env: Assignment,
                   j: nat, values: seq<string>, k: nat, a: Assignment, base: multiset<string>)
    requires j < |scenarios| && k < |values| && Distinct(values)
    requires Dirs(t, a) == base + Chosen(dirs, scenarios, env, j, values[..k], a)
    requires ':' !in scenarios[j] && ':' !in values[k] && Key(scenarios[j], values[k]) !in t.subs
    requires Denotes(sub, dirs, scenarios[j + 1..], env[scenarios[j] := values[k]])
    ensures Dirs(if Empty(sub) then t else Node(t.srcs, t.subs[Key(scenarios[j], values[k]) := sub]), a)
         == base + Chosen(dirs, scenarios, env, j, values[..k + 1], a)
  {
    BranchAdded(t, sub, scenarios[j], values[k], a);
    ChosenNext(dirs, scenarios, env, j, values, k, a);
  }

  // ----- the compiler -----

  /** What the table of scenario variables guarantees for the keys of the tree. */
  ghost predicate PlainNames(declared: Declared) {
    forall v :: v in declared ==>
      ':' !in v && Distinct(declared[v]) && forall x :: x in declared[v] ==> ':' !in x
  }

  class Compiler {
    const declared: Declared
    var dirs: map<string, Rule>
    var env: Assignment

    constructor (declared: Declared, dirs: map<string, Rule>)
      ensures this.declared == declared && this.dirs == dirs && env == map[]
    {
      this.declared := declared;
      this.dirs := dirs;
      this.env := map[];
    }

    ghost predicate Valid(scenarios: seq<string>)
      reads this
    {
      ValidFor(dirs, scenarios)
    }

    ghost predicate ValidFor(dirs: map<string, Rule>, scenarios: seq<string>)
      reads this`env
    {
      && PlainNames(declared)
      && Distinct(scenarios)
      && (forall i :: 0 <= i < |scenarios| ==> scenarios[i] in declared && scenarios[i] !in env)
      && forall d :: d in dirs ==> WellFormed(dirs[d], declared)
    }

    /** The directories whose rule is met exactly by the environment, in some order. */
    method MatchedDirs() returns (srcs: seq<string>, matched: set<string>)
      ensures matched == set d | d in dirs && Matches(dirs[d], env, true)
      ensures multiset(srcs) == multiset(matched)
    {
      srcs, matched := [], {};
      var todo := dirs.Keys;
      while todo != {}
        invariant todo <= dirs.Keys && matched !! todo
        invariant matched == set d | d in dirs && d !in todo && Matches(dirs[d], env, true)
        invariant multiset(srcs) == multiset(matched)
        decreases |todo|
      {
        var d :| d in todo;
        if Matches(dirs[d], env, true) {
          srcs, matched := srcs + [d], matched + {d};
        }
        todo := todo - {d};
      }
    }

    method Dump(scenarios: seq<string>) returns (ret: Option<Tree>)
      requires Valid(scenarios)
      modifies this`dirs, this`env
      ensures dirs == old(dirs) && env == old(env)
      ensures ret.None? <==> dirs == map[]
      ensures ret.Some? ==> Readable(ret.value) && Denotes(ret.value, dirs, scenarios, env)
      decreases |scenarios|, 1
    {
      if |dirs| == 0 {
        return None;
      }
      var srcs, matched := MatchedDirs();
      var tree := Node(srcs, map[]);
      if |scenarios| == 0 {
        DenotesMatched(tree, dirs, matched, env);
        return Some(tree);
      }
      ghost var all := dirs;
      var pruned := Prune(matched);
      ValidLive(all, matched, scenarios);
      if |dirs| > 0 {
        tree := DumpScenarios(scenarios, tree);
      } else {
        assert forall a: Assignment :: SelectedBy(dirs, scenarios, env, a, |scenarios|) == {};
      }
      DenotesAll(tree, all, matched, scenarios, env);
      dirs := dirs + pruned;
      return Some(tree);
    }

    /** Takes out the directories already matched and those no longer reachable. */
    method Prune(matched: set<string>) returns (pruned: map<string, Rule>)
      modifies this`dirs
      ensures dirs == Live(old(dirs), matched, env)
      ensures dirs + pruned == old(dirs)
    {
      pruned := map d | d in dirs && (!PartialMatch(dirs[d], env) || d in matched) :: dirs[d];
      dirs := dirs - pruned.Keys;
    }

    lemma ValidLive(all: map<string, Rule>, matched: set<string>, scenarios: seq<string>)
      requires ValidFor(all, scenarios) && dirs == Live(all, matched, env)
      ensures Valid(scenarios)
    {
    }

    /** The loop over the scenario variables still to be fixed. */
    method DumpScenarios(scenarios: seq<string>, start: Tree) returns (tree: Tree)
      requires Valid(scenarios) && start.subs == map[]
      modifies this`dirs, this`env
      ensures dirs == old(dirs) && env == old(env)
      ensures Readable(tree)
      ensures forall a: Assignment ::
        Dirs(tree, a) == multiset(start.srcs) + multiset(SelectedBy(dirs, scenarios, env, a, |scenarios|))
      decreases |scenarios|, 0
    {
      tree := start;
      for j := 0 to |scenarios|
        invariant dirs == old(dirs) && env == old(env)
        invariant Readable(tree)
        invariant KeysBefore(tree, scenarios, j)
        invariant forall a: Assignment ::
          Dirs(tree, a) == multiset(start.srcs) + multiset(SelectedBy(dirs, scenarios, env, a, j))
      {
        if exists d :: d in dirs && scenarios[j] in dirs[d].accepted {
          tree := DumpValues(scenarios, j, tree);
          forall a: Assignment
            ensures multiset(SelectedBy(dirs, scenarios, env, a, j + 1))
                 == multiset(SelectedBy(dirs, scenarios, env, a, j))
                    + Chosen(dirs, scenarios, env, j, declared[scenarios[j]], a)
          {
            ChosenIsNext(scenarios, j, a);
          }
        } else {
          forall a: Assignment
            ensures SelectedBy(dirs, scenarios, env, a, j + 1) == SelectedBy(dirs, scenarios, env, a, j)
          {
            SelectedSkip(dirs, scenarios, env, a, j);
          }
        }
      }
    }

    /** One branch per value of scenario variable j; the environment is extended, then retracted. */
    method DumpValues(scenarios: seq<string>, j: nat, start: Tree) returns (tree: Tree)
      requires Valid(scenarios) && j < |scenarios| && Readable(start)
      requires exists d :: d in dirs && scenarios[j] in dirs[d].accepted
      requires KeysBefore(start, scenarios, j)
      modifies this`dirs, this`env
      ensures dirs == old(dirs) && env == old(env)
      ensures Readable(tree) && KeysBefore(tree, scenarios, j + 1)
      ensures forall a: Assignment ::
        Dirs(tree, a) == Dirs(start, a) + Chosen(dirs, scenarios, env, j, declared[scenarios[j]], a)
      decreases |scenarios|, 0, 0
    {
      var next, rest := scenarios[j], scenarios[j + 1..];
      var values := declared[next];
      ghost var env0 := env;
      tree := start;
      assert values != [] by {
        var d :| d in dirs && next in dirs[d].accepted;
        assert WellFormed(dirs[d], declared) && dirs[d].accepted[next][0] in values;
      }
      for k := 0 to |values|
        invariant dirs == old(dirs)
        invariant env == if k == 0 then env0 else env0[next := values[k - 1]]
        invariant Readable(tree)
        invariant forall key :: key in tree.subs ==>
          key in start.subs || exists i :: 0 <= i < k && key == Key(next, values[i])
        invariant forall a: Assignment ::
          Dirs(tree, a) == Dirs(start, a) + Chosen(dirs, scenarios, env0, j, values[..k], a)
      {
        env := env[next := values[k]];
        assert env == env0[next := values[k]];
        var sub := Dump(rest);
        assert Key(next, values[k]) !in tree.subs by {
          KeyIsFresh(tree, start, scenarios, j, k);
        }
        forall a: Assignment {
          ChosenStep(tree, sub.value, dirs, scenarios, env0, j, values, k, a, Dirs(start, a));
        }
        KeyReadsBack(next, values[k]);
        tree := if Empty(sub.value) then tree else Node(tree.srcs, tree.subs[Key(next, values[k]) := sub.value]);
      }
      KeysAfter(tree, start, scenarios, j);
      assert next in env;
      env := env - {next};
      assert values[..|values|] == values;
    }

    lemma KeyIsFresh(t: Tree, start: Tree, scenarios: seq<string>, j: nat, k: nat)
      requires PlainNames(declared) && Distinct(scenarios) && forall s :: s in scenarios ==> s in declared
      requires j < |scenarios| && k < |declared[scenarios[j]]|
      requires KeysBefore(start, scenarios, j)
      requires forall key :: key in t.subs ==>
        key in start.subs || exists i :: 0 <= i < k && key == Key(scenarios[j], declared[scenarios[j]][i])
      ensures Key(scenarios[j], declared[scenarios[j]][k]) !in t.subs
    {
      var key := Key(scenarios[j], declared[scenarios[j]][k]);
      KeyReadsBack(scenarios[j], declared[scenarios[j]][k]);
      if key in start.subs {
        var i, x :| 0 <= i < j && ':' !in x && key == Key(scenarios[i], x);
        KeyReadsBack(scenarios[i], x);
        assert false;
      } else if key in t.subs {
        var i :| 0 <= i < k && key == Key(scenarios[j], declared[scenarios[j]][i]);
        KeyReadsBack(scenarios[j], declared[scenarios[j]][i]);
        assert false;
      }
    }

    lemma KeysAfter(t: Tree, start: Tree, scenarios: seq<string>, j: nat)
      requires j < |scenarios| && scenarios[j] in declared && PlainNames(declared)
      requires KeysBefore(start, scenarios, j)
      requires var values := declared[scenarios[j]];
        forall key :: key in t.subs ==>
          key in start.subs || exists i :: 0 <= i < |values| && key == Key(scenarios[j], values[i])
      ensures KeysBefore(t, scenarios, j + 1)
    {
      var values := declared[scenarios[j]];
      forall key | key in t.subs
        ensures exists i, x :: 0 <= i < j + 1 && ':' !in x && key == Key(scenarios[i], x)
      {
        if key in start.subs {
          var i, x :| 0 <= i < j && ':' !in x && key == Key(scenarios[i], x);
        } else {
          var i :| 0 <= i < |values| && key == Key(scenarios[j], values[i]);
          assert values[i] in values;
        }
      }
    }

    /** All branches for variable j together hold the directories it is the first to constrain. */
    lemma ChosenIsNext(scenarios: seq<string>, j: nat, a: Assignment)
      requires Valid(scenarios) && j < |scenarios|
      ensures multiset(SelectedBy(dirs, scenarios, env, a, j + 1))
           == multiset(SelectedBy(dirs, scenarios, env, a, j))
              + Chosen(dirs, scenarios, env, j, declared[scenarios[j]], a)
    {
      var next := scenarios[j];
      if next in a {
        SelectedUnder(dirs, scenarios, env, a, j);
      }
      if next !in a || a[next] !in declared[next] {
        assert SelectedBy(dirs, scenarios, env, a, j + 1) == SelectedBy(dirs, scenarios, env, a, j);
      }
    }

    ghost predicate KeysBefore(t: Tree, scenarios: seq<string>, j: nat)
      requires j <= |scenarios|
    {
      forall key :: key in t.subs ==> exists i, x :: 0 <= i < j && ':' !in x && key == Key(scenarios[i], x)
    }
  }
}
