/**
 Deploying to an existing dbt project object (dbt/manager.py): the described attributes
 and the requested ones are compared, and the difference is issued as ALTER statements.
 */
module DbtAlter {
  import opened Common

  /** The options of one deploy. */
  datatype Request = Request(
    target: Option<string>, unsetTarget: bool,
    env: Option<string>, unsetEnv: bool,
    integrations: Option<seq<string>>, installLocalDeps: bool,
    dbtVersion: Option<string>, writeback: Option<bool>, autoCompile: Option<bool>,
    commit: Option<string>, branch: Option<string>)

  /** Python's truth value of an optional string: "" counts as not given. */
  predicate Given(o: Option<string>): (b: bool)
    ensures b <==> o.Some? && |o.value| > 0
  {
    o.Some? && o.value != ""
  }

  function OrNone(o: Option<string>): Option<string> { if Given(o) then o else None }

  /** The command line refuses to set and unset the same property. */
  predicate Exclusive(r: Request) {
    && !(r.unsetTarget && Given(r.target))
    && !(r.unsetEnv && Given(r.env))
  }

  /** A version of the project, with the auto-compile property in force when it was added. */
  datatype Version = Version(stage: string, commit: Option<string>, branch: Option<string>, autoCompile: Option<bool>)

  /** The object on the server. An integrations property that is not set and one that is
      set to the empty list () are different states. */
  datatype Project = Project(
    target: Option<string>, env: Option<string>, integrations: Option<set<string>>,
    dbtVersion: Option<string>, writeback: Option<bool>, autoCompile: Option<bool>,
    versions: seq<Version>)

  /** What get_dbt_object_attributes makes of DESCRIBE. */
  datatype Described = Described(
    target: Option<string>, integrations: Option<seq<string>>, writeback: Option<bool>, autoCompile: Option<bool>)

  function Listed(names: Option<seq<string>>): set<string> {
    if names.Some? then Elements(names.value) else {}
  }

  /** The integrations in force. */
  function Allowed(integrations: Option<set<string>>): set<string> {
    if integrations.Some? then integrations.value else {}
  }

  /** DESCRIBE lists the integrations in any order, an unset property like an empty list,
      and may not show the two flags. */
  predicate Describes(d: Described, p: Project) {
    && d.target == p.target
    && Listed(d.integrations) == Allowed(p.integrations)
    && (d.writeback == p.writeback || d.writeback == None)
    && (d.autoCompile == p.autoCompile || d.autoCompile == None)
  }

  // ------------------------------------------------------------ statements

  datatype Clause =
    | DefaultTarget(name: string)
    | DefaultEnvironment(name: string)
    | DbtVersion(version: string)
    | DefaultWriteback(on: bool)
    | AutoCompile(on: bool)
    | Integrations(names: seq<string>)

  datatype Property = DEFAULT_TARGET | DEFAULT_ENVIRONMENT

  datatype Statement =
    | AlterSet(clauses: seq<Clause>)
    | AlterUnset(property: Property)
    | AddVersion(stage: string, commit: Option<string>, branch: Option<string>)

  function Assign(p: Project, c: Clause): Project {
    match c
    case DefaultTarget(name) => p.(target := Some(name))
    case DefaultEnvironment(name) => p.(env := Some(name))
    case DbtVersion(version) => p.(dbtVersion := Some(version))
    case DefaultWriteback(on) => p.(writeback := Some(on))
    case AutoCompile(on) => p.(autoCompile := Some(on))
    case Integrations(names) => p.(integrations := Some(Elements(names)))
  }

  function AssignAll(p: Project, clauses: seq<Clause>): Project {
    if clauses == [] then p else Assign(AssignAll(p, clauses[..|clauses| - 1]), clauses[|clauses| - 1])
  }

  function Apply(p: Project, s: Statement): Project {
    match s
    case AlterSet(clauses) => AssignAll(p, clauses)
    case AlterUnset(DEFAULT_TARGET) => p.(target := None)
    case AlterUnset(DEFAULT_ENVIRONMENT) => p.(env := None)
    case AddVersion(stage, commit, branch) =>
      p.(versions := p.versions + [Version(stage, commit, branch, p.autoCompile)])
  }

  function ApplyAll(p: Project, statements: seq<Statement>): Project {
    if statements == [] then p
    else Apply(ApplyAll(p, statements[..|statements| - 1]), statements[|statements| - 1])
  }

  lemma AssignOneMore(p: Project, clauses: seq<Clause>, c: Clause)
    ensures AssignAll(p, clauses + [c]) == Assign(AssignAll(p, clauses), c)
  {
    assert (clauses + [c])[..|clauses|] == clauses;
  }

  lemma ApplyOneMore(p: Project, statements: seq<Statement>, s: Statement)
    ensures ApplyAll(p, statements + [s]) == Apply(ApplyAll(p, statements), s)
  {
    assert (statements + [s])[..|statements|] == statements;
  }

  lemma ApplyPrefix(p: Project, statements: seq<Statement>, k: nat)
    requires k < |statements|
    ensures statements[..k + 1] == statements[..k] + [statements[k]]
    ensures ApplyAll(p, statements[..k + 1]) == Apply(ApplyAll(p, statements[..k]), statements[k])
  {
    assert statements[..k + 1] == statements[..k] + [statements[k]];
    ApplyOneMore(p, statements[..k], statements[k]);
  }

  // ------------------------------------------------------------ sorted integrations

  /** Whether `a` may stand before `b` in Python's order of strings. */
  predicate Before(a: string, b: string)
    decreases |a|
  {
    if a == [] then true
    else if b == [] then false
    else a[0] < b[0] || (a[0] == b[0] && Before(a[1..], b[1..]))
  }

  lemma {:induction false} BeforeTotal(a: string, b: string)
    ensures Before(a, b) || Before(b, a)
    decreases |a|
  {
    if a != [] && b != [] && a[0] == b[0] {
      BeforeTotal(a[1..], b[1..]);
    }
  }

  lemma {:induction false} BeforeTransitive(a: string, b: string, c: string)
    requires Before(a, b) && Before(b, c)
    ensures Before(a, c)
    decreases |a|
  {
    if a != [] && a[0] == b[0] == c[0] {
      BeforeTransitive(a[1..], b[1..], c[1..]);
    }
  }

  /** It is the order by the first code point in which they differ, a prefix coming first. */
  lemma {:induction false} BeforeByCodePoints(a: string, b: string)
    requires Before(a, b)
    ensures a <= b || exists k :: 0 <= k < |a| && k < |b| && a[..k] == b[..k] && a[k] < b[k]
    decreases |a|
  {
    if a != [] && a[0] == b[0] {
      BeforeByCodePoints(a[1..], b[1..]);
      if k :| 0 <= k < |a[1..]| && k < |b[1..]| && a[1..][..k] == b[1..][..k] && a[1..][k] < b[1..][k] {
        assert a[..k + 1] == [a[0]] + a[1..][..k] && b[..k + 1] == [b[0]] + b[1..][..k];
      } else {
        assert a == [a[0]] + a[1..] && b == [b[0]] + b[1..];
      }
    } else if a != [] {
      assert a[..0] == b[..0];
    }
  }

  predicate InOrder(names: seq<string>) {
    forall i, j :: 0 <= i < j < |names| ==> Before(names[i], names[j])
  }

  function InsertName(names: seq<string>, n: string): (r: seq<string>)
    ensures multiset(r) == multiset(names) + multiset{n}
  {
    if names == [] || Before(n, names[0]) then [n] + names
    else
      assert names == [names[0]] + names[1..];
      [names[0]] + InsertName(names[1..], n)
  }

  lemma {:induction false} InsertKeepsOrder(names: seq<string>, n: string)
    requires InOrder(names)
    ensures InOrder(InsertName(names, n))
  {
    if names == [] {
    } else if Before(n, names[0]) {
      forall j | 0 <= j < |names|
        ensures Before(n, names[j])
      {
        if j > 0 { BeforeTransitive(n, names[0], names[j]); }
      }
    } else {
      BeforeTotal(n, names[0]);
      InsertKeepsOrder(names[1..], n);
      var rest := InsertName(names[1..], n);
      assert names == [names[0]] + names[1..];
      forall j | 0 <= j < |rest|
        ensures Before(names[0], rest[j])
      {
        assert rest[j] in multiset(rest);
        assert rest[j] in multiset(names[1..]) || rest[j] == n;
        if rest[j] != n {
          var k :| 0 <= k < |names[1..]| && names[1..][k] == rest[j];
          assert rest[j] == names[k + 1];
        }
      }
    }
  }

  function Sorted(names: seq<string>): (r: seq<string>)
    ensures multiset(r) == multiset(names)
  {
    if names == [] then []
    else
      assert names == names[..|names| - 1] + [names[|names| - 1]];
      InsertName(Sorted(names[..|names| - 1]), names[|names| - 1])
  }

  lemma {:induction false} SortedInOrder(names: seq<string>)
    ensures InOrder(Sorted(names))
    ensures Elements(Sorted(names)) == Elements(names)
  {
    if names != [] {
      SortedInOrder(names[..|names| - 1]);
      InsertKeepsOrder(Sorted(names[..|names| - 1]), names[|names| - 1]);
    }
    forall n
      ensures n in Sorted(names) <==> n in names
    {
      assert n in Sorted(names) <==> n in multiset(Sorted(names));
    }
  }

  /** That is, by the first code point in which two names differ. */
  lemma SortedByCodePoints(names: seq<string>, i: nat, j: nat)
    requires i < j < |Sorted(names)|
    ensures var (a, b) := (Sorted(names)[i], Sorted(names)[j]);
            a <= b || exists k :: 0 <= k < |a| && k < |b| && a[..k] == b[..k] && a[k] < b[k]
  {
    SortedInOrder(names);
    BeforeByCodePoints(Sorted(names)[i], Sorted(names)[j]);
  }

  // ------------------------------------------------------------ the difference

  predicate ShouldUpdateIntegrations(current: Option<seq<string>>, requested: Option<seq<string>>,
                                     installLocalDeps: bool)
  {
    if requested.Some? then Listed(current) != Listed(requested)
    else installLocalDeps && Listed(current) != {}
  }

  function TargetSet(d: Described, r: Request): seq<Clause> {
    if !(r.unsetTarget && d.target.Some?) && Given(r.target)
       && (d.target.None? || Lower(d.target.value) != Lower(r.target.value))
    then [DefaultTarget(r.target.value)] else []
  }

  function EnvSet(r: Request): seq<Clause> {
    if !r.unsetEnv && Given(r.env) then [DefaultEnvironment(r.env.value)] else []
  }

  function VersionSet(r: Request): seq<Clause> {
    if Given(r.dbtVersion) then [DbtVersion(r.dbtVersion.value)] else []
  }

  function WritebackSet(d: Described, r: Request): seq<Clause> {
    if r.writeback.Some? && d.writeback != r.writeback then [DefaultWriteback(r.writeback.value)] else []
  }

  function AutoCompileSet(d: Described, r: Request): seq<Clause> {
    if r.autoCompile.Some? && d.autoCompile != r.autoCompile then [AutoCompile(r.autoCompile.value)] else []
  }

  function IntegrationsSet(d: Described, r: Request): seq<Clause> {
    if !ShouldUpdateIntegrations(d.integrations, r.integrations, r.installLocalDeps) then []
    else if r.integrations.Some? && r.integrations.value != [] then [Integrations(Sorted(r.integrations.value))]
    else if r.installLocalDeps then [Integrations([])]
    else []
  }

  function Sets(d: Described, r: Request): seq<Clause> {
    TargetSet(d, r) + EnvSet(r) + VersionSet(r) + WritebackSet(d, r) + AutoCompileSet(d, r) + IntegrationsSet(d, r)
  }

  function Unsets(d: Described, r: Request): seq<Property> {
    (if r.unsetTarget && d.target.Some? then [DEFAULT_TARGET] else [])
    + (if r.unsetEnv then [DEFAULT_ENVIRONMENT] else [])
  }

  function UnsetStatements(properties: seq<Property>): seq<Statement> {
    seq(|properties|, i requires 0 <= i < |properties| => AlterUnset(properties[i]))
  }

  function Updates(sets: seq<Clause>, unsets: seq<Property>): seq<Statement> {
    (if sets == [] then [] else [AlterSet(sets)]) + UnsetStatements(unsets)
  }

  lemma UpdateAt(sets: seq<Clause>, unsets: seq<Property>)
    ensures |Updates(sets, unsets)| == |unsets| + (if sets == [] then 0 else 1)
    ensures sets != [] ==> Updates(sets, unsets)[0] == AlterSet(sets)
  {
  }

  lemma UnsetAt(sets: seq<Clause>, unsets: seq<Property>, i: nat)
    requires i < |unsets|
    ensures var first := if sets == [] then 0 else 1;
            first + i < |Updates(sets, unsets)| && Updates(sets, unsets)[first + i] == AlterUnset(unsets[i])
  {
  }

  /** Every statement of one deploy to a project described as `d`. */
  function Statements(d: Described, r: Request, stage: string): seq<Statement> {
    Updates(Sets(d, r), Unsets(d, r)) + [AddVersion(stage, OrNone(r.commit), OrNone(r.branch))]
  }

  /** The first half of _deploy_alter: what to set and what to unset. */
  method PropertyUpdates(d: Described, r: Request) returns (sets: seq<Clause>, unsets: seq<Property>)
    ensures sets == Sets(d, r)
    ensures unsets == Unsets(d, r)
  {
    sets, unsets := [], [];
    if r.unsetTarget && d.target.Some? {
      unsets := unsets + [DEFAULT_TARGET];
    } else if Given(r.target) && (d.target.None? || Lower(d.target.value) != Lower(r.target.value)) {
      sets := sets + [DefaultTarget(r.target.value)];
    }
    assert sets == TargetSet(d, r);
    if r.unsetEnv {
      unsets := unsets + [DEFAULT_ENVIRONMENT];
    } else if Given(r.env) {
      sets := sets + [DefaultEnvironment(r.env.value)];
    }
    ghost var two := TargetSet(d, r) + EnvSet(r);
    assert sets == two;
    if Given(r.dbtVersion) {
      sets := sets + [DbtVersion(r.dbtVersion.value)];
    }
    ghost var three := two + VersionSet(r);
    assert sets == three;
    if r.writeback.Some? && d.writeback != r.writeback {
      sets := sets + [DefaultWriteback(r.writeback.value)];
    }
    ghost var four := three + WritebackSet(d, r);
    assert sets == four;
    if r.autoCompile.Some? && d.autoCompile != r.autoCompile {
      sets := sets + [AutoCompile(r.autoCompile.value)];
    }
    ghost var five := four + AutoCompileSet(d, r);
    assert sets == five;
    if ShouldUpdateIntegrations(d.integrations, r.integrations, r.installLocalDeps) {
      if r.integrations.Some? && r.integrations.value != [] {
        sets := sets + [Integrations(Sorted(r.integrations.value))];
      } else if r.installLocalDeps {
        sets := sets + [Integrations([])];
      }
    }
    assert sets == five + IntegrationsSet(d, r);
  }

  /** Of these statements the first `k`, and no others, have taken a project from `p` to
      `q` and a log from `before` to `after`. */
  predicate Executed(p: Project, before: seq<Statement>, statements: seq<Statement>, k: nat,
                     q: Project, after: seq<Statement>) {
    k <= |statements| && after == before + statements[..k] && q == ApplyAll(p, statements[..k])
  }

  lemma NoneExecuted(p: Project, log: seq<Statement>, statements: seq<Statement>)
    ensures Executed(p, log, statements, 0, p, log)
  {
    assert statements[..0] == [];
  }

  lemma OneMoreExecuted(p: Project, before: seq<Statement>, statements: seq<Statement>, k: nat,
                        q: Project, after: seq<Statement>)
    requires Executed(p, before, statements, k, q, after) && k < |statements|
    ensures Executed(p, before, statements, k + 1, Apply(q, statements[k]), after + [statements[k]])
  {
    ApplyPrefix(p, statements, k);
    Regroup(before, statements[..k], [statements[k]]);
  }

  lemma ExecutedOfLonger(p: Project, before: seq<Statement>, statements: seq<Statement>, s: Statement, k: nat,
                         q: Project, after: seq<Statement>)
    requires Executed(p, before, statements, k, q, after)
    ensures Executed(p, before, statements + [s], k, q, after)
  {
    assert (statements + [s])[..k] == statements[..k];
  }

  /** A session with the server, which may refuse any statement. */
  class Session {
    var project: Project
    ghost var log: seq<Statement>
    ghost var refused: seq<Statement>

    method ExecuteQuery(s: Statement) returns (ok: bool)
      modifies this
      ensures log == if ok then old(log) + [s] else old(log)
      ensures refused == if ok then old(refused) else old(refused) + [s]
      ensures project == if ok then Apply(old(project), s) else old(project)
    {
      ok := *;
      if ok {
        project := Apply(project, s);
        log := log + [s];
      } else {
        refused := refused + [s];
      }
    }

    /** _execute_property_updates: all SETs in one statement, then each UNSET on its own. */
    method ExecutePropertyUpdates(sets: seq<Clause>, unsets: seq<Property>) returns (ok: bool, ghost done: nat)
      modifies this
      ensures ok <==> done == |Updates(sets, unsets)|
      ensures Executed(old(project), old(log), Updates(sets, unsets), done, project, log)
      ensures ok ==> refused == old(refused)
      ensures !ok ==> refused == old(refused) + [Updates(sets, unsets)[done]]
    {
      ghost var p, l, all := project, log, Updates(sets, unsets);
      UpdateAt(sets, unsets);
      NoneExecuted(p, l, all);
      ok, done := true, 0;
      if sets != [] {
        ok := ExecuteQuery(AlterSet(sets));
        if !ok {
          assert refused == old(refused) + [all[0]];
          return;
        }
        OneMoreExecuted(p, l, all, 0, p, l);
        done := 1;
      }
      var i := 0;
      while i < |unsets|
        invariant 0 <= i <= |unsets| && ok && refused == old(refused)
        invariant done == (if sets == [] then 0 else 1) + i
        invariant Executed(p, l, all, done, project, log)
      {
        UnsetAt(sets, unsets, i);
        ghost var project', log' := project, log;
        ok := ExecuteQuery(AlterUnset(unsets[i]));
        if !ok {
          assert refused == old(refused) + [all[done]];
          return;
        }
        OneMoreExecuted(p, l, all, done, project', log');
        done := done + 1;
        i := i + 1;
      }
    }

    method UpdateThenAdd(sets: seq<Clause>, unsets: seq<Property>, add: Statement) returns (ok: bool, ghost done: nat)
      modifies this
      ensures ok <==> done == |Updates(sets, unsets)| + 1
      ensures Executed(old(project), old(log), Updates(sets, unsets) + [add], done, project, log)
      ensures refused == old(refused) + if ok then [] else [(Updates(sets, unsets) + [add])[done]]
    {
      ghost var p, l, updates := project, log, Updates(sets, unsets);
      NoneExecuted(p, l, updates);
      ok, done := true, 0;
      if sets != [] || unsets != [] {
        ok, done := ExecutePropertyUpdates(sets, unsets);
      }
      ExecutedOfLonger(p, l, updates, add, done, project, log);
      if !ok { return; }
      ghost var project', log' := project, log;
      ok := ExecuteQuery(add);
      if !ok { return; }
      OneMoreExecuted(p, l, updates + [add], done, project', log');
      done := done + 1;
    }

    /** _deploy_alter. `done` statements went through; it fails exactly when one was refused,
        which was the last one issued. */
    method DeployAlter(d: Described, r: Request, stage: string) returns (ok: bool, ghost done: nat)
      modifies this
      ensures ok <==> done == |Statements(d, r, stage)|
      ensures Executed(old(project), old(log), Statements(d, r, stage), done, project, log)
      ensures refused == old(refused) + if ok then [] else [Statements(d, r, stage)[done]]
    {
      var sets, unsets := PropertyUpdates(d, r);
      ok, done := UpdateThenAdd(sets, unsets, AddVersion(stage, OrNone(r.commit), OrNone(r.branch)));
    }
  }

  // ------------------------------------------------------------ what it amounts to

  lemma AssignAtMostOne(p: Project, clauses: seq<Clause>, more: seq<Clause>)
    requires |more| <= 1
    ensures AssignAll(p, clauses + more) == AssignIfAny(AssignAll(p, clauses), more)
  {
    if more == [] {
      assert clauses + more == clauses;
    } else {
      assert more == [more[0]];
      AssignOneMore(p, clauses, more[0]);
    }
  }

  function AssignIfAny(p: Project, clause: seq<Clause>): Project {
    if clause == [] then p else Assign(p, clause[0])
  }

  lemma AssignSix(p: Project, a: seq<Clause>, b: seq<Clause>, c: seq<Clause>,
                  d: seq<Clause>, e: seq<Clause>, f: seq<Clause>,
                  texts: Project, flags: Project)
    requires |a| <= 1 && |b| <= 1 && |c| <= 1 && |d| <= 1 && |e| <= 1 && |f| <= 1
    requires texts == AssignIfAny(AssignIfAny(AssignIfAny(p, a), b), c)
    requires flags == AssignIfAny(AssignIfAny(texts, d), e)
    ensures AssignAll(p, a + b + c + d + e + f) == AssignIfAny(flags, f)
  {
    assert [] + a == a;
    AssignAtMostOne(p, [], a);
    AssignAtMostOne(p, a, b);
    AssignAtMostOne(p, a + b, c);
    AssignAtMostOne(p, a + b + c, d);
    AssignAtMostOne(p, a + b + c + d, e);
    AssignAtMostOne(p, a + b + c + d + e, f);
  }

  /** The project after the SET statement. */
  function AfterSets(p: Project, d: Described, r: Request): Project {
    p.(target := if TargetSet(d, r) != [] then r.target else p.target,
       env := if EnvSet(r) != [] then r.env else p.env,
       dbtVersion := if VersionSet(r) != [] then r.dbtVersion else p.dbtVersion,
       writeback := if r.writeback.Some? then r.writeback else p.writeback,
       autoCompile := if r.autoCompile.Some? then r.autoCompile else p.autoCompile,
       integrations := IntegrationsAfter(p.integrations, r))
  }

  /** Whether the request names an integration. */
  predicate NamesAny(r: Request) { r.integrations.Some? && r.integrations.value != [] }

  function IntegrationsAfter(current: Option<set<string>>, r: Request): Option<set<string>> {
    if NamesAny(r) then Some(Elements(r.integrations.value))
    else if r.installLocalDeps && Allowed(current) != {} then Some({})
    else current
  }

  lemma IntegrationsAmountTo(p: Project, d: Described, r: Request)
    requires Listed(d.integrations) == Allowed(p.integrations)
    ensures AssignIfAny(p, IntegrationsSet(d, r)) == p.(integrations := IntegrationsAfter(p.integrations, r))
  {
    if NamesAny(r) {
      SortedInOrder(r.integrations.value);
      assert r.integrations.value[0] in Elements(r.integrations.value);
    }
    var none: seq<string> := [];
    assert Elements(none) == {};
  }

  lemma TextsAmountTo(p: Project, d: Described, r: Request)
    ensures AssignIfAny(AssignIfAny(AssignIfAny(p, TargetSet(d, r)), EnvSet(r)), VersionSet(r))
         == p.(target := if TargetSet(d, r) != [] then r.target else p.target,
               env := if EnvSet(r) != [] then r.env else p.env,
               dbtVersion := if VersionSet(r) != [] then r.dbtVersion else p.dbtVersion)
  {
  }

  lemma FlagsAmountTo(p: Project, d: Described, r: Request)
    requires d.writeback == p.writeback || d.writeback == None
    requires d.autoCompile == p.autoCompile || d.autoCompile == None
    ensures AssignIfAny(AssignIfAny(p, WritebackSet(d, r)), AutoCompileSet(d, r))
         == p.(writeback := if r.writeback.Some? then r.writeback else p.writeback,
               autoCompile := if r.autoCompile.Some? then r.autoCompile else p.autoCompile)
  {
  }

  lemma SetsAmountTo(p: Project, d: Described, r: Request)
    requires Describes(d, p)
    ensures AssignAll(p, Sets(d, r)) == AfterSets(p, d, r)
  {
    var goal := AfterSets(p, d, r);
    var texts := p.(target := goal.target, env := goal.env, dbtVersion := goal.dbtVersion);
    var flags := texts.(writeback := goal.writeback, autoCompile := goal.autoCompile);
    TextsAmountTo(p, d, r);
    FlagsAmountTo(texts, d, r);
    AssignSix(p, TargetSet(d, r), EnvSet(r), VersionSet(r),
              WritebackSet(d, r), AutoCompileSet(d, r), IntegrationsSet(d, r),
              texts, flags);
    IntegrationsAmountTo(flags, d, r);
  }

  lemma UnsetList(d: Described, r: Request)
    ensures UnsetStatements(Unsets(d, r)) == UnsetsOf(r.unsetTarget && d.target.Some?, r.unsetEnv)
  {
  }

  function UnsetsOf(target: bool, env: bool): seq<Statement> {
    if target && env then [AlterUnset(DEFAULT_TARGET), AlterUnset(DEFAULT_ENVIRONMENT)]
    else if target then [AlterUnset(DEFAULT_TARGET)]
    else if env then [AlterUnset(DEFAULT_ENVIRONMENT)]
    else []
  }

  lemma ApplyUnsets(p: Project, first: seq<Statement>, target: bool, env: bool)
    ensures ApplyAll(p, first + UnsetsOf(target, env)) == PartlyUnset(ApplyAll(p, first), target, env)
  {
    var (t, e) := (AlterUnset(DEFAULT_TARGET), AlterUnset(DEFAULT_ENVIRONMENT));
    if target && env {
      assert first + [t, e] == (first + [t]) + [e];
      ApplyOneMore(p, first, t);
      ApplyOneMore(p, first + [t], e);
    } else if target {
      ApplyOneMore(p, first, t);
    } else if env {
      ApplyOneMore(p, first, e);
    } else {
      assert first + [] == first;
    }
  }

  lemma UnsetsAmountTo(p: Project, sets: seq<Clause>, d: Described, r: Request)
    ensures ApplyAll(p, Updates(sets, Unsets(d, r)))
         == PartlyUnset(AssignAll(p, sets), r.unsetTarget && d.target.Some?, r.unsetEnv)
  {
    var first: seq<Statement> := if sets == [] then [] else [AlterSet(sets)];
    assert ApplyAll(p, first) == AssignAll(p, sets) by {
      if sets != [] { assert first[..0] == []; }
    }
    UnsetList(d, r);
    ApplyUnsets(p, first, r.unsetTarget && d.target.Some?, r.unsetEnv);
  }

  /** The project after a whole deploy. */
  function Deployed(p: Project, d: Described, r: Request, stage: string): Project {
    ApplyAll(p, Statements(d, r, stage))
  }

  lemma DeployAmountsTo(p: Project, d: Described, r: Request, stage: string)
    requires Describes(d, p)
    ensures var q := AfterSets(p, d, r);
            Deployed(p, d, r, stage) ==
            q.(target := if r.unsetTarget && p.target.Some? then None else q.target,
               env := if r.unsetEnv then None else q.env,
               versions := p.versions + [Version(stage, OrNone(r.commit), OrNone(r.branch), q.autoCompile)])
  {
    SetsAmountTo(p, d, r);
    UnsetsAmountTo(p, Sets(d, r), d, r);
    ApplyOneMore(p, Updates(Sets(d, r), Unsets(d, r)), AddVersion(stage, OrNone(r.commit), OrNone(r.branch)));
  }

  // ------------------------------------------------------------ the promises

  /** Each requested attribute has the requested value: the target up to case, named
      integrations as a set, an explicit () for install_local_deps alone, and none in force
      for an empty list. Every other attribute is kept. */
  predicate Meets(p: Project, r: Request, q: Project) {
    && (if r.unsetTarget then q.target == None
        else if Given(r.target) then q.target.Some? && Lower(q.target.value) == Lower(r.target.value)
        else q.target == p.target)
    && q.env == (if r.unsetEnv then None else if Given(r.env) then r.env else p.env)
    && q.dbtVersion == (if Given(r.dbtVersion) then r.dbtVersion else p.dbtVersion)
    && q.writeback == (if r.writeback.Some? then r.writeback else p.writeback)
    && q.autoCompile == (if r.autoCompile.Some? then r.autoCompile else p.autoCompile)
    && (if NamesAny(r) then q.integrations == Some(Elements(r.integrations.value))
        else if r.installLocalDeps then q.integrations == Some({})
        else if r.integrations.Some? then Allowed(q.integrations) == {}
        else q.integrations == p.integrations)
  }

  /** Local dependencies are requested for an object without an integrations property; the
      empty set in force then hides that () was never set. */
  predicate LocalDepsLost(p: Project, r: Request) {
    r.installLocalDeps && !NamesAny(r) && p.integrations == None
  }

  /** An empty list is requested without install_local_deps, and there are integrations. */
  predicate EmptyListLost(p: Project, r: Request) {
    r.integrations == Some([]) && !r.installLocalDeps && Allowed(p.integrations) != {}
  }

  /** A deploy converges to what was requested, but for two families of requests. */
  lemma Converges(p: Project, d: Described, r: Request, stage: string)
    requires Describes(d, p) && Exclusive(r)
    ensures Meets(p, r, Deployed(p, d, r, stage)) <==> !LocalDepsLost(p, r) && !EmptyListLost(p, r)
  {
    DeployAmountsTo(p, d, r, stage);
    if r.integrations.Some? && r.integrations.value == [] {
      assert Elements(r.integrations.value) == {};
    }
  }

  const NOTHING_REQUESTED := Request(None, false, None, false, None, false, None, None, None, None, None)

  /** An instance of the second: clearing the integrations by name leaves them in place. */
  lemma EmptyListIsIgnored(p: Project, d: Described, r: Request, stage: string)
    requires Describes(d, p) && p.integrations == Some({"NET"})
    requires r == NOTHING_REQUESTED.(integrations := Some([]))
    ensures ShouldUpdateIntegrations(d.integrations, r.integrations, r.installLocalDeps)
    ensures Deployed(p, d, r, stage).integrations == Some({"NET"})
  {
    DeployAmountsTo(p, d, r, stage);
  }

  /** An instance of the first: asking for local dependencies on an object without the
      property sets nothing, where CREATE sets (). */
  lemma LocalDepsAreIgnored(p: Project, d: Described, r: Request, stage: string)
    requires Describes(d, p) && p.integrations == None
    requires r == NOTHING_REQUESTED.(installLocalDeps := true)
    ensures Statements(d, r, stage) == [AddVersion(stage, None, None)]
    ensures Deployed(p, d, r, stage).integrations == None && Created(r, stage).integrations == Some({})
  {
    DeployAmountsTo(p, d, r, stage);
    assert Sets(d, r) == [] && Unsets(d, r) == [];
  }

  /** The version is added last, once, and is compiled under the requested setting. */
  lemma VersionComesLast(p: Project, d: Described, r: Request, stage: string)
    requires Describes(d, p)
    ensures Deployed(p, d, r, stage).versions == p.versions
            + [Version(stage, OrNone(r.commit), OrNone(r.branch),
                       if r.autoCompile.Some? then r.autoCompile else p.autoCompile)]
    ensures forall s :: s in Statements(d, r, stage)[..|Statements(d, r, stage)| - 1] ==> !s.AddVersion?
  {
    DeployAmountsTo(p, d, r, stage);
  }

  predicate Sets?(c: Clause, property: Property) {
    match property
    case DEFAULT_TARGET => c.DefaultTarget?
    case DEFAULT_ENVIRONMENT => c.DefaultEnvironment?
  }

  lemma InOneOf<T>(a: seq<T>, b: seq<T>, c: seq<T>, d: seq<T>, e: seq<T>, f: seq<T>, x: T)
    requires x in a + b + c + d + e + f
    ensures x in a || x in b || x in c || x in d || x in e || x in f
  {
  }

  lemma ClauseComesFrom(d: Described, r: Request, c: Clause)
    requires c in Sets(d, r)
    ensures c.DefaultTarget? ==> c in TargetSet(d, r)
    ensures c.DefaultEnvironment? ==> c in EnvSet(r)
    ensures c.DbtVersion? ==> c in VersionSet(r)
    ensures c.DefaultWriteback? ==> c in WritebackSet(d, r)
    ensures c.AutoCompile? ==> c in AutoCompileSet(d, r)
    ensures c.Integrations? ==> c in IntegrationsSet(d, r)
  {
    InOneOf(TargetSet(d, r), EnvSet(r), VersionSet(r),
            WritebackSet(d, r), AutoCompileSet(d, r), IntegrationsSet(d, r), c);
  }

  /** Nothing is issued that was not requested, nor what the description shows to be so
      already; only the environment and the dbt version, which it does not show, always are. */
  lemma NothingNeedless(d: Described, r: Request, c: Clause)
    requires c in Sets(d, r)
    ensures match c
            case DefaultTarget(name) =>
              && r.target == Some(name) && name != "" && !(r.unsetTarget && d.target.Some?)
              && (d.target.Some? ==> Lower(d.target.value) != Lower(name))
            case DefaultEnvironment(name) => r.env == Some(name) && name != "" && !r.unsetEnv
            case DbtVersion(version) => r.dbtVersion == Some(version) && version != ""
            case DefaultWriteback(on) => r.writeback == Some(on) && d.writeback != Some(on)
            case AutoCompile(on) => r.autoCompile == Some(on) && d.autoCompile != Some(on)
            case Integrations(names) =>
              && Elements(names) != Listed(d.integrations)
              && (if names == [] then r.installLocalDeps
                  else r.integrations.Some? && Elements(names) == Elements(r.integrations.value))
    ensures forall u :: u in Unsets(d, r) ==>
              if u == DEFAULT_TARGET then r.unsetTarget && d.target.Some? else r.unsetEnv
  {
    ClauseComesFrom(d, r, c);
    UnsetsNeeded(d, r);
    match c
    case DefaultTarget(name) => TargetNeeded(d, r, c);
    case Integrations(names) => IntegrationsNeeded(d, r, c);
    case _ =>
  }

  lemma UnsetsNeeded(d: Described, r: Request)
    ensures forall u :: u in Unsets(d, r) ==>
              if u == DEFAULT_TARGET then r.unsetTarget && d.target.Some? else r.unsetEnv
  {
  }

  lemma TargetNeeded(d: Described, r: Request, c: Clause)
    requires c in TargetSet(d, r)
    ensures c.DefaultTarget? && r.target == Some(c.name) && c.name != "" && !(r.unsetTarget && d.target.Some?)
    ensures d.target.Some? ==> Lower(d.target.value) != Lower(c.name)
  {
  }

  lemma IntegrationsNeeded(d: Described, r: Request, c: Clause)
    requires c in IntegrationsSet(d, r)
    ensures c.Integrations? && Elements(c.names) != Listed(d.integrations)
    ensures if c.names == [] then r.installLocalDeps
            else r.integrations.Some? && Elements(c.names) == Elements(r.integrations.value)
  {
    if r.integrations.Some? && r.integrations.value != [] {
      SortedInOrder(r.integrations.value);
      assert r.integrations.value[0] in Elements(c.names);
    } else {
      assert Elements(c.names) == {};
      assert r.integrations.Some? ==> Elements(r.integrations.value) == {};
    }
  }

  /** No deploy sets and unsets the same property, whatever was requested. */
  lemma NeverSetAndUnset(d: Described, r: Request)
    ensures forall c, u :: c in Sets(d, r) && u in Unsets(d, r) ==> !Sets?(c, u)
  {
    forall c, u | c in Sets(d, r) && u in Unsets(d, r)
      ensures !Sets?(c, u)
    {
      ClauseComesFrom(d, r, c);
    }
  }

  lemma FlagsAgain(q: Project, d: Described, r: Request)
    requires Describes(d, q)
    requires r.writeback.Some? ==> q.writeback == r.writeback
    requires r.autoCompile.Some? ==> q.autoCompile == r.autoCompile
    ensures WritebackSet(d, r)
         == if r.writeback.Some? && d.writeback == None then [DefaultWriteback(r.writeback.value)] else []
    ensures AutoCompileSet(d, r)
         == if r.autoCompile.Some? && d.autoCompile == None then [AutoCompile(r.autoCompile.value)] else []
  {
  }

  lemma EmptyEnds<T>(a: seq<T>, b: seq<T>, c: seq<T>, d: seq<T>)
    ensures [] + a + b + c + d + [] == a + b + c + d
  {
  }

  /** A second deploy with the same request issues the environment and the dbt version
      again, and nothing else but a flag that DESCRIBE does not show. */
  lemma SecondRunIssuesLittle(p: Project, d: Described, r: Request, stage: string, d2: Described)
    requires Describes(d, p) && Exclusive(r) && Describes(d2, Deployed(p, d, r, stage))
    ensures Unsets(d2, r) == if r.unsetEnv then [DEFAULT_ENVIRONMENT] else []
    ensures Sets(d2, r) == EnvSet(r) + VersionSet(r)
            + (if r.writeback.Some? && d2.writeback == None then [DefaultWriteback(r.writeback.value)] else [])
            + (if r.autoCompile.Some? && d2.autoCompile == None then [AutoCompile(r.autoCompile.value)] else [])
  {
    var q := Deployed(p, d, r, stage);
    DeployAmountsTo(p, d, r, stage);
    assert TargetSet(d2, r) == [] && IntegrationsSet(d2, r) == [];
    FlagsAgain(q, d2, r);
    EmptyEnds(EnvSet(r), VersionSet(r), WritebackSet(d2, r), AutoCompileSet(d2, r));
  }

  function PartlyUnset(p: Project, target: bool, env: bool): Project {
    p.(target := if target then None else p.target, env := if env then None else p.env)
  }

  /** All that was to be set has been, and some of what was to be unset. */
  ghost predicate SetAndPartlyUnset(p: Project, d: Described, r: Request, q: Project) {
    exists target: bool, env: bool ::
      q == PartlyUnset(AfterSets(p, d, r), target, env)
      && (target ==> r.unsetTarget && p.target.Some?) && (env ==> r.unsetEnv)
  }

  lemma OneUnset(p: Project, d: Described, r: Request, q: Project, u: Property)
    requires Describes(d, p) && SetAndPartlyUnset(p, d, r, q) && u in Unsets(d, r)
    ensures SetAndPartlyUnset(p, d, r, Apply(q, AlterUnset(u)))
  {
    var target: bool, env: bool :| q == PartlyUnset(AfterSets(p, d, r), target, env)
      && (target ==> r.unsetTarget && p.target.Some?) && (env ==> r.unsetEnv);
    assert Apply(q, AlterUnset(u)) ==
      PartlyUnset(AfterSets(p, d, r), target || u == DEFAULT_TARGET, env || u == DEFAULT_ENVIRONMENT);
  }

  lemma StatementAt(d: Described, r: Request, stage: string, i: nat)
    requires i < |Statements(d, r, stage)| - 1
    ensures var s := Statements(d, r, stage)[i];
            if i == 0 && Sets(d, r) != [] then s == AlterSet(Sets(d, r))
            else s.AlterUnset? && s.property in Unsets(d, r)
  {
  }

  /** What a run that stopped after `done` statements left behind. */
  lemma {:induction false} StoppedRun(p: Project, d: Described, r: Request, stage: string, done: nat)
    requires Describes(d, p) && done < |Statements(d, r, stage)|
    ensures var q := ApplyAll(p, Statements(d, r, stage)[..done]);
            if done == 0 then q == p else SetAndPartlyUnset(p, d, r, q)
  {
    var all := Statements(d, r, stage);
    if done == 0 {
      assert all[..0] == [];
    } else {
      StoppedRun(p, d, r, stage, done - 1);
      ApplyPrefix(p, all, done - 1);
      StatementAt(d, r, stage, done - 1);
      SetsAmountTo(p, d, r);
      assert PartlyUnset(AfterSets(p, d, r), false, false) == AfterSets(p, d, r);
      assert SetAndPartlyUnset(p, d, r, AfterSets(p, d, r));
      if all[done - 1].AlterUnset? {
        OneUnset(p, d, r, ApplyAll(p, all[..done - 1]), all[done - 1].property);
      }
    }
  }

  /** A deploy that failed half way can be run again: the retry ends where the first run
      would have. */
  lemma RetryAfterFailure(p: Project, d: Described, r: Request, stage: string, done: nat, d2: Described)
    requires Describes(d, p) && Exclusive(r) && done < |Statements(d, r, stage)|
    requires Describes(d2, ApplyAll(p, Statements(d, r, stage)[..done]))
    ensures Deployed(ApplyAll(p, Statements(d, r, stage)[..done]), d2, r, stage) == Deployed(p, d, r, stage)
  {
    var stopped := ApplyAll(p, Statements(d, r, stage)[..done]);
    StoppedRun(p, d, r, stage, done);
    DeployAmountsTo(p, d, r, stage);
    DeployAmountsTo(stopped, d2, r, stage);
  }

  /** _deploy_create and its OR REPLACE form: one statement with the given properties. */
  function Created(r: Request, stage: string): Project {
    Project(OrNone(r.target), OrNone(r.env),
            if NamesAny(r) then Some(Elements(r.integrations.value))
            else if r.installLocalDeps then Some({}) else None,
            OrNone(r.dbtVersion), r.writeback, r.autoCompile,
            [Version(stage, OrNone(r.commit), OrNone(r.branch), r.autoCompile)])
  }

  predicate NothingSet(p: Project) { p == Project(None, None, None, None, None, None, p.versions) }

  /** Altering an object on which nothing is set gives what CREATE gives, and adds the
      version that CREATE makes, exactly unless only local dependencies are asked for. */
  lemma AlterAgreesWithCreate(p: Project, d: Described, r: Request, stage: string)
    requires NothingSet(p) && Describes(d, p) && Exclusive(r)
    ensures Deployed(p, d, r, stage).versions == p.versions + Created(r, stage).versions
    ensures Deployed(p, d, r, stage).(versions := []) == Created(r, stage).(versions := [])
       <==> !(r.installLocalDeps && !NamesAny(r))
  {
    DeployAmountsTo(p, d, r, stage);
  }
}
