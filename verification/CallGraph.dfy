/**
 * The test-quality checker's assertion rules: which collected tests pin nothing (TQ001), found
 * by following calls through the module, and which only echo their mocks (TQ002).
 */
module CallGraph {
  import opened Text

  // ----------------------------------------------------------- the syntax

  datatype Expr = Name(id: string) | Attribute(value: Expr, attr: string) | OtherExpr

  /** A node of a function's subtree; an assert statement lists the attributes read below it. */
  datatype Node = Assert(attributes: seq<string>) | Call(func: Expr) | OtherNode

  /** A function definition; `uid` is its identity, `nodes` its whole subtree. */
  datatype Fn = Fn(uid: nat, name: string, isAsync: bool, decorators: seq<Expr>, nodes: seq<Node>)

  datatype Stmt = Def(fn: Fn) | Class(name: string, body: seq<Stmt>) | OtherStmt

  type Tree = seq<Stmt>

  predicate StartsWith(s: string, prefix: string) { prefix <= s }

  const PYTEST_HELPERS: set<string> := {"raises", "warns", "deprecated_call", "fail"}
  const MOCK_ATTRIBUTES: set<string> := {
    "called", "call_args", "call_args_list", "call_count", "mock_calls",
    "await_args", "await_args_list", "await_count", "awaited"}
  const PATCH_MEMBERS: set<string> := {"object", "dict", "multiple"}

  // ----------------------------------------------------------- assertions

  predicate IsAssertionName(name: string) { name in PYTEST_HELPERS || StartsWith(name, "assert") }

  predicate IsAssertion(n: Node)
  {
    match n
    case Assert(_) => true
    case Call(func) =>
      (func.Attribute? && IsAssertionName(func.attr)) || (func.Name? && IsAssertionName(func.id))
    case OtherNode => false
  }

  predicate Asserts(f: Fn) { exists i :: 0 <= i < |f.nodes| && IsAssertion(f.nodes[i]) }

  // -------------------------------------------------------------- scopes

  datatype Target = Target(throughSelf: bool, name: string)

  datatype Scope = Scope(moduleLevel: map<string, Fn>, methods: map<string, Fn>)
  {
    function Resolve(t: Target): Option<Fn>
    {
      var source := if t.throughSelf then methods else moduleLevel;
      if t.name in source then Some(source[t.name]) else None
    }
  }

  function CallTarget(func: Expr): Option<Target>
  {
    if func.Name? then Some(Target(false, func.id))
    else if func.Attribute? && func.value == Name("self") then Some(Target(true, func.attr))
    else None
  }

  function CallTargets(f: Fn): set<Target>
  {
    set i | 0 <= i < |f.nodes| && f.nodes[i].Call? && CallTarget(f.nodes[i].func).Some? :: CallTarget(f.nodes[i].func).value
  }

  /** Functions defined directly in a body, by name; a later definition replaces an earlier one. */
  function FunctionsIn(body: seq<Stmt>): (m: map<string, Fn>)
  {
    if body == [] then map[]
    else
      var rest := FunctionsIn(body[..|body| - 1]);
      var last := body[|body| - 1];
      if last.Def? then rest[last.fn.name := last.fn] else rest
  }

  type Scopes = map<Fn, Scope>

  function Paired(functions: map<string, Fn>, scope: Scope): Scopes { map f | f in functions.Values :: scope }

  function ClassScopes(tree: Tree, moduleLevel: map<string, Fn>): Scopes
  {
    if tree == [] then map[]
    else
      var rest := ClassScopes(tree[..|tree| - 1], moduleLevel);
      var last := tree[|tree| - 1];
      if last.Class?
      then rest + Paired(FunctionsIn(last.body), Scope(moduleLevel, FunctionsIn(last.body)))
      else rest
  }

  function BuildScopes(tree: Tree): Scopes
  {
    var moduleLevel := FunctionsIn(tree);
    Paired(moduleLevel, Scope(moduleLevel, map[])) + ClassScopes(tree, moduleLevel)
  }

  // -------------------------------------------------------------- search

  /** The search, carrying the functions already on the path. */
  predicate ReachesAssertion(f: Fn, scopes: Scopes, seen: set<Fn>)
    decreases |scopes.Keys - seen|
  {
    if f in seen then false
    else if Asserts(f) then true
    else if f !in scopes then false
    else
      assert scopes.Keys - seen == (scopes.Keys - (seen + {f})) + {f};
      exists t :: t in CallTargets(f) && scopes[f].Resolve(t).Some?
                  && ReachesAssertion(scopes[f].Resolve(t).value, scopes, seen + {f})
  }

  predicate AssertsThroughHelpers(f: Fn, scopes: Scopes)
  {
    f in scopes
    && exists t :: t in CallTargets(f) && scopes[f].Resolve(t).Some?
                   && ReachesAssertion(scopes[f].Resolve(t).value, scopes, {f})
  }

  /** One call that the module's scopes resolve. */
  ghost predicate Calls(scopes: Scopes, f: Fn, g: Fn)
  {
    f in scopes && exists t :: t in CallTargets(f) && scopes[f].Resolve(t) == Some(g)
  }

  /** A chain of resolvable calls that ends in an asserting function. */
  ghost predicate Chain(scopes: Scopes, path: seq<Fn>)
    decreases |path|
  {
    && path != []
    && if |path| == 1 then Asserts(path[0]) else Calls(scopes, path[0], path[1]) && Chain(scopes, path[1..])
  }

  ghost predicate ChainFrom(scopes: Scopes, f: Fn, path: seq<Fn>) { path != [] && path[0] == f && Chain(scopes, path) }

  ghost predicate Reachable(scopes: Scopes, f: Fn) { exists path :: ChainFrom(scopes, f, path) }

  ghost predicate Avoids(path: seq<Fn>, seen: set<Fn>) { forall i :: 0 <= i < |path| ==> path[i] !in seen }

  /** What the search finds is a chain. */
  lemma {:induction false} SearchSound(f: Fn, scopes: Scopes, seen: set<Fn>) returns (path: seq<Fn>)
    requires ReachesAssertion(f, scopes, seen)
    ensures ChainFrom(scopes, f, path)
    decreases |scopes.Keys - seen|
  {
    if Asserts(f) {
      path := [f];
    } else {
      assert scopes.Keys - seen == (scopes.Keys - (seen + {f})) + {f};
      var t :| t in CallTargets(f) && scopes[f].Resolve(t).Some?
               && ReachesAssertion(scopes[f].Resolve(t).value, scopes, seen + {f});
      var rest := SearchSound(scopes[f].Resolve(t).value, scopes, seen + {f});
      path := [f] + rest;
      assert path[1..] == rest;
    }
  }

  /** A chain can be cut to start at the last time it passes through its first function. */
  lemma {:induction false} LastVisit(scopes: Scopes, path: seq<Fn>, f: Fn, seen: set<Fn>) returns (cut: seq<Fn>)
    requires Chain(scopes, path) && f in path && Avoids(path, seen)
    ensures ChainFrom(scopes, f, cut) && Avoids(cut, seen) && f !in cut[1..] && |cut| <= |path|
    decreases |path|
  {
    if f in path[1..] {
      cut := LastVisit(scopes, path[1..], f, seen);
    } else {
      cut := path;
    }
  }

  /** Every chain clear of the functions already seen is found, cycles or not. */
  lemma {:induction false} SearchComplete(f: Fn, scopes: Scopes, seen: set<Fn>, path: seq<Fn>)
    requires ChainFrom(scopes, f, path) && Avoids(path, seen)
    ensures ReachesAssertion(f, scopes, seen)
    decreases |path|
  {
    var cut := LastVisit(scopes, path, f, seen);
    if |cut| > 1 {
      assert Avoids(cut[1..], seen + {f});
      SearchComplete(cut[1], scopes, seen + {f}, cut[1..]);
    }
  }

  /** The per-path search is reachability. */
  lemma SearchIsReachability(f: Fn, scopes: Scopes)
    ensures ReachesAssertion(f, scopes, {}) <==> Reachable(scopes, f)
  {
    if ReachesAssertion(f, scopes, {}) {
      var path := SearchSound(f, scopes, {});
    }
    if path :| ChainFrom(scopes, f, path) {
      SearchComplete(f, scopes, {}, path);
    }
  }

  /** For a test with no assertion of its own, the entry point is reachability too. */
  lemma HelpersIsReachability(f: Fn, scopes: Scopes)
    requires !Asserts(f)
    ensures AssertsThroughHelpers(f, scopes) <==> Reachable(scopes, f)
  {
    if AssertsThroughHelpers(f, scopes) {
      var t :| t in CallTargets(f) && scopes[f].Resolve(t).Some?
               && ReachesAssertion(scopes[f].Resolve(t).value, scopes, {f});
      var rest := SearchSound(scopes[f].Resolve(t).value, scopes, {f});
      assert ([f] + rest)[1..] == rest;
      assert ChainFrom(scopes, f, [f] + rest);
    }
    if path :| ChainFrom(scopes, f, path) {
      var cut := LastVisit(scopes, path, f, {});
      assert Avoids(cut[1..], {f});
      SearchComplete(cut[1], scopes, {f}, cut[1..]);
    }
  }

  // ------------------------------------------------------------ collection

  predicate DefinesInit(body: seq<Stmt>)
  {
    exists i :: 0 <= i < |body| && body[i].Def? && !body[i].fn.isAsync && body[i].fn.name == "__init__"
  }

  predicate CollectibleClass(s: Stmt) { s.Class? && StartsWith(s.name, "Test") && !DefinesInit(s.body) }

  function TestsIn(body: seq<Stmt>): seq<Fn>
  {
    if body == [] then []
    else
      TestsIn(body[..|body| - 1])
      + (var last := body[|body| - 1]; if last.Def? && StartsWith(last.fn.name, "test_") then [last.fn] else [])
  }

  /** Test-named functions at module level and in collectible classes, in source order; shadowed ones too. */
  function TestFunctions(tree: Tree): seq<Fn>
  {
    if tree == [] then []
    else
      var last := tree[|tree| - 1];
      TestFunctions(tree[..|tree| - 1])
      + (if CollectibleClass(last) then TestsIn(last.body) else TestsIn([last]))
  }

  /** A class named `Test...` without a constructor; an async `__init__` is none. */
  ghost predicate Collects(c: Stmt)
  {
    c.Class? && "Test" <= c.name && forall g :: Def(g) in c.body ==> g.isAsync || g.name != "__init__"
  }

  lemma CollectsExactly(c: Stmt)
    ensures CollectibleClass(c) <==> Collects(c)
  {
    if c.Class? && DefinesInit(c.body) {
      var i :| 0 <= i < |c.body| && c.body[i].Def? && !c.body[i].fn.isAsync && c.body[i].fn.name == "__init__";
      assert Def(c.body[i].fn) in c.body;
    }
  }

  ghost predicate Collected(tree: Tree, f: Fn)
  {
    "test_" <= f.name && (Def(f) in tree || exists c :: c in tree && Collects(c) && Def(f) in c.body)
  }

  lemma {:induction false} TestsInExact(body: seq<Stmt>, f: Fn)
    ensures f in TestsIn(body) <==> Def(f) in body && StartsWith(f.name, "test_")
  {
    if body != [] {
      TestsInExact(body[..|body| - 1], f);
      assert body == body[..|body| - 1] + [body[|body| - 1]];
    }
  }

  /** What the last statement adds to the collected functions. */
  lemma CollectedLast(init: Tree, last: Stmt, f: Fn)
    ensures Collected(init + [last], f) <==>
            Collected(init, f) || f in (if CollectibleClass(last) then TestsIn(last.body) else TestsIn([last]))
  {
    CollectsExactly(last);
    TestsInExact(if CollectibleClass(last) then last.body else [last], f);
    forall c ensures c in init + [last] <==> c in init || c == last {
    }
  }

  lemma {:induction false} TestFunctionsExact(tree: Tree, f: Fn)
    ensures f in TestFunctions(tree) <==> Collected(tree, f)
  {
    if tree != [] {
      var init, last := tree[..|tree| - 1], tree[|tree| - 1];
      TestFunctionsExact(init, f);
      CollectedLast(init, last, f);
      assert tree == init + [last];
    }
  }

  // ------------------------------------------------------------ violations

  /** The names along an attribute chain; empty when the chain does not start at a plain name. */
  function DottedParts(e: Expr): seq<string>
  {
    match e
    case Name(id) => [id]
    case Attribute(value, attr) => if DottedParts(value) == [] then [] else DottedParts(value) + [attr]
    case OtherExpr => []
  }

  predicate IsPatchInstaller(parts: seq<string>)
  {
    parts != []
    && (parts[|parts| - 1] == "patch"
        || (|parts| >= 2 && parts[|parts| - 2] == "patch" && parts[|parts| - 1] in PATCH_MEMBERS))
  }

  predicate InstallsPatch(f: Fn)
  {
    || (exists i :: 0 <= i < |f.decorators| && IsPatchInstaller(DottedParts(f.decorators[i])))
    || (exists i :: 0 <= i < |f.nodes| && f.nodes[i].Call? && IsPatchInstaller(DottedParts(f.nodes[i].func)))
  }

  predicate InspectsMock(attr: string) { attr in MOCK_ATTRIBUTES || StartsWith(attr, "assert_") }

  predicate OnlyInspectsMock(n: Node)
    requires IsAssertion(n)
  {
    match n
    case Call(func) => func.Attribute? && StartsWith(func.attr, "assert_")
    case Assert(attributes) => exists i :: 0 <= i < |attributes| && InspectsMock(attributes[i])
  }

  predicate EchoesMock(f: Fn)
  {
    InstallsPatch(f) && forall i :: 0 <= i < |f.nodes| && IsAssertion(f.nodes[i]) ==> OnlyInspectsMock(f.nodes[i])
  }

  datatype Code = TQ001 | TQ002

  datatype Violation = Violation(fn: Fn, code: Code)

  function Judge(f: Fn, scopes: Scopes): Option<Code>
  {
    if !Asserts(f) && AssertsThroughHelpers(f, scopes) then None
    else if !Asserts(f) then Some(TQ001)
    else if EchoesMock(f) then Some(TQ002)
    else None
  }

  function JudgeAll(fs: seq<Fn>, scopes: Scopes): seq<Violation>
  {
    if fs == [] then []
    else
      var verdict := Judge(fs[0], scopes);
      (if verdict.Some? then [Violation(fs[0], verdict.value)] else []) + JudgeAll(fs[1..], scopes)
  }

  function Violations(tree: Tree): seq<Violation> { JudgeAll(TestFunctions(tree), BuildScopes(tree)) }

  lemma {:induction false} JudgeAllExact(fs: seq<Fn>, scopes: Scopes, v: Violation)
    ensures v in JudgeAll(fs, scopes) <==> v.fn in fs && Judge(v.fn, scopes) == Some(v.code)
  {
    if fs != [] {
      JudgeAllExact(fs[1..], scopes, v);
      assert fs == [fs[0]] + fs[1..];
    }
  }

  /** TQ001 is reported for exactly the collected tests from which no chain of calls reaches an assertion. */
  lemma UnassertedExact(tree: Tree, f: Fn)
    ensures Violation(f, TQ001) in Violations(tree) <==> Collected(tree, f) && !Reachable(BuildScopes(tree), f)
  {
    var scopes := BuildScopes(tree);
    JudgeAllExact(TestFunctions(tree), scopes, Violation(f, TQ001));
    TestFunctionsExact(tree, f);
    if Asserts(f) {
      assert ChainFrom(scopes, f, [f]);
    } else {
      HelpersIsReachability(f, scopes);
    }
  }

  /** TQ002 is reported for exactly the collected tests that assert, patch, and only inspect mocks; never with TQ001. */
  lemma EchoExact(tree: Tree, f: Fn)
    ensures Violation(f, TQ002) in Violations(tree) <==> Collected(tree, f) && Asserts(f) && EchoesMock(f)
    ensures !(Violation(f, TQ001) in Violations(tree) && Violation(f, TQ002) in Violations(tree))
  {
    var scopes := BuildScopes(tree);
    JudgeAllExact(TestFunctions(tree), scopes, Violation(f, TQ001));
    JudgeAllExact(TestFunctions(tree), scopes, Violation(f, TQ002));
    TestFunctionsExact(tree, f);
  }

  // ------------------------------------ what counts as asserting, patching, inspecting

  /** Called bare or on anything, a pytest helper or a name that starts with `assert` asserts, and no other call does. */
  lemma AssertingCalls(owner: Expr, name: string)
    ensures IsAssertion(Call(Name(name))) <==> name in ["raises", "warns", "deprecated_call", "fail"] || "assert" <= name
    ensures IsAssertion(Call(Attribute(owner, name))) <==> IsAssertion(Call(Name(name)))
    ensures !IsAssertion(Call(OtherExpr)) && !IsAssertion(OtherNode)
  {
  }

  function Dotted(parts: seq<string>): Expr
    requires parts != []
  {
    if |parts| == 1 then Name(parts[0]) else Attribute(Dotted(parts[..|parts| - 1]), parts[|parts| - 1])
  }

  lemma {:induction false} DottedBack(parts: seq<string>)
    requires parts != []
    ensures DottedParts(Dotted(parts)) == parts
  {
    if |parts| > 1 {
      DottedBack(parts[..|parts| - 1]);
      assert parts == parts[..|parts| - 1] + [parts[|parts| - 1]];
    } else {
      assert parts == [parts[0]];
    }
  }

  /** A dotted name patches when it ends in `patch`, or in `patch.` and one of its three variants. */
  lemma PatchingNames(parts: seq<string>)
    requires parts != []
    ensures var n := |parts|;
            IsPatchInstaller(DottedParts(Dotted(parts))) <==>
              || parts[n - 1] == "patch"
              || (n > 1 && parts[n - 2] == "patch" && parts[n - 1] in ["object", "dict", "multiple"])
  {
    DottedBack(parts);
  }

  /** No other expression counts as a dotted name. */
  lemma {:induction false} OnlyDotted(e: Expr)
    requires DottedParts(e) != []
    ensures e == Dotted(DottedParts(e))
  {
    if e.Attribute? {
      OnlyDotted(e.value);
      assert DottedParts(e)[..|DottedParts(e)| - 1] == DottedParts(e.value);
    }
  }

  /** A test patches when one of its decorators or of the calls below it has such a name. */
  lemma PatchesExactly(f: Fn)
    ensures InstallsPatch(f) <==>
            || (exists d :: d in f.decorators && IsPatchInstaller(DottedParts(d)))
            || (exists func :: Call(func) in f.nodes && IsPatchInstaller(DottedParts(func)))
  {
    if d :| d in f.decorators && IsPatchInstaller(DottedParts(d)) {
      var i :| 0 <= i < |f.decorators| && f.decorators[i] == d;
    }
    if func :| Call(func) in f.nodes && IsPatchInstaller(DottedParts(func)) {
      var i :| 0 <= i < |f.nodes| && f.nodes[i] == Call(func);
    }
    if InstallsPatch(f) {
      if i :| 0 <= i < |f.decorators| && IsPatchInstaller(DottedParts(f.decorators[i])) {
        assert f.decorators[i] in f.decorators;
      } else {
        var i :| 0 <= i < |f.nodes| && f.nodes[i].Call? && IsPatchInstaller(DottedParts(f.nodes[i].func));
        assert Call(f.nodes[i].func) in f.nodes;
      }
    }
  }

  /** The attributes by which a test reads what a mock was called with. */
  ghost predicate ReadsRecord(attr: string)
  {
    || attr in ["called", "call_args", "call_args_list", "call_count", "mock_calls"]
    || attr in ["await_args", "await_args_list", "await_count", "awaited"]
    || "assert_" <= attr
  }

  /** A test is an echo when it patches, and each of its assertions is a mock's own or reads a mock's record. */
  lemma EchoesExactly(f: Fn)
    ensures EchoesMock(f) <==>
            && InstallsPatch(f)
            && (forall owner, name :: Call(Attribute(owner, name)) in f.nodes && IsAssertion(Call(Attribute(owner, name))) ==>
                  "assert_" <= name)
            && (forall name :: Call(Name(name)) in f.nodes ==> !IsAssertion(Call(Name(name))))
            && (forall attributes :: Assert(attributes) in f.nodes ==>
                  exists i :: 0 <= i < |attributes| && ReadsRecord(attributes[i]))
  {
    assert forall attr :: InspectsMock(attr) <==> ReadsRecord(attr);
    if EchoesMock(f) {
      forall name | Call(Name(name)) in f.nodes ensures !IsAssertion(Call(Name(name))) {
        var i :| 0 <= i < |f.nodes| && f.nodes[i] == Call(Name(name));
      }
    }
  }

  // ------------------------------------------------- shadowed definitions

  /** f is defined in the body and no later definition takes its name. */
  ghost predicate Prevails(body: seq<Stmt>, f: Fn)
  {
    exists i :: 0 <= i < |body| && PrevailsAt(body, f, i)
  }

  ghost predicate PrevailsAt(body: seq<Stmt>, f: Fn, i: nat)
    requires i < |body|
  {
    body[i] == Def(f) && forall j :: i < j < |body| && body[j].Def? ==> body[j].fn.name != f.name
  }

  lemma {:induction false} NamesHold(body: seq<Stmt>, name: string)
    requires name in FunctionsIn(body)
    ensures FunctionsIn(body)[name].name == name
  {
    var init, last := body[..|body| - 1], body[|body| - 1];
    if !(last.Def? && last.fn.name == name) {
      NamesHold(init, name);
    }
  }

  lemma PrevailsLonger(init: seq<Stmt>, last: Stmt, f: Fn)
    ensures Prevails(init + [last], f) <==>
            last == Def(f) || (Prevails(init, f) && !(last.Def? && last.fn.name == f.name))
  {
    var body := init + [last];
    if last == Def(f) {
      assert PrevailsAt(body, f, |init|);
    }
    if i :| 0 <= i < |init| && PrevailsAt(init, f, i) {
      if !(last.Def? && last.fn.name == f.name) {
        assert PrevailsAt(body, f, i);
      }
    }
    if i :| 0 <= i < |body| && PrevailsAt(body, f, i) {
      if last != Def(f) {
        assert body[|init|] == last && i < |init|;
        assert forall j :: 0 <= j < |init| ==> body[j] == init[j];
        assert PrevailsAt(init, f, i);
      }
    }
  }

  ghost predicate Wins(body: seq<Stmt>, f: Fn) { f.name in FunctionsIn(body) && FunctionsIn(body)[f.name] == f }

  lemma {:induction false} WinsIsPrevails(body: seq<Stmt>, f: Fn)
    ensures Wins(body, f) <==> Prevails(body, f)
  {
    if body != [] {
      var init, last := body[..|body| - 1], body[|body| - 1];
      WinsIsPrevails(init, f);
      assert body == init + [last];
      PrevailsLonger(init, last, f);
    }
  }

  lemma LastDefinitionWins(body: seq<Stmt>, f: Fn)
    ensures f in FunctionsIn(body).Values <==> Prevails(body, f)
  {
    WinsIsPrevails(body, f);
    if f in FunctionsIn(body).Values {
      var name :| name in FunctionsIn(body) && FunctionsIn(body)[name] == f;
      NamesHold(body, name);
    }
  }

  ghost predicate PrevailsInClass(tree: Tree, f: Fn) { exists c :: c in tree && c.Class? && Prevails(c.body, f) }

  lemma {:induction false} ClassScopesExact(tree: Tree, moduleLevel: map<string, Fn>, f: Fn)
    ensures f in ClassScopes(tree, moduleLevel) <==> PrevailsInClass(tree, f)
  {
    if tree != [] {
      var init, last := tree[..|tree| - 1], tree[|tree| - 1];
      ClassScopesExact(init, moduleLevel, f);
      assert tree == init + [last];
      if last.Class? {
        LastDefinitionWins(last.body, f);
      }
      if PrevailsInClass(tree, f) && !PrevailsInClass(init, f) {
        var c :| c in tree && c.Class? && Prevails(c.body, f);
        assert c == last;
      }
    }
  }

  /** A function has a scope exactly when it is the last of its name where it is defined. */
  lemma ScopedExactly(tree: Tree, f: Fn)
    ensures f in BuildScopes(tree) <==> Prevails(tree, f) || PrevailsInClass(tree, f)
  {
    LastDefinitionWins(tree, f);
    ClassScopesExact(tree, FunctionsIn(tree), f);
  }

  /** So a shadowed test without an assertion of its own is reported, whatever helpers it calls. */
  lemma ShadowedIsReported(tree: Tree, f: Fn)
    requires Collected(tree, f) && !Asserts(f) && !Prevails(tree, f) && !PrevailsInClass(tree, f)
    ensures Violation(f, TQ001) in Violations(tree)
  {
    ScopedExactly(tree, f);
    JudgeAllExact(TestFunctions(tree), BuildScopes(tree), Violation(f, TQ001));
    TestFunctionsExact(tree, f);
  }

  // --------------------------------------------- calls, on the tree itself

  ghost predicate NamesCall(f: Fn, name: string) { Call(Name(name)) in f.nodes }

  ghost predicate SelfCall(f: Fn, name: string) { Call(Attribute(Name("self"), name)) in f.nodes }

  /** c is a class of the module in which f is the last of its name. */
  ghost predicate MethodOf(tree: Tree, c: Stmt, f: Fn) { c in tree && c.Class? && Prevails(c.body, f) }

  /**
   * f calls g, as Python's scoping has it: a bare name means the module-level function that
   * prevails under it, `self.name` the method that prevails in f's own class and no other.
   */
  ghost predicate TreeCalls(tree: Tree, f: Fn, g: Fn)
  {
    || ((Prevails(tree, f) || PrevailsInClass(tree, f)) && Prevails(tree, g) && NamesCall(f, g.name))
    || (exists c :: MethodOf(tree, c, f) && Prevails(c.body, g) && SelfCall(f, g.name))
  }

  /** No definition stands in two places: in two classes, or in a class and at module level. */
  ghost predicate Distinct(tree: Tree)
  {
    && (forall f, c :: c in tree && c.Class? && Def(f) in c.body ==> Def(f) !in tree)
    && (forall f, i, j :: 0 <= i < |tree| && 0 <= j < |tree| && DefinedIn(tree[i], f) && DefinedIn(tree[j], f) ==> i == j)
  }

  ghost predicate DefinedIn(c: Stmt, f: Fn) { c.Class? && Def(f) in c.body }

  lemma PrevailsIsDefined(body: seq<Stmt>, f: Fn)
    requires Prevails(body, f)
    ensures Def(f) in body
  {
  }

  lemma DistinctInit(init: Tree, last: Stmt)
    requires Distinct(init + [last])
    ensures Distinct(init)
  {
    var tree := init + [last];
    assert forall k :: 0 <= k < |init| ==> tree[k] == init[k];
    forall f, i, j | 0 <= i < |init| && 0 <= j < |init| && DefinedIn(init[i], f) && DefinedIn(init[j], f) ensures i == j {
      assert DefinedIn(tree[i], f) && DefinedIn(tree[j], f);
    }
  }

  /** A method's scope is the module's functions and its own class's methods. */
  lemma {:induction false} ClassScope(tree: Tree, moduleLevel: map<string, Fn>, c: Stmt, f: Fn)
    requires Distinct(tree) && MethodOf(tree, c, f)
    ensures f in ClassScopes(tree, moduleLevel) && ClassScopes(tree, moduleLevel)[f] == Scope(moduleLevel, FunctionsIn(c.body))
  {
    var init, last := tree[..|tree| - 1], tree[|tree| - 1];
    assert tree == init + [last];
    PrevailsIsDefined(c.body, f);
    var k :| 0 <= k < |tree| && tree[k] == c;
    assert DefinedIn(tree[k], f);
    if k == |init| {
      LastDefinitionWins(c.body, f);
    } else {
      assert c == init[k] && MethodOf(init, c, f);
      DistinctInit(init, last);
      ClassScope(init, moduleLevel, c, f);
      assert !DefinedIn(tree[|init|], f);
      if last.Class? {
        NotDefinedNoScope(last.body, f);
      }
    }
  }

  lemma NotDefinedNoScope(body: seq<Stmt>, f: Fn)
    requires Def(f) !in body
    ensures f !in FunctionsIn(body).Values
  {
    LastDefinitionWins(body, f);
  }

  /** A call target is resolved to the function that prevails under its name. */
  lemma FoundByName(body: seq<Stmt>, name: string, g: Fn)
    ensures name in FunctionsIn(body) && FunctionsIn(body)[name] == g <==> Prevails(body, g) && g.name == name
  {
    WinsIsPrevails(body, g);
    if name in FunctionsIn(body) {
      NamesHold(body, name);
    }
  }

  lemma BareTargets(f: Fn, name: string)
    ensures Target(false, name) in CallTargets(f) <==> NamesCall(f, name)
  {
    if NamesCall(f, name) {
      var i :| 0 <= i < |f.nodes| && f.nodes[i] == Call(Name(name));
      assert f.nodes[i].Call? && CallTarget(f.nodes[i].func) == Some(Target(false, name));
    }
  }

  lemma SelfTargets(f: Fn, name: string)
    ensures Target(true, name) in CallTargets(f) <==> SelfCall(f, name)
  {
    if SelfCall(f, name) {
      var i :| 0 <= i < |f.nodes| && f.nodes[i] == Call(Attribute(Name("self"), name));
      assert f.nodes[i].Call? && CallTarget(f.nodes[i].func) == Some(Target(true, name));
    }
    if Target(true, name) in CallTargets(f) {
      var i :| 0 <= i < |f.nodes| && f.nodes[i].Call? && CallTarget(f.nodes[i].func) == Some(Target(true, name));
      assert f.nodes[i] == Call(Attribute(Name("self"), name));
    }
  }

  /** What one scope resolves, in terms of bodies. */
  lemma ScopeCalls(scopes: Scopes, f: Fn, g: Fn, top: seq<Stmt>, methods: seq<Stmt>)
    requires f in scopes && scopes[f] == Scope(FunctionsIn(top), FunctionsIn(methods))
    ensures Calls(scopes, f, g) <==>
            (Prevails(top, g) && NamesCall(f, g.name)) || (Prevails(methods, g) && SelfCall(f, g.name))
  {
    BareTargets(f, g.name);
    SelfTargets(f, g.name);
    FoundByName(top, g.name, g);
    FoundByName(methods, g.name, g);
    if Calls(scopes, f, g) {
      var t :| t in CallTargets(f) && scopes[f].Resolve(t) == Some(g);
      FoundByName(if t.throughSelf then methods else top, t.name, g);
      assert t == Target(t.throughSelf, g.name);
    }
    if Prevails(top, g) && NamesCall(f, g.name) {
      assert scopes[f].Resolve(Target(false, g.name)) == Some(g);
    }
    if Prevails(methods, g) && SelfCall(f, g.name) {
      assert scopes[f].Resolve(Target(true, g.name)) == Some(g);
    }
  }

  lemma MethodDefined(tree: Tree, c: Stmt, f: Fn)
    requires MethodOf(tree, c, f)
    ensures DefinedIn(c, f)
  {
    PrevailsIsDefined(c.body, f);
  }

  lemma ModuleScope(tree: Tree, f: Fn)
    requires Distinct(tree) && Prevails(tree, f)
    ensures f in BuildScopes(tree) && BuildScopes(tree)[f] == Scope(FunctionsIn(tree), FunctionsIn([]))
    ensures forall c :: !MethodOf(tree, c, f)
  {
    PrevailsIsDefined(tree, f);
    LastDefinitionWins(tree, f);
    ClassScopesExact(tree, FunctionsIn(tree), f);
    forall c ensures !MethodOf(tree, c, f) {
      if MethodOf(tree, c, f) {
        MethodDefined(tree, c, f);
      }
    }
  }

  lemma OneClass(tree: Tree, c: Stmt, d: Stmt, f: Fn)
    requires Distinct(tree) && MethodOf(tree, c, f) && MethodOf(tree, d, f)
    ensures c == d
  {
    PrevailsIsDefined(c.body, f);
    PrevailsIsDefined(d.body, f);
    var i :| 0 <= i < |tree| && tree[i] == c;
    var j :| 0 <= j < |tree| && tree[j] == d;
    assert DefinedIn(tree[i], f) && DefinedIn(tree[j], f);
  }

  /** The scopes resolve exactly the calls of the tree. */
  lemma CallsExact(tree: Tree, f: Fn, g: Fn)
    requires Distinct(tree)
    ensures Calls(BuildScopes(tree), f, g) <==> TreeCalls(tree, f, g)
  {
    var scopes := BuildScopes(tree);
    ScopedExactly(tree, f);
    if Prevails(tree, f) {
      ModuleScope(tree, f);
      ScopeCalls(scopes, f, g, tree, []);
    } else if PrevailsInClass(tree, f) {
      var c :| c in tree && c.Class? && Prevails(c.body, f);
      assert MethodOf(tree, c, f);
      ClassScope(tree, FunctionsIn(tree), c, f);
      ScopeCalls(scopes, f, g, tree, c.body);
      forall d | MethodOf(tree, d, f) ensures d == c {
        OneClass(tree, c, d, f);
      }
    }
  }

  /** A chain of calls from f to a function that asserts, on the tree. */
  ghost predicate TreeChain(tree: Tree, f: Fn, path: seq<Fn>)
  {
    && path != [] && path[0] == f && Asserts(path[|path| - 1])
    && forall k :: 0 <= k < |path| - 1 ==> TreeCallsAt(tree, path, k)
  }

  ghost predicate TreeCallsAt(tree: Tree, path: seq<Fn>, k: nat)
    requires k + 1 < |path|
  {
    TreeCalls(tree, path[k], path[k + 1])
  }

  lemma {:induction false} ChainIsTreeChain(tree: Tree, path: seq<Fn>)
    requires Distinct(tree) && path != []
    ensures ChainFrom(BuildScopes(tree), path[0], path) <==> TreeChain(tree, path[0], path)
    decreases |path|
  {
    if |path| > 1 {
      ChainIsTreeChain(tree, path[1..]);
      CallsExact(tree, path[0], path[1]);
      if ChainFrom(BuildScopes(tree), path[0], path) {
        forall k | 0 <= k < |path| - 1 ensures TreeCallsAt(tree, path, k) {
          assert k > 0 ==> TreeCallsAt(tree, path[1..], k - 1);
        }
      }
      if TreeChain(tree, path[0], path) {
        assert TreeCallsAt(tree, path, 0);
        forall k | 0 <= k < |path[1..]| - 1 ensures TreeCallsAt(tree, path[1..], k) {
          assert TreeCallsAt(tree, path, k + 1);
        }
      }
    }
  }

  /**
   * TQ001 on the tree alone: reported for exactly the collected tests from which no chain of
   * calls, each by a bare name or through `self` within one class, reaches an assertion.
   */
  lemma UnassertedOnTree(tree: Tree, f: Fn)
    requires Distinct(tree)
    ensures Violation(f, TQ001) in Violations(tree) <==> Collected(tree, f) && forall path :: !TreeChain(tree, f, path)
  {
    UnassertedExact(tree, f);
    if path :| ChainFrom(BuildScopes(tree), f, path) {
      ChainIsTreeChain(tree, path);
    }
    if path :| TreeChain(tree, f, path) {
      ChainIsTreeChain(tree, path);
      assert ChainFrom(BuildScopes(tree), f, path);
    }
  }

  const Helper := Fn(0, "check", false, [], [Assert([])])
  const FirstTest := Fn(1, "test_a", false, [], [Call(Name("check"))])
  const SecondTest := Fn(2, "test_a", false, [], [Assert([])])

  lemma FunctionsAppend(init: Tree, f: Fn)
    ensures FunctionsIn(init + [Def(f)]) == FunctionsIn(init)[f.name := f]
  {
    var tree := init + [Def(f)];
    assert tree[..|tree| - 1] == init;
  }

  lemma FirstReachesHelper(scopes: Scopes, path: seq<Fn>)
    requires FirstTest in scopes && scopes[FirstTest].Resolve(Target(false, "check")) == Some(Helper)
    requires path == [FirstTest, Helper]
    ensures ChainFrom(scopes, FirstTest, path)
  {
    assert IsAssertion(Helper.nodes[0]);
    assert FirstTest.nodes[0].Call? && Target(false, "check") in CallTargets(FirstTest);
    assert path[1..] == [Helper];
  }

  /** A test that calls an asserting helper passes, until a second test takes its name. */
  lemma ShadowedDespiteHelper()
    ensures Violation(FirstTest, TQ001) !in Violations([Def(Helper), Def(FirstTest)])
    ensures Violation(FirstTest, TQ001) in Violations([Def(Helper), Def(FirstTest), Def(SecondTest)])
  {
    var tree := [Def(Helper), Def(FirstTest)];
    FunctionsAppend([], Helper);
    FunctionsAppend([Def(Helper)], FirstTest);
    assert [Def(Helper)] + [Def(FirstTest)] == tree && [] + [Def(Helper)] == [Def(Helper)];
    assert FunctionsIn(tree)["test_a"] == FirstTest && FunctionsIn(tree)["check"] == Helper;
    assert FirstTest in FunctionsIn(tree).Values && !PrevailsInClass(tree, FirstTest);
    ClassScopesExact(tree, FunctionsIn(tree), FirstTest);
    FirstReachesHelper(BuildScopes(tree), [FirstTest, Helper]);
    UnassertedExact(tree, FirstTest);

    var longer := [Def(Helper), Def(FirstTest), Def(SecondTest)];
    assert longer[1] == Def(FirstTest) && longer[2] == Def(SecondTest);
    ShadowedIsReported(longer, FirstTest);
  }
}
