/**
 * The test library's registry and runner: test cases are registered into
 * named groups, run group by group and case by case, and the outcome of the
 * whole suite becomes the process exit code.
 *
 * A test function is identified by a number; whether it fails is given as a
 * function from that number to a boolean, standing for the non-null result
 * the function would return.
 */
module TestHarness {
  import opened Options

  /** A registered test case: its name and the function it runs. */
  datatype TestCase = TestCase(name: string, fn: nat)

  /** A named group of test cases, in the order they were added. */
  datatype Group = Group(name: string, cases: seq<TestCase>)

  /** The registry: the groups in the order they were created. */
  type Registry = seq<Group>

  /** One `test_add_test` call made while a suite declares its tests. */
  datatype Declaration = Declaration(group: string, test: TestCase)

  /** No two groups share a name. */
  ghost predicate UniqueNames(reg: Registry)
  {
    forall i, j :: 0 <= i < j < |reg| ==> reg[i].name != reg[j].name
  }

  /** Every case of every group, groups in order and cases in order within each group. */
  function Flatten(reg: Registry): seq<TestCase>
  {
    if reg == [] then [] else reg[0].cases + Flatten(reg[1..])
  }

  /** Some test in `tests` fails. */
  predicate AnyFails(tests: seq<TestCase>, fails: nat -> bool)
  {
    exists i :: 0 <= i < |tests| && fails(tests[i].fn)
  }

  /** One more test fails the run exactly when it or an earlier one fails. */
  lemma AnyFailsSnoc(tests: seq<TestCase>, test: TestCase, fails: nat -> bool)
    ensures AnyFails(tests + [test], fails) <==> AnyFails(tests, fails) || fails(test.fn)
  {
    var more := tests + [test];
    if fails(test.fn) {
      assert more[|tests|] == test;
    }
    if AnyFails(tests, fails) {
      var i :| 0 <= i < |tests| && fails(tests[i].fn);
      assert more[i] == tests[i];
    }
  }

  // ---------------------------------------------------------------------
  // Registration
  // ---------------------------------------------------------------------

  /** The first group at or after `from` whose name is `name`. */
  function FindGroupFrom(reg: Registry, name: string, from: nat): (r: Option<nat>)
    requires from <= |reg|
    ensures r.Some? ==> from <= r.value < |reg| && reg[r.value].name == name
    ensures r.Some? ==> forall k :: from <= k < r.value ==> reg[k].name != name
    ensures r.None? ==> forall k :: from <= k < |reg| ==> reg[k].name != name
    decreases |reg| - from
  {
    if from == |reg| then None
    else if reg[from].name == name then Some(from)
    else FindGroupFrom(reg, name, from + 1)
  }

  /** The group the registration loop settles on: the first one named `name`, if any. */
  function FindGroup(reg: Registry, name: string): (r: Option<nat>)
    ensures r.Some? ==> r.value < |reg| && reg[r.value].name == name
    ensures r.Some? ==> forall k :: 0 <= k < r.value ==> reg[k].name != name
    ensures r.None? ==> forall k :: 0 <= k < |reg| ==> reg[k].name != name
  {
    FindGroupFrom(reg, name, 0)
  }

  /** The first group named `name` is the one the search returns. */
  lemma FindGroupIs(reg: Registry, name: string, g: nat)
    requires g < |reg| && reg[g].name == name
    requires forall k :: 0 <= k < g ==> reg[k].name != name
    ensures FindGroup(reg, name) == Some(g)
  {
  }

  /** The cases registered under `name`, in order; none when no group has that name. */
  function CasesOf(reg: Registry, name: string): seq<TestCase>
  {
    match FindGroup(reg, name)
    case Some(g) => reg[g].cases
    case None => []
  }

  /**
   * Registers `test` under `group`: appended to the existing group of that
   * name, or to a new group appended at the end when there is none.
   */
  function AddTest(reg: Registry, group: string, test: TestCase): (r: Registry)
    ensures FindGroup(reg, group).Some? ==> |r| == |reg|
    ensures FindGroup(reg, group).None? ==> |r| == |reg| + 1 && r[|reg|] == Group(group, [test])
    ensures forall k :: 0 <= k < |reg| ==> r[k].name == reg[k].name
  {
    match FindGroup(reg, group)
    case Some(g) => reg[g := Group(group, reg[g].cases + [test])]
    case None => reg + [Group(group, [test])]
  }

  /** Registration adds no group when the name is known, and exactly one otherwise. */
  lemma AddTestGroups(reg: Registry, group: string, test: TestCase)
    ensures var r := AddTest(reg, group, test);
            && |reg| <= |r| <= |reg| + 1
            && (|r| == |reg| + 1 <==> forall k :: 0 <= k < |reg| ==> reg[k].name != group)
  {
  }

  /** Registration keeps group names unique. */
  lemma AddTestUnique(reg: Registry, group: string, test: TestCase)
    requires UniqueNames(reg)
    ensures UniqueNames(AddTest(reg, group, test))
  {
  }

  /**
   * Registration appends `test` to the cases under `group` and leaves the
   * cases under every other name as they were.
   */
  lemma AddTestCases(reg: Registry, group: string, test: TestCase, name: string)
    ensures CasesOf(AddTest(reg, group, test), name)
            == if name == group then CasesOf(reg, name) + [test] else CasesOf(reg, name)
  {
    var r := AddTest(reg, group, test);
    match FindGroup(reg, name)
    case Some(g) =>
      FindGroupIs(r, name, g);
    case None =>
      if name == group {
        FindGroupIs(r, name, |reg|);
      } else {
        assert FindGroup(r, name).None?;
      }
  }

  /** Concatenating registries concatenates their runs. */
  lemma {:induction false} FlattenAppend(a: Registry, b: Registry)
    ensures Flatten(a + b) == Flatten(a) + Flatten(b)
    decreases |a|
  {
    if a == [] {
      assert a + b == b;
    } else {
      assert (a + b)[1..] == a[1..] + b;
      FlattenAppend(a[1..], b);
    }
  }

  /** The run of a registry splits around any one group. */
  lemma FlattenAround(reg: Registry, g: nat)
    requires g < |reg|
    ensures Flatten(reg) == Flatten(reg[..g]) + (reg[g].cases + Flatten(reg[g + 1..]))
  {
    var rest := reg[g..];
    assert reg == reg[..g] + rest;
    FlattenAppend(reg[..g], rest);
    assert rest[0] == reg[g] && rest[1..] == reg[g + 1..];
  }

  /** Registration adds exactly the one case to the run and removes none. */
  lemma AddTestFlatten(reg: Registry, group: string, test: TestCase)
    ensures multiset(Flatten(AddTest(reg, group, test))) == multiset(Flatten(reg)) + multiset{test}
  {
    var r := AddTest(reg, group, test);
    match FindGroup(reg, group)
    case Some(g) =>
      FlattenAround(reg, g);
      FlattenAround(r, g);
      assert r[..g] == reg[..g] && r[g + 1..] == reg[g + 1..];
      assert r[g].cases == reg[g].cases + [test];
    case None =>
      FlattenAppend(reg, [Group(group, [test])]);
  }

  /** Each registration adds exactly one case to the suite. */
  lemma AddTestCount(reg: Registry, group: string, test: TestCase)
    ensures |Flatten(AddTest(reg, group, test))| == |Flatten(reg)| + 1
  {
    AddTestFlatten(reg, group, test);
    assert |multiset(Flatten(AddTest(reg, group, test)))| == |multiset(Flatten(reg))| + 1;
  }

  /** The registry a suite builds by making its declarations in order, starting from none. */
  function Declare(decls: seq<Declaration>): Registry
  {
    if decls == [] then []
    else
      var last := decls[|decls| - 1];
      AddTest(Declare(decls[..|decls| - 1]), last.group, last.test)
  }

  /** The tests declared under `name`, in declaration order. */
  function DeclaredIn(decls: seq<Declaration>, name: string): seq<TestCase>
  {
    if decls == [] then []
    else
      var last := decls[|decls| - 1];
      DeclaredIn(decls[..|decls| - 1], name) + (if last.group == name then [last.test] else [])
  }

  /** Every declared test, in declaration order. */
  function DeclaredTests(decls: seq<Declaration>): (r: seq<TestCase>)
    ensures |r| == |decls|
  {
    if decls == [] then [] else DeclaredTests(decls[..|decls| - 1]) + [decls[|decls| - 1].test]
  }

  /** A declared registry never holds two groups of one name. */
  lemma {:induction false} DeclareUnique(decls: seq<Declaration>)
    ensures UniqueNames(Declare(decls))
  {
    if decls != [] {
      var last := decls[|decls| - 1];
      DeclareUnique(decls[..|decls| - 1]);
      AddTestUnique(Declare(decls[..|decls| - 1]), last.group, last.test);
    }
  }

  /** Each group holds exactly the tests declared under its name, in declaration order. */
  lemma {:induction false} DeclareKeepsOrder(decls: seq<Declaration>, name: string)
    ensures CasesOf(Declare(decls), name) == DeclaredIn(decls, name)
  {
    if decls == [] {
      assert FindGroup([], name).None?;
    } else {
      var last := decls[|decls| - 1];
      DeclareKeepsOrder(decls[..|decls| - 1], name);
      AddTestCases(Declare(decls[..|decls| - 1]), last.group, last.test, name);
    }
  }

  /** The run of a declared registry holds every declared test exactly as often as it was declared. */
  lemma {:induction false} DeclareRunsAll(decls: seq<Declaration>)
    ensures multiset(Flatten(Declare(decls))) == multiset(DeclaredTests(decls))
  {
    if decls != [] {
      var last := decls[|decls| - 1];
      DeclareRunsAll(decls[..|decls| - 1]);
      AddTestFlatten(Declare(decls[..|decls| - 1]), last.group, last.test);
    }
  }

  // ---------------------------------------------------------------------
  // Running and tearing down
  // ---------------------------------------------------------------------

  /** The first `n` groups' run followed by group `n`'s cases is the first `n + 1` groups' run. */
  lemma FlattenPrefix(reg: Registry, n: nat)
    requires n < |reg|
    ensures Flatten(reg[..n + 1]) == Flatten(reg[..n]) + reg[n].cases
  {
    assert reg[..n + 1] == reg[..n] + [reg[n]];
    FlattenAppend(reg[..n], [reg[n]]);
  }

  /**
   * Runs every case of every group in order, recording whether any failed;
   * the failure flag starts out clear.
   */
  method Run(reg: Registry, fails: nat -> bool) returns (visited: seq<TestCase>, failed: bool)
    ensures visited == Flatten(reg)
    ensures failed <==> AnyFails(visited, fails)
  {
    visited := [];
    failed := false;
    var g := 0;
    while g < |reg|
      invariant 0 <= g <= |reg|
      invariant visited == Flatten(reg[..g])
      invariant failed <==> AnyFails(visited, fails)
    {
      var cases := reg[g].cases;
      var c := 0;
      while c < |cases|
        invariant 0 <= c <= |cases|
        invariant visited == Flatten(reg[..g]) + cases[..c]
        invariant failed <==> AnyFails(visited, fails)
      {
        var test := cases[c];
        if fails(test.fn) {
          failed := true;
        }
        AnyFailsSnoc(visited, test, fails);
        visited := visited + [test];
        assert cases[..c + 1] == cases[..c] + [test];
        c := c + 1;
      }
      assert cases[..c] == cases;
      FlattenPrefix(reg, g);
      g := g + 1;
    }
    assert reg[..g] == reg;
  }

  /** Releasing the registry leaves no groups behind. */
  function Free(reg: Registry): (r: Registry)
    ensures Flatten(r) == []
    ensures forall name :: FindGroup(r, name).None?
  {
    []
  }

  /**
   * The whole suite: a failed initialisation returns -1 before anything is
   * declared or run; otherwise the declarations are made, every test runs,
   * the registry is freed, and the result is -1 when a test failed and 0
   * when none did.
   */
  method RunAll(initStatus: int, decls: seq<Declaration>, fails: nat -> bool)
    returns (exitCode: int, ran: seq<TestCase>)
    ensures initStatus < 0 ==> exitCode == -1 && ran == []
    ensures initStatus >= 0 ==> ran == Flatten(Declare(decls))
    ensures initStatus >= 0 ==> multiset(ran) == multiset(DeclaredTests(decls))
    ensures initStatus >= 0 ==> (exitCode == -1 <==> AnyFails(ran, fails))
    ensures initStatus >= 0 ==> (exitCode == 0 <==> !AnyFails(ran, fails))
  {
    if initStatus < 0 {
      return -1, [];
    }
    var reg := Declare(decls);
    var failed;
    ran, failed := Run(reg, fails);
    reg := Free(reg);
    DeclareRunsAll(decls);
    exitCode := if failed then -1 else 0;
  }

  /** A suite whose every declared test passes exits with 0. */
  lemma PassingSuite(decls: seq<Declaration>, fails: nat -> bool)
    requires forall i :: 0 <= i < |decls| ==> !fails(decls[i].test.fn)
    ensures !AnyFails(Flatten(Declare(decls)), fails)
  {
    DeclareRunsAll(decls);
    DeclaredTestsAt(decls);
  }

  /** The declared tests are the declarations' tests, position by position. */
  lemma {:induction false} DeclaredTestsAt(decls: seq<Declaration>)
    ensures forall i :: 0 <= i < |decls| ==> DeclaredTests(decls)[i] == decls[i].test
  {
    if decls != [] {
      DeclaredTestsAt(decls[..|decls| - 1]);
    }
  }

  // ---------------------------------------------------------------------
  // Error callback
  // ---------------------------------------------------------------------

  /** The severity levels an error report carries. */
  datatype ErrorLevel = LevelNone | LevelDebug | LevelInfo | LevelWarning | LevelError | LevelPanic

  /** What the error callback does: return a code, or end the process with one. */
  datatype HandlerOutcome = Returned(code: int) | ProcessExit(code: int)

  /** The error callback installed while tests run. */
  function ErrorHandler(level: ErrorLevel): (r: HandlerOutcome)
    ensures r.Returned? <==> level != LevelPanic
    ensures r.Returned? ==> r.code == 0
    ensures r.ProcessExit? ==> r.code == -2
  {
    if level == LevelPanic then ProcessExit(-2) else Returned(0)
  }
}
