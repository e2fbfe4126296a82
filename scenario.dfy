/**
 * The repository's two tests, on the model: the four compilation units of
 * `reportNonUsedPublicMethods` as trees, the rows the recipe publishes for
 * them with `fullyQualifiedClassName = "com.acme"` and `keepAll = true`, and
 * `reportDontCrashOnEmptyModule`, a run over no source file at all.
 */
module Scenario {
  import opened Wrappers
  import opened Strings
  import opened JavaTree
  import opened InvocationCountReport
  import opened Reduction
  import opened CountNoPublicInvocationMethod

  const PrintService := FullyQualified("com.acme.PrintService")
  const MyService := FullyQualified("com.acme.MyService")
  const MyOtherService := FullyQualified("com.acme.MyOtherService")
  const MyOtherServiceTest := FullyQualified("com.acme.MyOtherServiceTest")

  const PrintServiceInterface := ClassDecl(Interface, "PrintService")
  const MyServiceClass := ClassDecl(Class, "MyService")
  const MyOtherServiceClass := ClassDecl(Class, "MyOtherService")
  const MyOtherServiceTestClass := ClassDecl(Class, "MyOtherServiceTest")

  /** `void count();` in the interface: interface methods are implicitly
      public and abstract. */
  const AbstractCount := MethodDeclaration(Some(MethodType(PrintService, "count", [], {Public, Abstract})), [])

  /** `System.out.println("Hello World")`, a method of `java.io.PrintStream`. */
  const Println := MethodInvocation(Some(MethodType(FullyQualified("java.io.PrintStream"), "println", ["java.lang.String"], {Public})), [])

  const CountType := MethodType(MyService, "count", [], {Public})
  const PrintType := MethodType(MyService, "print", [], {Public})
  const JobType := MethodType(MyOtherService, "doTheJob", [], {Public})

  const CountDeclaration := MethodDeclaration(Some(CountType), [])
  const PrintDeclaration := MethodDeclaration(Some(PrintType), [Println])

  /** The package-private constructor `MyOtherService(MyService serv)`. */
  const Constructor := MethodDeclaration(Some(MethodType(MyOtherService, "<constructor>", ["com.acme.MyService"], {})), [])

  /** `serv.count()` on a `MyService`. */
  const CountCall := MethodInvocation(Some(CountType), [])
  const JobDeclaration := MethodDeclaration(Some(JobType), [CountCall])

  const TestMethod := MethodDeclaration(Some(MethodType(MyOtherServiceTest, "testMyService", [], {Public})), [])

  const PrintServiceUnit := Other([ClassDeclaration(PrintServiceInterface, [AbstractCount])])
  const MyServiceUnit := Other([ClassDeclaration(MyServiceClass, [CountDeclaration, PrintDeclaration])])
  const MyOtherServiceUnit := Other([ClassDeclaration(MyOtherServiceClass, [Constructor, JobDeclaration])])
  const MyOtherServiceTestUnit := Other([ClassDeclaration(MyOtherServiceTestClass, [TestMethod])])

  const Units := [PrintServiceUnit, MyServiceUnit, MyOtherServiceUnit, MyOtherServiceTestUnit]

  const CountRow := Entry("com.acme.MyService.count", 0)
  const PrintRow := Entry("com.acme.MyService.print", 0)
  const JobRow := Entry("com.acme.MyOtherService.doTheJob", 0)
  const CallRow := Entry("com.acme.MyService.count", 1)

  /** The table the test expects: `count` is called once, `print` and
      `doTheJob` never; the interface and the test class have no row. */
  const Expected := map[
    "com.acme.MyService.count" := 1,
    "com.acme.MyService.print" := 0,
    "com.acme.MyOtherService.doTheJob" := 0]

  /** The rows of a list of one or two sibling nodes. */
  lemma OfOne(t: Tree, enclosing: Option<ClassDecl>)
    ensures ContributionsOfAll("com.acme", [t], enclosing) == Contributions("com.acme", t, enclosing)
  {
    assert [t][..0] == [];
  }

  lemma OfTwo(a: Tree, b: Tree, enclosing: Option<ClassDecl>)
    ensures ContributionsOfAll("com.acme", [a, b], enclosing)
            == Contributions("com.acme", a, enclosing) + Contributions("com.acme", b, enclosing)
  {
    assert [a, b][..1] == [a];
    OfOne(a, enclosing);
  }

  /** A compilation unit holding one class declaration. */
  lemma InUnit(cd: Tree, rows: seq<Entry>)
    requires Contributions("com.acme", cd, None) == rows
    ensures Contributions("com.acme", Other([cd]), None) == rows
  {
    OfOne(cd, None);
  }

  /** A class declaration: its members, with the class as their enclosing
      class. */
  lemma InClass(decl: ClassDecl, members: seq<Tree>, rows: seq<Entry>)
    requires ContributionsOfAll("com.acme", members, Some(decl)) == rows
    ensures Contributions("com.acme", ClassDeclaration(decl, members), None) == rows
  {
  }

  /** Two sibling members, in order. */
  lemma Siblings(a: Tree, b: Tree, enclosing: Option<ClassDecl>, ra: seq<Entry>, rb: seq<Entry>)
    requires Contributions("com.acme", a, enclosing) == ra && Contributions("com.acme", b, enclosing) == rb
    ensures ContributionsOfAll("com.acme", [a, b], enclosing) == ra + rb
  {
    OfTwo(a, b, enclosing);
  }

  /** Which classes are tracked: not the interface, not the test class. */
  lemma ClassScope()
    ensures !IsTargetClass(Some(PrintServiceInterface))
    ensures IsTargetClass(Some(MyServiceClass)) && IsTargetClass(Some(MyOtherServiceClass))
    ensures !IsTargetClass(Some(MyOtherServiceTestClass))
  {
    assert "MyService"[5..] != "Test";
    assert "MyOtherService"[10..] != "Test";
    assert "MyOtherServiceTest"[14..] == "Test";
  }

  /** Which methods are tracked under "com.acme": the public ones declared
      in the package, not `println` and not the constructor. */
  lemma MethodScope()
    ensures IsTarget("com.acme", Some(CountType)) && IsTarget("com.acme", Some(PrintType))
    ensures IsTarget("com.acme", Some(JobType))
    ensures !IsTarget("com.acme", Println.methodType)
    ensures !IsTarget("com.acme", Constructor.methodType)
  {
    assert "com.acme.MyService"[..8] == "com.acme";
    assert "com.acme.MyOtherService"[..8] == "com.acme";
    assert "java.io.PrintStream"[0] != "com.acme"[0];
  }

  /** The identifiers `getFQDN` builds for the tracked methods. */
  lemma Identifiers()
    ensures GetFqdn(CountType) == "com.acme.MyService.count"
    ensures GetFqdn(PrintType) == "com.acme.MyService.print"
    ensures GetFqdn(JobType) == "com.acme.MyOtherService.doTheJob"
  {
  }

  /** The interface: `isTargetClass` rejects interfaces, so `count()` has no
      row although it is public. */
  lemma PrintServiceContributions()
    ensures Contributions("com.acme", PrintServiceUnit, None) == []
  {
    AbstractCountRows();
    OfOne(AbstractCount, Some(PrintServiceInterface));
    InClass(PrintServiceInterface, [AbstractCount], []);
    InUnit(ClassDeclaration(PrintServiceInterface, [AbstractCount]), []);
  }

  lemma AbstractCountRows()
    ensures Contributions("com.acme", AbstractCount, Some(PrintServiceInterface)) == []
  {
    ClassScope();
  }

  lemma CountDeclarationRows()
    ensures Contributions("com.acme", CountDeclaration, Some(MyServiceClass)) == [CountRow]
  {
    ClassScope();
    MethodScope();
    Identifiers();
  }

  /** `print()` is declared with count 0; the call of `println` in it is
      outside `com.acme`. */
  lemma PrintDeclarationRows()
    ensures Contributions("com.acme", PrintDeclaration, Some(MyServiceClass)) == [PrintRow]
  {
    ClassScope();
    MethodScope();
    Identifiers();
    OfOne(Println, Some(MyServiceClass));
  }

  /** `MyService`: both public methods are declared with count 0. */
  lemma MyServiceContributions()
    ensures Contributions("com.acme", MyServiceUnit, None) == [CountRow, PrintRow]
  {
    var rows := [CountRow, PrintRow];
    CountDeclarationRows();
    PrintDeclarationRows();
    Siblings(CountDeclaration, PrintDeclaration, Some(MyServiceClass), [CountRow], [PrintRow]);
    assert [CountRow] + [PrintRow] == rows;
    InClass(MyServiceClass, [CountDeclaration, PrintDeclaration], rows);
    InUnit(ClassDeclaration(MyServiceClass, [CountDeclaration, PrintDeclaration]), rows);
  }

  lemma CountCallRows(enclosing: Option<ClassDecl>)
    ensures Contributions("com.acme", CountCall, enclosing) == [CallRow]
  {
    ClassScope();
    MethodScope();
    Identifiers();
  }

  /** `doTheJob` is declared with count 0 and calls `MyService.count` once. */
  lemma JobDeclarationRows()
    ensures Contributions("com.acme", JobDeclaration, Some(MyOtherServiceClass)) == [JobRow, CallRow]
  {
    ClassScope();
    MethodScope();
    Identifiers();
    CountCallRows(Some(MyOtherServiceClass));
    OfOne(CountCall, Some(MyOtherServiceClass));
  }

  /** The constructor is not public: no row. */
  lemma ConstructorRows()
    ensures Contributions("com.acme", Constructor, Some(MyOtherServiceClass)) == []
  {
    MethodScope();
  }

  /** `MyOtherService`: the constructor is not public, so only `doTheJob`
      and the call inside it add rows. */
  lemma MyOtherServiceContributions()
    ensures Contributions("com.acme", MyOtherServiceUnit, None) == [JobRow, CallRow]
  {
    var rows := [JobRow, CallRow];
    ConstructorRows();
    JobDeclarationRows();
    Siblings(Constructor, JobDeclaration, Some(MyOtherServiceClass), [], rows);
    assert [] + rows == rows;
    InClass(MyOtherServiceClass, [Constructor, JobDeclaration], rows);
    InUnit(ClassDeclaration(MyOtherServiceClass, [Constructor, JobDeclaration]), rows);
  }

  lemma TestMethodRows()
    ensures Contributions("com.acme", TestMethod, Some(MyOtherServiceTestClass)) == []
  {
    ClassScope();
  }

  /** The test class: its name ends in "Test", so its public method has no
      row. */
  lemma MyOtherServiceTestContributions()
    ensures Contributions("com.acme", MyOtherServiceTestUnit, None) == []
  {
    TestMethodRows();
    OfOne(TestMethod, Some(MyOtherServiceTestClass));
    InClass(MyOtherServiceTestClass, [TestMethod], []);
    InUnit(ClassDeclaration(MyOtherServiceTestClass, [TestMethod]), []);
  }

  /** The rows of the whole run, in visiting order. */
  lemma RunRows()
    ensures RunContributions("com.acme", Units) == [CountRow, PrintRow, JobRow, CallRow]
  {
    PrintServiceContributions();
    MyServiceContributions();
    MyOtherServiceContributions();
    MyOtherServiceTestContributions();
    var two, three := [PrintServiceUnit, MyServiceUnit], [PrintServiceUnit, MyServiceUnit, MyOtherServiceUnit];
    OfTwo(PrintServiceUnit, MyServiceUnit, None);
    assert ContributionsOfAll("com.acme", two, None) == [CountRow, PrintRow];
    assert three[..2] == two;
    assert ContributionsOfAll("com.acme", three, None) == [CountRow, PrintRow, JobRow, CallRow];
    assert Units[..3] == three;
  }

  /** One more entry folded into the merge. */
  lemma MergeSnoc(es: seq<Entry>, e: Entry)
    ensures Merge(es + [e]) == Merge(es)[e.methodName := if e.methodName in Merge(es) then Merge(es)[e.methodName] + e.count else e.count]
  {
    assert (es + [e])[..|es|] == es;
  }

  /** `reportNonUsedPublicMethods`: the published rows are exactly those of
      `Expected`, each once. */
  lemma ReportNonUsedPublicMethods()
    ensures Surviving(true, Merge(RunContributions("com.acme", Units))) == Expected
  {
    RunRows();
    MergeSnoc([], CountRow);
    assert [] + [CountRow] == [CountRow];
    MergeSnoc([CountRow], PrintRow);
    assert [CountRow] + [PrintRow] == [CountRow, PrintRow];
    MergeSnoc([CountRow, PrintRow], JobRow);
    assert [CountRow, PrintRow] + [JobRow] == [CountRow, PrintRow, JobRow];
    MergeSnoc([CountRow, PrintRow, JobRow], CallRow);
    assert [CountRow, PrintRow, JobRow] + [CallRow] == [CountRow, PrintRow, JobRow, CallRow];
  }

  /** The rows of `Expected`, as entries. */
  lemma ExpectedItems()
    ensures Items(Expected) == {Entry("com.acme.MyService.count", 1), PrintRow, JobRow}
  {
    var m0 := map["com.acme.MyService.count" := 1];
    var m1 := m0["com.acme.MyService.print" := 0];
    assert Items(m0) == {Entry("com.acme.MyService.count", 1)} by {
      assert Entry("com.acme.MyService.count", m0["com.acme.MyService.count"]) in Items(m0);
    }
    ItemsAdd(m0, "com.acme.MyService.print", 0);
    ItemsAdd(m1, "com.acme.MyOtherService.doTheJob", 0);
    assert Expected == m1["com.acme.MyOtherService.doTheJob" := 0];
  }

  lemma InTable(es: seq<Entry>, e: Entry)
    requires e in Items(Expected) && Publishes(es, Expected)
    ensures exists i :: 0 <= i < |es| && es[i] == e
  {
    assert e in multiset(es);
    assert e in es;
  }

  /** The test's assertions, on any table that publishes `Expected`: no row
      for the interface method or the test method, and one row each for
      `doTheJob` with 0, `print` with 0 and `count` with 1. */
  lemma ExpectedAssertions(es: seq<Entry>)
    requires Publishes(es, Expected)
    ensures forall i :: 0 <= i < |es| ==>
      && es[i].methodName != "com.acme.PrintService.count"
      && es[i].methodName != "com.acme.MyOtherServiceTest.testMyService"
    ensures exists i :: 0 <= i < |es| && es[i] == Entry("com.acme.MyOtherService.doTheJob", 0)
    ensures exists i :: 0 <= i < |es| && es[i] == Entry("com.acme.MyService.print", 0)
    ensures exists i :: 0 <= i < |es| && es[i] == Entry("com.acme.MyService.count", 1)
    ensures DistinctNames(es)
  {
    PublishesExactly(es, Expected);
    ExpectedItems();
    InTable(es, JobRow);
    InTable(es, PrintRow);
    InTable(es, Entry("com.acme.MyService.count", 1));
  }

  /** `reportNonUsedPublicMethods`, through the recipe's own run. */
  method ReportNonUsedPublicMethodsRun() returns (table: Option<seq<Entry>>)
    ensures table.Some?
    ensures Publishes(table.value, Expected)
    ensures forall i :: 0 <= i < |table.value| ==>
      && table.value[i].methodName != "com.acme.PrintService.count"
      && table.value[i].methodName != "com.acme.MyOtherServiceTest.testMyService"
    ensures exists i :: 0 <= i < |table.value| && table.value[i] == Entry("com.acme.MyOtherService.doTheJob", 0)
    ensures exists i :: 0 <= i < |table.value| && table.value[i] == Entry("com.acme.MyService.print", 0)
    ensures exists i :: 0 <= i < |table.value| && table.value[i] == Entry("com.acme.MyService.count", 1)
    ensures DistinctNames(table.value)
  {
    RunRows();
    ReportNonUsedPublicMethods();
    table := Run(Recipe("com.acme", true), Units);
    ExpectedAssertions(table.value);
  }

  /** `reportDontCrashOnEmptyModule`: with no source file no row is ever
      inserted, so no data table is published. */
  method ReportDontCrashOnEmptyModule() returns (table: Option<seq<Entry>>)
    ensures table.None?
  {
    table := Run(Recipe("com.acme", true), []);
  }
}
