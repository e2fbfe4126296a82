/**
 * `CountNoPublicInvocationMethod`: the recipe. Its visitor registers every
 * tracked method declaration with a count-0 row and every call of a tracked
 * method with a count-1 row; `onComplete` then merges the rows per method
 * identifier, applies the `keepAll` policy and publishes the rows sorted by
 * count.
 */
module CountNoPublicInvocationMethod {
  import opened Wrappers
  import opened Strings
  import opened JavaTree
  import opened InvocationCountReport
  import opened Reduction

  /** The recipe's two options, fixed at construction. */
  datatype Recipe = Recipe(fullyQualifiedClassName: string, keepAll: bool)

  // ---------------------------------------------------------------------------
  // Scope predicates and identifiers

  /** `isTarget`: a resolved, public method whose declaring type's
      fully-qualified name starts with the configured name, character by
      character (no package boundary is required). */
  predicate IsTarget(fullyQualifiedClassName: string, methodType: Option<MethodType>)
  {
    && methodType.Some?
    && methodType.value.HasFlags({Public})
    && StartsWith(methodType.value.declaringType.fullyQualifiedName, fullyQualifiedClassName)
  }

  /** `isTargetClass`: a class declaration that is not an interface and whose
      simple name does not end in "Test". */
  predicate IsTargetClass(classDeclaration: Option<ClassDecl>)
  {
    && classDeclaration.Some?
    && classDeclaration.value.kind != Interface
    && !EndsWith(classDeclaration.value.simpleName, "Test")
  }

  /** `getFQDN`: declaring type, a dot, method name. */
  function GetFqdn(methodType: MethodType): string
  {
    methodType.declaringType.fullyQualifiedName + "." + methodType.name
  }

  /** The scope test is a raw string prefix: "com.acme" takes in
      "com.acme2.Foo" as well as "com.acme.Foo", but not "com.acm.Foo". */
  lemma IsTargetIsRawPrefix(flags: set<Flag>)
    ensures IsTarget("com.acme", Some(MethodType(FullyQualified("com.acme2.Foo"), "run", [], {Public} + flags)))
    ensures IsTarget("com.acme", Some(MethodType(FullyQualified("com.acme.Foo"), "run", [], {Public} + flags)))
    ensures !IsTarget("com.acme", Some(MethodType(FullyQualified("com.acm.Foo"), "run", [], {Public} + flags)))
    ensures !IsTarget("com.acme", Some(MethodType(FullyQualified("com.acme.Foo"), "run", [], flags - {Public})))
    ensures !IsTarget("com.acme", None)
  {
    assert "com.acme2.Foo"[..8] == "com.acme";
    assert "com.acme.Foo"[..8] == "com.acme";
    assert "com.acm.Foo"[7] != "com.acme"[7];
  }

  /** Overloads (same declaring type and name, other parameter types or
      flags) share one identifier, so their counts are merged. */
  lemma OverloadsShareFqdn(m1: MethodType, m2: MethodType)
    requires m1.declaringType == m2.declaringType && m1.name == m2.name
    ensures GetFqdn(m1) == GetFqdn(m2)
  {
  }

  /** The characters after the last dot, or the whole string without one. */
  function AfterLastDot(s: string): string
  {
    if s == [] then []
    else if s[|s| - 1] == '.' then []
    else AfterLastDot(s[..|s| - 1]) + [s[|s| - 1]]
  }

  lemma {:induction false} AfterLastDotOfFqdn(typeName: string, name: string)
    requires '.' !in name
    ensures AfterLastDot(typeName + "." + name) == name
  {
    var s := typeName + "." + name;
    if name != [] {
      var front := name[..|name| - 1];
      assert s[..|s| - 1] == typeName + "." + front;
      assert name[|name| - 1] in name;
      AfterLastDotOfFqdn(typeName, front);
      assert name == front + [name[|name| - 1]];
    }
  }

  /** Apart from overloading the identifier tells methods apart: Java method
      names contain no dot, so the declaring type and the name can be read
      back from it. */
  lemma GetFqdnInjective(m1: MethodType, m2: MethodType)
    requires '.' !in m1.name && '.' !in m2.name
    requires GetFqdn(m1) == GetFqdn(m2)
    ensures m1.declaringType == m2.declaringType && m1.name == m2.name
  {
    var a1, a2 := m1.declaringType.fullyQualifiedName, m2.declaringType.fullyQualifiedName;
    var s := GetFqdn(m1);
    AfterLastDotOfFqdn(a1, m1.name);
    AfterLastDotOfFqdn(a2, m2.name);
    assert |a1| == |s| - |m1.name| - 1 == |a2|;
    assert a1 == s[..|a1|] == a2;
  }

  // ---------------------------------------------------------------------------
  // What the visitor contributes

  /** The rows the visitor inserts for one node and everything below it, in
      visiting order; `enclosing` is the nearest class declaration above the
      node (`getCursor().firstEnclosing(J.ClassDeclaration.class)`). */
  function Contributions(fullyQualifiedClassName: string, t: Tree, enclosing: Option<ClassDecl>): seq<Entry>
  {
    match t
    case ClassDeclaration(decl, children) =>
      ContributionsOfAll(fullyQualifiedClassName, children, Some(decl))
    case MethodDeclaration(methodType, children) =>
      (if IsTargetClass(enclosing) && IsTarget(fullyQualifiedClassName, methodType)
       then [Entry(GetFqdn(methodType.value), 0)] else [])
      + ContributionsOfAll(fullyQualifiedClassName, children, enclosing)
    case MethodInvocation(methodType, children) =>
      (if IsTarget(fullyQualifiedClassName, methodType) then [Entry(GetFqdn(methodType.value), 1)] else [])
      + ContributionsOfAll(fullyQualifiedClassName, children, enclosing)
    case Other(children) =>
      ContributionsOfAll(fullyQualifiedClassName, children, enclosing)
  }

  /** The rows inserted for a list of sibling nodes, visited in order. */
  function ContributionsOfAll(fullyQualifiedClassName: string, ts: seq<Tree>, enclosing: Option<ClassDecl>): seq<Entry>
  {
    if ts == [] then []
    else ContributionsOfAll(fullyQualifiedClassName, ts[..|ts| - 1], enclosing)
         + Contributions(fullyQualifiedClassName, ts[|ts| - 1], enclosing)
  }

  /** The rows inserted during one run over a set of compilation units. */
  function RunContributions(fullyQualifiedClassName: string, units: seq<Tree>): seq<Entry>
  {
    ContributionsOfAll(fullyQualifiedClassName, units, None)
  }

  /** Independent of the rows: the identifiers of the tracked method
      declarations, those in a tracked class. */
  function Declared(fullyQualifiedClassName: string, t: Tree, enclosing: Option<ClassDecl>): set<string>
  {
    match t
    case ClassDeclaration(decl, children) =>
      DeclaredOfAll(fullyQualifiedClassName, children, Some(decl))
    case MethodDeclaration(methodType, children) =>
      (if IsTargetClass(enclosing) && IsTarget(fullyQualifiedClassName, methodType)
       then {GetFqdn(methodType.value)} else {})
      + DeclaredOfAll(fullyQualifiedClassName, children, enclosing)
    case MethodInvocation(_, children) =>
      DeclaredOfAll(fullyQualifiedClassName, children, enclosing)
    case Other(children) =>
      DeclaredOfAll(fullyQualifiedClassName, children, enclosing)
  }

  function DeclaredOfAll(fullyQualifiedClassName: string, ts: seq<Tree>, enclosing: Option<ClassDecl>): set<string>
  {
    if ts == [] then {}
    else DeclaredOfAll(fullyQualifiedClassName, ts[..|ts| - 1], enclosing)
         + Declared(fullyQualifiedClassName, ts[|ts| - 1], enclosing)
  }

  /** The number of call sites of a tracked method with identifier `name`,
      wherever they occur: no class test applies to calls. */
  function InvocationSites(fullyQualifiedClassName: string, t: Tree, name: string): nat
  {
    match t
    case MethodInvocation(methodType, children) =>
      (if IsTarget(fullyQualifiedClassName, methodType) && GetFqdn(methodType.value) == name then 1 else 0)
      + InvocationSitesOfAll(fullyQualifiedClassName, children, name)
    case _ =>
      InvocationSitesOfAll(fullyQualifiedClassName, t.children, name)
  }

  function InvocationSitesOfAll(fullyQualifiedClassName: string, ts: seq<Tree>, name: string): nat
  {
    if ts == [] then 0
    else InvocationSitesOfAll(fullyQualifiedClassName, ts[..|ts| - 1], name)
         + InvocationSites(fullyQualifiedClassName, ts[|ts| - 1], name)
  }

  /** Every contributed count is 0 (a declaration) or 1 (a call). */
  predicate ZeroOrOne(es: seq<Entry>)
  {
    forall i :: 0 <= i < |es| ==> es[i].count == 0 || es[i].count == 1
  }

  lemma ZeroOrOneAppend(a: seq<Entry>, b: seq<Entry>)
    requires ZeroOrOne(a) && ZeroOrOne(b)
    ensures ZeroOrOne(a + b)
  {
    forall i | 0 <= i < |a + b|
      ensures (a + b)[i].count == 0 || (a + b)[i].count == 1
    {
      if i < |a| { assert (a + b)[i] == a[i]; } else { assert (a + b)[i] == b[i - |a|]; }
    }
  }

  lemma NamesAppend(a: seq<Entry>, b: seq<Entry>)
    ensures Names(a + b) == Names(a) + Names(b)
  {
    assert forall e :: e in a + b <==> e in a || e in b;
  }

  /** What an entry alone contributes to the sums and to the names. */
  lemma Single(e: Entry, name: string)
    ensures SumFor([e], name) == if e.methodName == name then e.count else 0
    ensures Names([e]) == {e.methodName}
  {
    assert [e][..0] == [];
  }

  /** Every count contributed for a subtree is 0 (a declaration) or 1 (a
      call). */
  lemma {:induction false} ContributionsZeroOrOne(fullyQualifiedClassName: string, t: Tree, enclosing: Option<ClassDecl>)
    ensures ZeroOrOne(Contributions(fullyQualifiedClassName, t, enclosing))
  {
    match t
    case ClassDeclaration(decl, children) =>
      ContributionsOfAllZeroOrOne(fullyQualifiedClassName, children, Some(decl));
    case MethodDeclaration(methodType, children) =>
      ContributionsOfAllZeroOrOne(fullyQualifiedClassName, children, enclosing);
      ZeroOrOneAppend(
        if IsTargetClass(enclosing) && IsTarget(fullyQualifiedClassName, methodType)
        then [Entry(GetFqdn(methodType.value), 0)] else [],
        ContributionsOfAll(fullyQualifiedClassName, children, enclosing));
    case MethodInvocation(methodType, children) =>
      ContributionsOfAllZeroOrOne(fullyQualifiedClassName, children, enclosing);
      ZeroOrOneAppend(
        if IsTarget(fullyQualifiedClassName, methodType) then [Entry(GetFqdn(methodType.value), 1)] else [],
        ContributionsOfAll(fullyQualifiedClassName, children, enclosing));
    case Other(children) =>
      ContributionsOfAllZeroOrOne(fullyQualifiedClassName, children, enclosing);
  }

  lemma {:induction false} ContributionsOfAllZeroOrOne(fullyQualifiedClassName: string, ts: seq<Tree>, enclosing: Option<ClassDecl>)
    ensures ZeroOrOne(ContributionsOfAll(fullyQualifiedClassName, ts, enclosing))
  {
    if ts != [] {
      ContributionsOfAllZeroOrOne(fullyQualifiedClassName, ts[..|ts| - 1], enclosing);
      ContributionsZeroOrOne(fullyQualifiedClassName, ts[|ts| - 1], enclosing);
      ZeroOrOneAppend(ContributionsOfAll(fullyQualifiedClassName, ts[..|ts| - 1], enclosing),
        Contributions(fullyQualifiedClassName, ts[|ts| - 1], enclosing));
    }
  }

  /** The counts contributed for a subtree under an identifier add up to its
      number of tracked call sites: declarations count 0, calls 1. */
  lemma {:induction false} ContributionsCount(fullyQualifiedClassName: string, t: Tree, enclosing: Option<ClassDecl>, name: string)
    ensures SumFor(Contributions(fullyQualifiedClassName, t, enclosing), name)
            == InvocationSites(fullyQualifiedClassName, t, name)
  {
    match t
    case ClassDeclaration(decl, children) =>
      ContributionsOfAllCount(fullyQualifiedClassName, children, Some(decl), name);
    case MethodDeclaration(methodType, children) =>
      var own := if IsTargetClass(enclosing) && IsTarget(fullyQualifiedClassName, methodType)
                 then [Entry(GetFqdn(methodType.value), 0)] else [];
      ContributionsOfAllCount(fullyQualifiedClassName, children, enclosing, name);
      SumForAppend(own, ContributionsOfAll(fullyQualifiedClassName, children, enclosing), name);
      if own != [] {
        Single(own[0], name);
      }
    case MethodInvocation(methodType, children) =>
      var own := if IsTarget(fullyQualifiedClassName, methodType) then [Entry(GetFqdn(methodType.value), 1)] else [];
      ContributionsOfAllCount(fullyQualifiedClassName, children, enclosing, name);
      SumForAppend(own, ContributionsOfAll(fullyQualifiedClassName, children, enclosing), name);
      if own != [] {
        Single(own[0], name);
      }
    case Other(children) =>
      ContributionsOfAllCount(fullyQualifiedClassName, children, enclosing, name);
  }

  lemma {:induction false} ContributionsOfAllCount(fullyQualifiedClassName: string, ts: seq<Tree>, enclosing: Option<ClassDecl>, name: string)
    ensures SumFor(ContributionsOfAll(fullyQualifiedClassName, ts, enclosing), name)
            == InvocationSitesOfAll(fullyQualifiedClassName, ts, name)
  {
    if ts != [] {
      ContributionsOfAllCount(fullyQualifiedClassName, ts[..|ts| - 1], enclosing, name);
      ContributionsCount(fullyQualifiedClassName, ts[|ts| - 1], enclosing, name);
      SumForAppend(ContributionsOfAll(fullyQualifiedClassName, ts[..|ts| - 1], enclosing),
        Contributions(fullyQualifiedClassName, ts[|ts| - 1], enclosing), name);
    }
  }

  /** An identifier has rows for a subtree exactly when it is a tracked
      declaration there or has a tracked call site there. */
  lemma {:induction false} ContributionsNames(fullyQualifiedClassName: string, t: Tree, enclosing: Option<ClassDecl>, name: string)
    ensures name in Names(Contributions(fullyQualifiedClassName, t, enclosing))
            <==> name in Declared(fullyQualifiedClassName, t, enclosing)
                 || InvocationSites(fullyQualifiedClassName, t, name) > 0
  {
    match t
    case ClassDeclaration(decl, children) =>
      ContributionsOfAllNames(fullyQualifiedClassName, children, Some(decl), name);
    case MethodDeclaration(methodType, children) =>
      var own := if IsTargetClass(enclosing) && IsTarget(fullyQualifiedClassName, methodType)
                 then [Entry(GetFqdn(methodType.value), 0)] else [];
      ContributionsOfAllNames(fullyQualifiedClassName, children, enclosing, name);
      NamesAppend(own, ContributionsOfAll(fullyQualifiedClassName, children, enclosing));
      if own != [] {
        Single(own[0], name);
      }
    case MethodInvocation(methodType, children) =>
      var own := if IsTarget(fullyQualifiedClassName, methodType) then [Entry(GetFqdn(methodType.value), 1)] else [];
      ContributionsOfAllNames(fullyQualifiedClassName, children, enclosing, name);
      NamesAppend(own, ContributionsOfAll(fullyQualifiedClassName, children, enclosing));
      if own != [] {
        Single(own[0], name);
      }
    case Other(children) =>
      ContributionsOfAllNames(fullyQualifiedClassName, children, enclosing, name);
  }

  lemma {:induction false} ContributionsOfAllNames(fullyQualifiedClassName: string, ts: seq<Tree>, enclosing: Option<ClassDecl>, name: string)
    ensures name in Names(ContributionsOfAll(fullyQualifiedClassName, ts, enclosing))
            <==> name in DeclaredOfAll(fullyQualifiedClassName, ts, enclosing)
                 || InvocationSitesOfAll(fullyQualifiedClassName, ts, name) > 0
  {
    if ts != [] {
      ContributionsOfAllNames(fullyQualifiedClassName, ts[..|ts| - 1], enclosing, name);
      ContributionsNames(fullyQualifiedClassName, ts[|ts| - 1], enclosing, name);
      NamesAppend(ContributionsOfAll(fullyQualifiedClassName, ts[..|ts| - 1], enclosing),
        Contributions(fullyQualifiedClassName, ts[|ts| - 1], enclosing));
    }
  }

  // ---------------------------------------------------------------------------
  // The visitor (`NoInvocationVisitor`)

  /** `countIfNeeded`: a tracked method gets a new row for its identifier,
      incremented by `count`, appended to the table; anything else adds
      nothing. */
  method CountIfNeeded(recipe: Recipe, ctx: ExecutionContext, methodType: Option<MethodType>, count: int)
    requires ctx.Accumulating()
    modifies ctx
    ensures ctx.Accumulating()
    ensures forall r :: r in ctx.RowList() ==> r in old(ctx.RowList()) || fresh(r)
    ensures Entries(ctx.RowList()) == old(Entries(ctx.RowList()))
      + (if IsTarget(recipe.fullyQualifiedClassName, methodType) then [Entry(GetFqdn(methodType.value), count)] else [])
  {
    if IsTarget(recipe.fullyQualifiedClassName, methodType) {
      var row := new Row(GetFqdn(methodType.value));
      row := row.IncrementBy(count);
      EntriesAppend(ctx.RowList(), [row]);
      ctx.InsertRow(row);
    }
  }

  /** The visitor's dispatch on the kind of node, then the descent into its
      children with the enclosing class updated at a class declaration. */
  method Visit(recipe: Recipe, ctx: ExecutionContext, t: Tree, enclosing: Option<ClassDecl>)
    requires ctx.Accumulating()
    modifies ctx
    decreases t, 1
    ensures ctx.Accumulating()
    ensures forall r :: r in ctx.RowList() ==> r in old(ctx.RowList()) || fresh(r)
    ensures Entries(ctx.RowList()) == old(Entries(ctx.RowList()))
      + Contributions(recipe.fullyQualifiedClassName, t, enclosing)
  {
    ghost var fq, before := recipe.fullyQualifiedClassName, Entries(ctx.RowList());
    ghost var contributed := Contributions(fq, t, enclosing);
    match t
    case ClassDeclaration(decl, children) =>
      VisitChildren(recipe, ctx, children, Some(decl));
      Extended(before, Entries(ctx.RowList()), ContributionsOfAll(fq, children, Some(decl)), contributed);
    case MethodDeclaration(methodType, children) =>
      VisitMethodDeclaration(recipe, ctx, t, enclosing);
      Extended(before, Entries(ctx.RowList()),
        (if IsTargetClass(enclosing) && IsTarget(fq, methodType) then [Entry(GetFqdn(methodType.value), 0)] else [])
        + ContributionsOfAll(fq, children, enclosing), contributed);
    case MethodInvocation(methodType, children) =>
      VisitMethodInvocation(recipe, ctx, t, enclosing);
      Extended(before, Entries(ctx.RowList()),
        (if IsTarget(fq, methodType) then [Entry(GetFqdn(methodType.value), 1)] else [])
        + ContributionsOfAll(fq, children, enclosing), contributed);
    case Other(children) =>
      VisitChildren(recipe, ctx, children, enclosing);
      Extended(before, Entries(ctx.RowList()), ContributionsOfAll(fq, children, enclosing), contributed);
  }

  /** `visitMethodDeclaration`: one row with count 0 exactly when the
      enclosing class is tracked and the method is tracked, then the body. */
  method VisitMethodDeclaration(recipe: Recipe, ctx: ExecutionContext, md: Tree, enclosing: Option<ClassDecl>)
    requires md.MethodDeclaration?
    requires ctx.Accumulating()
    modifies ctx
    decreases md, 0
    ensures ctx.Accumulating()
    ensures forall r :: r in ctx.RowList() ==> r in old(ctx.RowList()) || fresh(r)
    ensures Entries(ctx.RowList()) == old(Entries(ctx.RowList()))
      + (if IsTargetClass(enclosing) && IsTarget(recipe.fullyQualifiedClassName, md.methodType)
         then [Entry(GetFqdn(md.methodType.value), 0)] else [])
      + ContributionsOfAll(recipe.fullyQualifiedClassName, md.children, enclosing)
  {
    ghost var fq, before := recipe.fullyQualifiedClassName, Entries(ctx.RowList());
    if IsTargetClass(enclosing) {
      CountIfNeeded(recipe, ctx, md.methodType, 0);
    }
    ghost var middle := Entries(ctx.RowList());
    VisitChildren(recipe, ctx, md.children, enclosing);
    Chain(before, middle, Entries(ctx.RowList()),
      if IsTargetClass(enclosing) && IsTarget(fq, md.methodType) then [Entry(GetFqdn(md.methodType.value), 0)] else [],
      ContributionsOfAll(fq, md.children, enclosing));
  }

  /** `visitMethodInvocation`: one row with count 1 exactly when the called
      method is tracked, whatever class the call sits in, then the
      arguments. */
  method VisitMethodInvocation(recipe: Recipe, ctx: ExecutionContext, mi: Tree, enclosing: Option<ClassDecl>)
    requires mi.MethodInvocation?
    requires ctx.Accumulating()
    modifies ctx
    decreases mi, 0
    ensures ctx.Accumulating()
    ensures forall r :: r in ctx.RowList() ==> r in old(ctx.RowList()) || fresh(r)
    ensures Entries(ctx.RowList()) == old(Entries(ctx.RowList()))
      + (if IsTarget(recipe.fullyQualifiedClassName, mi.methodType) then [Entry(GetFqdn(mi.methodType.value), 1)] else [])
      + ContributionsOfAll(recipe.fullyQualifiedClassName, mi.children, enclosing)
  {
    ghost var fq, before := recipe.fullyQualifiedClassName, Entries(ctx.RowList());
    CountIfNeeded(recipe, ctx, mi.methodType, 1);
    ghost var middle := Entries(ctx.RowList());
    VisitChildren(recipe, ctx, mi.children, enclosing);
    Chain(before, middle, Entries(ctx.RowList()),
      if IsTarget(fq, mi.methodType) then [Entry(GetFqdn(mi.methodType.value), 1)] else [],
      ContributionsOfAll(fq, mi.children, enclosing));
  }

  /** Two appends in a row are one append of both parts. */
  lemma Chain(before: seq<Entry>, middle: seq<Entry>, after: seq<Entry>, a: seq<Entry>, b: seq<Entry>)
    requires middle == before + a && after == middle + b
    ensures after == before + (a + b)
  {
  }

  /** An append of equal parts. */
  lemma Extended(before: seq<Entry>, after: seq<Entry>, a: seq<Entry>, b: seq<Entry>)
    requires after == before + a && a == b
    ensures after == before + b
  {
  }

  /** The default descent: every child in order (the earlier children, then
      the last one). */
  method VisitChildren(recipe: Recipe, ctx: ExecutionContext, ts: seq<Tree>, enclosing: Option<ClassDecl>)
    requires ctx.Accumulating()
    modifies ctx
    decreases ts
    ensures ctx.Accumulating()
    ensures forall r :: r in ctx.RowList() ==> r in old(ctx.RowList()) || fresh(r)
    ensures Entries(ctx.RowList()) == old(Entries(ctx.RowList()))
      + ContributionsOfAll(recipe.fullyQualifiedClassName, ts, enclosing)
  {
    if ts != [] {
      var last := |ts| - 1;
      ghost var fq, before := recipe.fullyQualifiedClassName, Entries(ctx.RowList());
      VisitChildren(recipe, ctx, ts[..last], enclosing);
      ghost var middle := Entries(ctx.RowList());
      Visit(recipe, ctx, ts[last], enclosing);
      Chain(before, middle, Entries(ctx.RowList()),
        ContributionsOfAll(fq, ts[..last], enclosing), Contributions(fq, ts[last], enclosing));
    }
  }

  // ---------------------------------------------------------------------------
  // The reduction (`onComplete`)

  /** Where the insertion sort by name puts `row`: after every row whose
      name is not above its own. */
  method NamePosition(sorted: seq<Row>, row: Row) returns (k: int)
    ensures 0 <= k <= |sorted|
    ensures forall j :: 0 <= j < k ==> NameLe(sorted[j].methodName, row.methodName)
    ensures k < |sorted| ==> !NameLe(sorted[k].methodName, row.methodName)
  {
    k := 0;
    while k < |sorted| && NameLe(sorted[k].methodName, row.methodName)
      invariant 0 <= k <= |sorted|
      invariant forall j :: 0 <= j < k ==> NameLe(sorted[j].methodName, row.methodName)
    {
      k := k + 1;
    }
  }

  /** `rows.sort(Comparator.comparing(Row::methodName))`, as an insertion sort
      that puts each row after every row whose name is not above its own (a
      stable sort, like `List.sort`). */
  method SortByName(rows: seq<Row>) returns (sorted: seq<Row>)
    ensures multiset(sorted) == multiset(rows)
    ensures multiset(Entries(sorted)) == multiset(Entries(rows))
    ensures SortedByName(Entries(sorted))
    ensures Distinct(rows) ==> Distinct(sorted)
  {
    sorted := [];
    var i := 0;
    while i < |rows|
      invariant 0 <= i <= |rows|
      invariant multiset(sorted) == multiset(rows[..i])
      invariant SortedByName(Entries(sorted))
    {
      var row := rows[i];
      var k := NamePosition(sorted, row);
      InsertNext(rows, i, sorted, k);
      InsertByName(sorted, k, row);
      sorted := sorted[..k] + [row] + sorted[k..];
      i := i + 1;
    }
    assert rows[..i] == rows;
    EntriesPermutation(rows, sorted);
    if Distinct(rows) {
      DistinctPermutation(rows, sorted);
    }
  }

  /** The scan of `SortByName` stops at a place where the row keeps the list
      sorted by name. */
  lemma InsertByName(sorted: seq<Row>, k: int, row: Row)
    requires 0 <= k <= |sorted| && SortedByName(Entries(sorted))
    requires forall j :: 0 <= j < k ==> NameLe(sorted[j].methodName, row.methodName)
    requires k < |sorted| ==> !NameLe(sorted[k].methodName, row.methodName)
    ensures SortedByName(Entries(sorted[..k] + [row] + sorted[k..]))
  {
    EntriesInsert(sorted, k, row);
    InsertSortedByName(Entries(sorted), k, EntryOf(row));
  }

  /**
   * Where the merge loop stands after the first `i` rows, with `es` the
   * rows' values before the loop: `merged` is the merge of what was seen,
   * `first[k]` is the position of the first row with identifier `k`, and
   * `current` gives, position by position, the counts the rows hold now: the
   * first row of each identifier carries its merged count, the rows not yet
   * seen their own.
   */
  ghost predicate MergeState(es: seq<Entry>, i: int, merged: map<string, int>, first: map<string, int>, current: seq<int>)
  {
    MergeFirsts(es, i, merged, first) && MergeCounts(es, i, merged, first, current)
  }

  /** The identifiers seen in the first `i` entries and where each first
      occurs. */
  ghost predicate MergeFirsts(es: seq<Entry>, i: int, merged: map<string, int>, first: map<string, int>)
  {
    && 0 <= i <= |es|
    && merged == Merge(es[..i])
    && first.Keys == merged.Keys
    && (forall k :: k in first ==> 0 <= first[k] < i && es[first[k]].methodName == k)
    && (forall k :: k in first ==> forall j :: 0 <= j < first[k] ==> es[j].methodName != k)
    && (forall j :: 0 <= j < i ==> es[j].methodName in first)
  }

  /** The counts held after the first `i` entries: the merged count at the
      first position of each identifier, the own count at every other
      position. */
  ghost predicate MergeCounts(es: seq<Entry>, i: int, merged: map<string, int>, first: map<string, int>, current: seq<int>)
  {
    && 0 <= i <= |es| && |current| == |es|
    && (forall k :: k in first && k in merged && 0 <= first[k] < |current| ==> current[first[k]] == merged[k])
    && (forall j :: 0 <= j < i && es[j].methodName in first && first[es[j].methodName] != j ==> current[j] == es[j].count)
    && (forall j :: i <= j < |es| ==> current[j] == es[j].count)
  }

  /** The counts of the entries, position by position. */
  function Counts(es: seq<Entry>): (cs: seq<int>)
    ensures |cs| == |es| && forall j :: 0 <= j < |es| ==> cs[j] == es[j].count
  {
    seq(|es|, j requires 0 <= j < |es| => es[j].count)
  }

  /** The start of the merge loop. */
  lemma MergeStart(es: seq<Entry>)
    ensures MergeState(es, 0, map[], map[], Counts(es))
  {
  }

  /** The bookkeeping of the merge loop: where the first row of each
      identifier sits, and the counts the rows hold, position by position. */
  datatype MergeTrack = MergeTrack(first: map<string, int>, current: seq<int>)

  /** The bookkeeping one row later: row `i`, with value `e`, either adds its
      count at the first row of its identifier or becomes that first row. */
  ghost function MergeAdvance(t: MergeTrack, e: Entry, i: int): MergeTrack
  {
    if e.methodName in t.first && 0 <= t.first[e.methodName] < |t.current| then
      var f := t.first[e.methodName];
      MergeTrack(t.first, t.current[f := t.current[f] + e.count])
    else
      MergeTrack(t.first[e.methodName := i], t.current)
  }

  /** The bookkeeping after the first `i` rows. */
  ghost function MergeRun(es: seq<Entry>, i: int): MergeTrack
    requires 0 <= i <= |es|
    decreases i
  {
    if i == 0 then MergeTrack(map[], Counts(es))
    else MergeAdvance(MergeRun(es, i - 1), es[i - 1], i - 1)
  }

  /** The bookkeeping one row later, for an identifier seen before. */
  lemma AdvanceSeen(t: MergeTrack, e: Entry, i: int)
    requires e.methodName in t.first && 0 <= t.first[e.methodName] < |t.current|
    ensures var f := t.first[e.methodName];
      MergeAdvance(t, e, i) == MergeTrack(t.first, t.current[f := t.current[f] + e.count])
  {
  }

  /** The bookkeeping one row later, for a new identifier. */
  lemma AdvanceNew(t: MergeTrack, e: Entry, i: int)
    requires e.methodName !in t.first
    ensures MergeAdvance(t, e, i) == MergeTrack(t.first[e.methodName := i], t.current)
  {
  }

  /** The positions of first occurrences one entry later, when the entry's
      identifier was seen before. */
  lemma FirstsSeen(es: seq<Entry>, i: int, merged: map<string, int>, first: map<string, int>)
    requires 0 <= i < |es|
    requires MergeFirsts(es, i, merged, first)
    requires es[i].methodName in first
    ensures var name := es[i].methodName;
      && 0 <= first[name] < i && name in merged
      && MergeFirsts(es, i + 1, merged[name := merged[name] + es[i].count], first)
  {
    MergeNext(es, i);
  }

  /** The positions of first occurrences one entry later, when the entry's
      identifier is new. */
  lemma FirstsNew(es: seq<Entry>, i: int, merged: map<string, int>, first: map<string, int>)
    requires 0 <= i < |es|
    requires MergeFirsts(es, i, merged, first)
    requires es[i].methodName !in first
    ensures var name := es[i].methodName;
      MergeFirsts(es, i + 1, merged[name := es[i].count], first[name := i])
  {
    MergeNext(es, i);
  }

  /** The counts one entry later, when the entry's identifier was seen
      before: its count is added at the first position. */
  lemma CountsSeen(es: seq<Entry>, i: int, merged: map<string, int>, first: map<string, int>, current: seq<int>)
    requires 0 <= i < |es|
    requires MergeState(es, i, merged, first, current)
    requires es[i].methodName in first
    ensures var name, f := es[i].methodName, first[es[i].methodName];
      MergeCounts(es, i + 1, merged[name := merged[name] + es[i].count], first, current[f := current[f] + es[i].count])
  {
    var name, f := es[i].methodName, first[es[i].methodName];
    var current', merged' := current[f := current[f] + es[i].count], merged[name := merged[name] + es[i].count];
    forall k | k in first && k in merged' && 0 <= first[k] < |current'|
      ensures current'[first[k]] == merged'[k]
    {
      if k != name {
        assert es[first[k]].methodName == k;
      }
    }
  }

  /** The counts one entry later, when the entry's identifier is new: the
      entry's own count is its merged count. */
  lemma CountsNew(es: seq<Entry>, i: int, merged: map<string, int>, first: map<string, int>, current: seq<int>)
    requires 0 <= i < |es|
    requires MergeState(es, i, merged, first, current)
    requires es[i].methodName !in first
    ensures var name := es[i].methodName;
      MergeCounts(es, i + 1, merged[name := es[i].count], first[name := i], current)
  {
  }

  /** One turn of the merge loop for an identifier seen before: the row's
      count is added at the first row of that identifier. */
  lemma MergeStepSeen(es: seq<Entry>, i: int, t: MergeTrack)
    requires 0 <= i < |es|
    requires MergeState(es, i, Merge(es[..i]), t.first, t.current)
    requires es[i].methodName in t.first
    ensures var t' := MergeAdvance(t, es[i], i);
      MergeState(es, i + 1, Merge(es[..i + 1]), t'.first, t'.current)
  {
    var merged := Merge(es[..i]);
    FirstsSeen(es, i, merged, t.first);
    AdvanceSeen(t, es[i], i);
    CountsSeen(es, i, merged, t.first, t.current);
  }

  /** One turn of the merge loop for a new identifier: the row becomes the
      first row of that identifier. */
  lemma MergeStepNew(es: seq<Entry>, i: int, t: MergeTrack)
    requires 0 <= i < |es|
    requires MergeState(es, i, Merge(es[..i]), t.first, t.current)
    requires es[i].methodName !in t.first
    ensures var t' := MergeAdvance(t, es[i], i);
      MergeState(es, i + 1, Merge(es[..i + 1]), t'.first, t'.current)
  {
    var merged := Merge(es[..i]);
    FirstsNew(es, i, merged, t.first);
    CountsNew(es, i, merged, t.first, t.current);
    AdvanceNew(t, es[i], i);
  }

  lemma {:induction false} MergeRunState(es: seq<Entry>, i: int)
    requires 0 <= i <= |es|
    ensures MergeState(es, i, Merge(es[..i]), MergeRun(es, i).first, MergeRun(es, i).current)
  {
    if i == 0 {
      MergeStart(es);
    } else {
      MergeRunState(es, i - 1);
      var t, e := MergeRun(es, i - 1), es[i - 1];
      if e.methodName in t.first {
        MergeStepSeen(es, i - 1, t);
      } else {
        MergeStepNew(es, i - 1, t);
      }
    }
  }

  /**
   * The heap as the merge loop leaves it after the first `i` rows, against
   * the bookkeeping `t`: the map holds, per identifier seen, the first row
   * with that identifier, and every row holds the count `t` gives it.
   */
  ghost predicate MergeLoop(rows: seq<Row>, es: seq<Entry>, reduce: map<string, Row>, i: int, t: MergeTrack)
    reads rows
  {
    && 0 <= i <= |rows| == |es| == |t.current|
    && reduce.Keys == t.first.Keys
    && (forall k :: k in t.first ==> 0 <= t.first[k] < i && reduce[k] == rows[t.first[k]])
    && (forall j :: 0 <= j < |rows| ==> rows[j].count == t.current[j])
    && (forall j :: i <= j < |rows| ==> t.current[j] == es[j].count)
  }

  /**
   * One turn of the merge loop, `reduce.merge(row.methodName(), row,
   * (row1, row2) -> row1.increment(row2.count()))` for row `i`: a row whose
   * identifier is new becomes the map's value, otherwise its count is added
   * in place to the row already there.
   */
  method MergeRow(rows: seq<Row>, ghost es: seq<Entry>, reduce: map<string, Row>, i: int, ghost t: MergeTrack)
    returns (reduce': map<string, Row>)
    requires Distinct(rows)
    requires 0 <= i < |rows| == |es|
    requires forall j :: 0 <= j < |rows| ==> rows[j].methodName == es[j].methodName
    requires MergeLoop(rows, es, reduce, i, t)
    modifies rows`count
    ensures MergeLoop(rows, es, reduce', i + 1, MergeAdvance(t, es[i], i))
  {
    var row := rows[i];
    var name := row.methodName;
    if name in reduce {
      var target := reduce[name];
      var merged := target.IncrementBy(row.count);
      reduce' := reduce[name := merged];
    } else {
      reduce' := reduce[name := row];
    }
  }

  /** What the finished merge loop has computed. */
  lemma MergeOutcome(rows: seq<Row>, es: seq<Entry>, reduce: map<string, Row>)
    requires |es| == |rows|
    requires forall j :: 0 <= j < |rows| ==> rows[j].methodName == es[j].methodName
    requires MergeLoop(rows, es, reduce, |rows|, MergeRun(es, |rows|))
    ensures reduce.Keys == Merge(es).Keys
    ensures forall k :: k in reduce ==> reduce[k].methodName == k && reduce[k].count == Merge(es)[k]
    ensures forall k :: k in reduce ==> reduce[k] in rows
    ensures forall k :: k in reduce ==>
      exists i :: 0 <= i < |rows| && reduce[k] == rows[i] && forall j :: 0 <= j < i ==> es[j].methodName != k
    ensures forall j :: 0 <= j < |rows| && rows[j] !in reduce.Values ==> rows[j].count == es[j].count
  {
    MergeRunState(es, |es|);
    assert es[..|es|] == es;
    var t := MergeRun(es, |rows|);
    forall j | 0 <= j < |rows| && rows[j] !in reduce.Values
      ensures rows[j].count == es[j].count
    {
      var name := es[j].methodName;
      assert reduce[name] == rows[t.first[name]];
    }
  }

  /**
   * The merge loop: `reduce.merge(...)` for each row in turn. The first row
   * seen for an identifier becomes the map's value and every later row's
   * count is added to that object in place, so the map ends up holding, per
   * identifier, the first row with that identifier, carrying the merged
   * count.
   */
  method MergeByName(rows: seq<Row>, ghost es: seq<Entry>) returns (reduce: map<string, Row>)
    requires Distinct(rows)
    requires |es| == |rows|
    requires forall j :: 0 <= j < |rows| ==> rows[j].methodName == es[j].methodName && rows[j].count == es[j].count
    modifies rows`count
    ensures reduce.Keys == Merge(es).Keys
    ensures forall k :: k in reduce ==> reduce[k].methodName == k && reduce[k].count == Merge(es)[k]
    ensures forall k :: k in reduce ==> reduce[k] in rows
    ensures forall k :: k in reduce ==>
      exists i :: 0 <= i < |rows| && reduce[k] == rows[i] && forall j :: 0 <= j < i ==> es[j].methodName != k
    ensures forall j :: 0 <= j < |rows| && rows[j] !in reduce.Values ==> rows[j].count == es[j].count
  {
    ghost var track := MergeRun(es, 0);
    reduce := map[];
    var i := 0;
    while i < |rows|
      invariant 0 <= i <= |rows|
      invariant track == MergeRun(es, i)
      invariant MergeLoop(rows, es, reduce, i, track)
    {
      reduce := MergeRow(rows, es, reduce, i, track);
      track := MergeAdvance(track, es[i], i);
      i := i + 1;
    }
    MergeOutcome(rows, es, reduce);
  }

  /** `new ArrayList<>(reduce.values())`: the map's rows, in an order the
      map does not specify; `counts` names what each row holds. */
  method ValuesOf(reduce: map<string, Row>, ghost counts: map<string, int>) returns (values: seq<Row>)
    requires reduce.Keys == counts.Keys
    requires forall k :: k in reduce ==> reduce[k].methodName == k && reduce[k].count == counts[k]
    ensures multiset(Entries(values)) == multiset(Items(counts))
    ensures forall r :: r in values ==> r in reduce.Values
  {
    values := [];
    var keys := reduce.Keys;
    while keys != {}
      invariant keys <= reduce.Keys
      invariant multiset(Entries(values)) == multiset(Items(counts - keys))
      invariant forall r :: r in values ==> r in reduce.Values
      decreases keys
    {
      var k :| k in keys;
      ghost var before := counts - keys;
      assert counts - (keys - {k}) == before[k := counts[k]];
      ItemsAdd(before, k, counts[k]);
      EntriesAppend(values, [reduce[k]]);
      values := values + [reduce[k]];
      keys := keys - {k};
    }
    assert counts - keys == counts;
  }

  /** Where the insertion sort by count puts `row`: after every row whose
      count is not above its own. */
  method CountPosition(sorted: seq<Row>, row: Row) returns (k: int)
    ensures 0 <= k <= |sorted|
    ensures forall j :: 0 <= j < k ==> sorted[j].count <= row.count
    ensures k < |sorted| ==> row.count < sorted[k].count
  {
    k := 0;
    while k < |sorted| && sorted[k].count <= row.count
      invariant 0 <= k <= |sorted|
      invariant forall j :: 0 <= j < k ==> sorted[j].count <= row.count
    {
      k := k + 1;
    }
  }

  /** `values.sort(Comparator.comparing(Row::count))`, as a stable insertion
      sort. */
  method SortByCount(values: seq<Row>) returns (sorted: seq<Row>)
    ensures multiset(sorted) == multiset(values)
    ensures multiset(Entries(sorted)) == multiset(Entries(values))
    ensures SortedByCount(Entries(sorted))
    ensures Distinct(values) ==> Distinct(sorted)
  {
    sorted := [];
    var i := 0;
    while i < |values|
      invariant 0 <= i <= |values|
      invariant multiset(sorted) == multiset(values[..i])
      invariant SortedByCount(Entries(sorted))
    {
      var row := values[i];
      var k := CountPosition(sorted, row);
      InsertNext(values, i, sorted, k);
      InsertByCount(sorted, k, row);
      sorted := sorted[..k] + [row] + sorted[k..];
      i := i + 1;
    }
    assert values[..i] == values;
    EntriesPermutation(values, sorted);
    if Distinct(values) {
      DistinctPermutation(values, sorted);
    }
  }

  /** The scan of `SortByCount` stops at a place where the row keeps the list
      sorted by count. */
  lemma InsertByCount(sorted: seq<Row>, k: int, row: Row)
    requires 0 <= k <= |sorted| && SortedByCount(Entries(sorted))
    requires forall j :: 0 <= j < k ==> sorted[j].count <= row.count
    requires k < |sorted| ==> row.count < sorted[k].count
    ensures SortedByCount(Entries(sorted[..k] + [row] + sorted[k..]))
  {
    EntriesInsert(sorted, k, row);
    InsertSortedByCount(Entries(sorted), k, EntryOf(row));
  }

  /** `reduce.values().removeIf(row -> row.count() != 0)`: only the rows
      with count 0 stay, under their own identifiers. */
  method RemoveNonZero(reduce: map<string, Row>) returns (kept: map<string, Row>)
    ensures forall k :: k in kept <==> k in reduce && reduce[k].count == 0
    ensures forall k :: k in kept ==> kept[k] == reduce[k]
  {
    kept := map k | k in reduce && reduce[k].count == 0 :: reduce[k];
  }

  /**
   * The `computeMessage` callback of `onComplete`: unless `keepAll`, the
   * rows whose count is not 0 are removed from the map; the rows left, sorted
   * by count, are the table to publish. `merged` names what the map holds.
   */
  method Publish(keepAll: bool, reduce: map<string, Row>, ghost merged: map<string, int>) returns (sorted: seq<Row>)
    requires reduce.Keys == merged.Keys
    requires forall k :: k in reduce ==> reduce[k].methodName == k && reduce[k].count == merged[k]
    ensures Publishes(Entries(sorted), Surviving(keepAll, merged))
    ensures SortedByCount(Entries(sorted))
    ensures Distinct(sorted)
    ensures forall i :: 0 <= i < |sorted| ==> sorted[i] in reduce.Values
  {
    var kept := reduce;
    if !keepAll {
      kept := RemoveNonZero(reduce);
    }
    ghost var published := Surviving(keepAll, merged);
    assert kept.Keys == published.Keys;
    var values := ValuesOf(kept, published);
    sorted := SortByCount(values);
    PublishesExactly(Entries(sorted), published);
    DistinctByName(sorted);
    forall i | 0 <= i < |sorted|
      ensures sorted[i] in reduce.Values
    {
      assert sorted[i] in multiset(values);
      assert sorted[i] in values;
      assert sorted[i] in kept.Values;
      var k :| k in kept && kept[k] == sorted[i];
      assert reduce[k] == sorted[i];
    }
  }

  /** `rows.sort(Comparator.comparing(Row::methodName))` on the table's own
      list: the same rows, with the same values, now in name order. */
  method SortTable(ctx: ExecutionContext) returns (rows: seq<Row>)
    requires ctx.Valid() && ctx.rows.Some?
    modifies ctx
    ensures ctx.rows == Some(rows) && Distinct(rows)
    ensures SortedByName(Entries(rows))
    ensures multiset(Entries(rows)) == multiset(old(Entries(ctx.RowList())))
    ensures forall i :: 0 <= i < |rows| ==> rows[i] in old(ctx.RowList())
  {
    ghost var contributors := ctx.rows.value;
    rows := SortByName(ctx.rows.value);
    forall i | 0 <= i < |rows|
      ensures rows[i] in contributors
    {
      assert rows[i] in multiset(contributors);
    }
    ghost var byName := Entries(rows);
    ctx.rows := Some(rows);
    assert Entries(rows) == byName;
  }

  /**
   * The merge loop followed by the `computeMessage` callback, on the name
   * sorted rows whose values are those of `contributed`: the table to
   * publish, made of rows of `contributors`.
   */
  method Reduce(keepAll: bool, rows: seq<Row>, ghost contributed: seq<Entry>, ghost contributors: seq<Row>)
      returns (sorted: seq<Row>)
    requires Distinct(rows)
    requires multiset(Entries(rows)) == multiset(contributed)
    requires forall i :: 0 <= i < |rows| ==> rows[i] in contributors
    modifies rows`count
    ensures Publishes(Entries(sorted), Surviving(keepAll, Merge(contributed)))
    ensures SortedByCount(Entries(sorted))
    ensures Distinct(sorted)
    ensures forall i :: 0 <= i < |sorted| ==> sorted[i] in contributors
  {
    ghost var merged := Merge(Entries(rows));
    MergePermutation(Entries(rows), contributed);
    var reduce := MergeByName(rows, Entries(rows));
    sorted := Publish(keepAll, reduce, merged);
    forall i | 0 <= i < |sorted|
      ensures sorted[i] in contributors
    {
      assert sorted[i] in reduce.Values;
      var k :| k in reduce && reduce[k] == sorted[i];
      assert reduce[k] in rows;
    }
  }

  /**
   * `onComplete`: with no row list nothing is published. Otherwise the rows
   * are sorted by name, merged per identifier, filtered unless `keepAll`,
   * and the surviving merged rows are published sorted by count, replacing
   * the contributions.
   */
  method OnComplete(recipe: Recipe, ctx: ExecutionContext)
    requires ctx.Valid()
    modifies ctx, ctx.RowList()`count
    ensures ctx.Valid()
    ensures ctx.rows.None? <==> old(ctx.rows).None?
    ensures ctx.rows.Some? ==>
      && Publishes(Entries(ctx.RowList()), Surviving(recipe.keepAll, Merge(old(Entries(ctx.RowList())))))
      && SortedByCount(Entries(ctx.RowList()))
    ensures forall i :: 0 <= i < |ctx.RowList()| ==> ctx.RowList()[i] in old(ctx.RowList())
  {
    if ctx.rows.None? {
      return;
    }
    ghost var contributors, contributed := ctx.rows.value, Entries(ctx.RowList());
    var rows := SortTable(ctx);
    var sorted := Reduce(recipe.keepAll, rows, contributed, contributors);
    ghost var published := Entries(sorted);
    ctx.rows := Some(sorted);
    assert Entries(ctx.RowList()) == published;
  }

  /**
   * The published table, against the source it was computed from: one row
   * per identifier, its count the number of tracked call sites of that
   * method; a row only for a tracked declaration or a called tracked method;
   * and every such identifier is there, under `keepAll` or when no tracked
   * call site exists.
   */
  lemma RunReport(recipe: Recipe, units: seq<Tree>, table: seq<Entry>)
    requires Publishes(table, Surviving(recipe.keepAll, Merge(RunContributions(recipe.fullyQualifiedClassName, units))))
    ensures DistinctNames(table)
    ensures forall i :: 0 <= i < |table| ==>
      table[i].count == InvocationSitesOfAll(recipe.fullyQualifiedClassName, units, table[i].methodName)
    ensures forall i :: 0 <= i < |table| ==>
      || table[i].methodName in DeclaredOfAll(recipe.fullyQualifiedClassName, units, None)
      || InvocationSitesOfAll(recipe.fullyQualifiedClassName, units, table[i].methodName) > 0
    ensures !recipe.keepAll ==> forall i :: 0 <= i < |table| ==> table[i].count == 0
    ensures forall name ::
      && (name in DeclaredOfAll(recipe.fullyQualifiedClassName, units, None)
          || InvocationSitesOfAll(recipe.fullyQualifiedClassName, units, name) > 0)
      && (recipe.keepAll || InvocationSitesOfAll(recipe.fullyQualifiedClassName, units, name) == 0)
      ==> name in Names(table)
  {
    var fq, contributions := recipe.fullyQualifiedClassName, RunContributions(recipe.fullyQualifiedClassName, units);
    PublishedTable(table, recipe.keepAll, contributions);
    forall i | 0 <= i < |table|
      ensures table[i].count == InvocationSitesOfAll(fq, units, table[i].methodName)
      ensures table[i].methodName in DeclaredOfAll(fq, units, None) || InvocationSitesOfAll(fq, units, table[i].methodName) > 0
    {
      ContributionsOfAllCount(fq, units, None, table[i].methodName);
      ContributionsOfAllNames(fq, units, None, table[i].methodName);
    }
    forall name | (name in DeclaredOfAll(fq, units, None) || InvocationSitesOfAll(fq, units, name) > 0)
                  && (recipe.keepAll || InvocationSitesOfAll(fq, units, name) == 0)
      ensures name in Names(table)
    {
      ContributionsOfAllCount(fq, units, None, name);
      ContributionsOfAllNames(fq, units, None, name);
    }
  }

  /**
   * One run of the recipe over a set of compilation units: each unit is
   * visited in turn, all adding to the same table, then `onComplete`
   * reduces it. The result is the published table, or `None` when no row
   * was ever inserted.
   */
  method Run(recipe: Recipe, units: seq<Tree>) returns (table: Option<seq<Entry>>)
    ensures table.None? <==> RunContributions(recipe.fullyQualifiedClassName, units) == []
    ensures table.Some? ==>
      && Publishes(table.value, Surviving(recipe.keepAll, Merge(RunContributions(recipe.fullyQualifiedClassName, units))))
      && SortedByCount(table.value)
  {
    ghost var contributions := RunContributions(recipe.fullyQualifiedClassName, units);
    var ctx := new ExecutionContext();
    assert Entries(ctx.RowList()) == [];
    VisitChildren(recipe, ctx, units, None);
    ghost var contributed := Entries(ctx.RowList());
    assert contributed == contributions;
    assert ctx.rows.None? <==> contributions == [];
    forall i | 0 <= i < |ctx.RowList()|
      ensures fresh(ctx.RowList()[i])
    {
      assert ctx.RowList()[i] in ctx.RowList();
    }
    OnComplete(recipe, ctx);
    if ctx.rows.Some? {
      table := Some(Entries(ctx.rows.value));
      assert Publishes(table.value, Surviving(recipe.keepAll, Merge(contributed)));
    } else {
      table := None;
    }
  }
}
