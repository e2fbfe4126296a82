# CountNoPublicInvocationMethod, modelled in Dafny

This project models the OpenRewrite recipe `CountNoPublicInvocationMethod` and its data table `InvocationCountReport`.

The recipe walks the typed syntax trees of a set of Java compilation units.

- **Declarations.** Every public method declared in a tracked class gets a row with count 0. A tracked class is one that is not an interface and whose simple name does not end in `Test`.
- **Calls.** Every call of a public method gets a row with count 1. The call may sit in any class.
- **Scope.** A method is in scope when its declaring type's fully-qualified name starts with the configured prefix.
- **Identifiers.** A method's identifier is the declaring type, a dot, and the method name.

When the run completes, `onComplete` works on the row list in five steps:

1. It sorts the list by identifier.
2. It folds the list into a map with `HashMap.merge`. Each later row's count is added to the first row seen for that identifier, which is mutated in place.
3. Unless `keepAll` is set, it removes every merged row whose count is not 0.
4. It copies the surviving rows into a list.
5. It sorts that list by count and publishes it as the table.

If no row was ever inserted, nothing is published.

Modules and files:

- `wrappers.dfy` (`Wrappers`): `Option`, standing in for a Java reference that may be `null`.
- `strings.dfy` (`Strings`): `startsWith`, `endsWith` and the `compareTo` order on strings.
- `java_tree.dfy` (`JavaTree`): the parts of the typed tree the recipe reads.
  - `JavaType.Method` becomes `MethodType`: declaring type, name, parameter types and flags.
  - `J.ClassDeclaration` becomes `ClassDecl`: kind and simple name.
  - The visited nodes are `ClassDeclaration`, `MethodDeclaration`, `MethodInvocation` and `Other`.
- `invocation_count_report.dfy` (`InvocationCountReport`):
  - the mutable `Row` class;
  - `Entry`, a row's value at one moment;
  - `ExecutionContext`, the execution context's slot for the table, which stays absent until the first insert.
- `reduction.dfy` (`Reduction`): the meaning of `onComplete` on values.
  - `Merge`: the fold of `HashMap.merge`.
  - `SumFor`: the reference sum per identifier.
  - `Surviving`: the `keepAll` policy.
  - `Publishes`: a list holds exactly the rows of a map.
  - `SortedByName`, `SortedByCount`: the two orders.
- `count_no_public_invocation_method.dfy` (`CountNoPublicInvocationMethod`):
  - the recipe's options;
  - the scope predicates and identifiers;
  - the rows a tree contributes, as functions, with lemmas against independent counts;
  - the visitor as methods that append `Row` objects to the shared table;
  - `onComplete` as methods over the same `Row` objects: the in-place name sort of the table's list, the merge loop over `map<string, Row>` with aliasing increments, `removeIf`, the copy of the values and the count sort;
  - `Run`: one run over a list of units.
- `scenario.dfy` (`Scenario`): the repository's two tests.

## Model


| member | source | states |
|---|---|---|
| Strings.StartsWith | src/main/java/com/jsoussens/rewrite/recipe/CountNoPublicInvocationMethod.java:87 | `startsWith` holds exactly when the prefix fits and the string's first characters are the prefix |
| Strings.EndsWith | src/main/java/com/jsoussens/rewrite/recipe/CountNoPublicInvocationMethod.java:91 | `endsWith` holds exactly when the suffix fits and the string's last characters are the suffix |
| Strings.CompareToZero | src/main/java/com/jsoussens/rewrite/recipe/CountNoPublicInvocationMethod.java:67 | the `compareTo` order used by the name sort is zero exactly on equal strings |
| Strings.CompareToAntisymmetric | src/main/java/com/jsoussens/rewrite/recipe/CountNoPublicInvocationMethod.java:67 | swapping the operands negates `compareTo`, so any two names are ordered one way or the other |
| Strings.NameLeTransitive | src/main/java/com/jsoussens/rewrite/recipe/CountNoPublicInvocationMethod.java:67 | the name order is transitive |
| Strings.CompareTo | src/main/java/com/jsoussens/rewrite/recipe/CountNoPublicInvocationMethod.java:67 | the definition of `String.compareTo`: the difference of the first differing characters, or else the difference of the lengths |
| CountNoPublicInvocationMethod.IsTarget | src/main/java/com/jsoussens/rewrite/recipe/CountNoPublicInvocationMethod.java:85-87 | the definition of `isTarget`: a resolved method type with the public flag whose declaring type's name starts with the configured prefix |
| CountNoPublicInvocationMethod.IsTargetClass | src/main/java/com/jsoussens/rewrite/recipe/CountNoPublicInvocationMethod.java:89-91 | the definition of `isTargetClass`: an enclosing class that exists, is not an interface, and whose simple name does not end in `Test` |
| CountNoPublicInvocationMethod.GetFqdn | src/main/java/com/jsoussens/rewrite/recipe/CountNoPublicInvocationMethod.java:116-118 | the definition of `getFQDN`: the declaring type's name, a dot, and the method name |
| CountNoPublicInvocationMethod.Contributions | src/main/java/com/jsoussens/rewrite/recipe/CountNoPublicInvocationMethod.java:93-114 | the definition of the walk over one node: a count-0 row for a tracked declaration in a tracked class, a count-1 row for a tracked call, then the rows of the children in order |
| CountNoPublicInvocationMethod.ContributionsOfAll | src/main/java/com/jsoussens/rewrite/recipe/CountNoPublicInvocationMethod.java:93-114 | the definition of the walk over a list of sibling nodes: their contributions concatenated in order |
| Reduction.Merge | src/main/java/com/jsoussens/rewrite/recipe/CountNoPublicInvocationMethod.java:68-71 | the definition of the `HashMap.merge` fold on values: a new identifier takes its count, a known one adds it |
| Reduction.Surviving | src/main/java/com/jsoussens/rewrite/recipe/CountNoPublicInvocationMethod.java:73-75 | the definition of the `keepAll` policy: everything with `keepAll`, otherwise only the identifiers whose merged count is 0 |
| CountNoPublicInvocationMethod.IsTargetIsRawPrefix | src/main/java/com/jsoussens/rewrite/recipe/CountNoPublicInvocationMethod.java:85-87 | the scope test is a raw prefix test: "com.acme" accepts `com.acme2.Foo` and `com.acme.Foo` but not `com.acm.Foo`; a method without the public flag or without a resolved type is rejected |
| CountNoPublicInvocationMethod.OverloadsShareFqdn | src/main/java/com/jsoussens/rewrite/recipe/CountNoPublicInvocationMethod.java:116-118 | overloads (same type and name, other parameters or flags) get the same identifier, so their counts are merged |
| CountNoPublicInvocationMethod.GetFqdnInjective | src/main/java/com/jsoussens/rewrite/recipe/CountNoPublicInvocationMethod.java:116-118 | for names without a dot, equal identifiers mean the same declaring type and method name |
| CountNoPublicInvocationMethod.ContributionsZeroOrOne | src/main/java/com/jsoussens/rewrite/recipe/CountNoPublicInvocationMethod.java:93-114 | every row a subtree contributes has count 0 (a declaration) or 1 (a call) |
| CountNoPublicInvocationMethod.ContributionsOfAllZeroOrOne | src/main/java/com/jsoussens/rewrite/recipe/CountNoPublicInvocationMethod.java:93-114 | the same, for a list of sibling nodes |
| CountNoPublicInvocationMethod.ContributionsCount | src/main/java/com/jsoussens/rewrite/recipe/CountNoPublicInvocationMethod.java:93-114 | for each identifier, the counts a subtree contributes add up to its number of tracked call sites, counted independently of the rows; declarations add 0 |
| CountNoPublicInvocationMethod.ContributionsOfAllCount | src/main/java/com/jsoussens/rewrite/recipe/CountNoPublicInvocationMethod.java:93-114 | the same, for a list of sibling nodes |
| CountNoPublicInvocationMethod.ContributionsNames | src/main/java/com/jsoussens/rewrite/recipe/CountNoPublicInvocationMethod.java:93-114 | an identifier has a row for a subtree if and only if it is a tracked declaration in a tracked class there, or has a tracked call site there |
| CountNoPublicInvocationMethod.ContributionsOfAllNames | src/main/java/com/jsoussens/rewrite/recipe/CountNoPublicInvocationMethod.java:93-114 | the same, for a list of sibling nodes |
| CountNoPublicInvocationMethod.CountIfNeeded | src/main/java/com/jsoussens/rewrite/recipe/CountNoPublicInvocationMethod.java:110-118 | a tracked method appends one new row, its identifier and `count`, to the table; anything else leaves the table as it was |
| CountNoPublicInvocationMethod.VisitMethodDeclaration | src/main/java/com/jsoussens/rewrite/recipe/CountNoPublicInvocationMethod.java:93-101 | a declaration appends one count-0 row exactly when the enclosing class and the method are tracked, then the rows of its body |
| CountNoPublicInvocationMethod.VisitMethodInvocation | src/main/java/com/jsoussens/rewrite/recipe/CountNoPublicInvocationMethod.java:103-108 | a call appends one count-1 row exactly when the called method is tracked, whatever class encloses it, then the rows of its arguments |
| CountNoPublicInvocationMethod.Visit | src/main/java/com/jsoussens/rewrite/recipe/CountNoPublicInvocationMethod.java:93-108 | visiting a node appends exactly the node's contributions, with the enclosing class updated at class declarations |
| CountNoPublicInvocationMethod.VisitChildren | src/main/java/com/jsoussens/rewrite/recipe/CountNoPublicInvocationMethod.java:100 | the descent appends the contributions of every child, in order |
| CountNoPublicInvocationMethod.NamePosition | src/main/java/com/jsoussens/rewrite/recipe/CountNoPublicInvocationMethod.java:67 | the insertion point of the name sort: after every row whose name is not above the new one, before the first row above it |
| CountNoPublicInvocationMethod.SortByName | src/main/java/com/jsoussens/rewrite/recipe/CountNoPublicInvocationMethod.java:67 | the rows come back as a permutation, with the same values, sorted by name, and without repeated objects if there were none |
| CountNoPublicInvocationMethod.SortTable | src/main/java/com/jsoussens/rewrite/recipe/CountNoPublicInvocationMethod.java:62-67 | the table's own list is replaced by the same rows in name order |
| CountNoPublicInvocationMethod.MergeRow | src/main/java/com/jsoussens/rewrite/recipe/CountNoPublicInvocationMethod.java:69-70 | one turn of the merge loop: a new identifier puts its row, and a known one adds its count in place to the first row of that identifier |
| CountNoPublicInvocationMethod.MergeRunState | src/main/java/com/jsoussens/rewrite/recipe/CountNoPublicInvocationMethod.java:68-71 | after each turn, every identifier seen sits at its first position and holds the merged count of the rows so far |
| CountNoPublicInvocationMethod.MergeByName | src/main/java/com/jsoussens/rewrite/recipe/CountNoPublicInvocationMethod.java:68-71 | the map has one key per identifier; its row carries that identifier and the sum of that identifier's counts, and is the first row with it; every row that is not a value of the map keeps its own count |
| CountNoPublicInvocationMethod.RemoveNonZero | src/main/java/com/jsoussens/rewrite/recipe/CountNoPublicInvocationMethod.java:73-75 | exactly the identifiers whose row has count 0 stay, with their own rows |
| CountNoPublicInvocationMethod.ValuesOf | src/main/java/com/jsoussens/rewrite/recipe/CountNoPublicInvocationMethod.java:76 | the copied list holds each of the map's rows exactly once, in some order |
| CountNoPublicInvocationMethod.CountPosition | src/main/java/com/jsoussens/rewrite/recipe/CountNoPublicInvocationMethod.java:77 | the insertion point of the count sort: after every count not above the new one, before the first count above it |
| CountNoPublicInvocationMethod.SortByCount | src/main/java/com/jsoussens/rewrite/recipe/CountNoPublicInvocationMethod.java:77 | a permutation of the rows, with the same values, sorted by count ascending |
| CountNoPublicInvocationMethod.Publish | src/main/java/com/jsoussens/rewrite/recipe/CountNoPublicInvocationMethod.java:72-80 | the published list holds exactly the merged rows the `keepAll` policy keeps, each once, sorted by count, all of them rows of the map |
| CountNoPublicInvocationMethod.Reduce | src/main/java/com/jsoussens/rewrite/recipe/CountNoPublicInvocationMethod.java:68-80 | the merge then the publication: the list holds exactly the surviving merged rows of the contributions, sorted by count, made of rows already in the table |
| CountNoPublicInvocationMethod.OnComplete | src/main/java/com/jsoussens/rewrite/recipe/CountNoPublicInvocationMethod.java:60-81 | with no row list nothing is published; otherwise the table becomes exactly the surviving merged rows of its contributions, sorted by count |
| CountNoPublicInvocationMethod.RunReport | src/main/java/com/jsoussens/rewrite/recipe/CountNoPublicInvocationMethod.java:60-118 | in the published table each identifier appears once, with count equal to its number of tracked call sites; a row exists only for a tracked declaration or a called method; every such identifier appears under `keepAll`, or when it is never called |
| CountNoPublicInvocationMethod.Run | src/main/java/com/jsoussens/rewrite/recipe/CountNoPublicInvocationMethod.java:56-81 | a run publishes nothing exactly when no row was contributed; otherwise it publishes the surviving merged rows sorted by count |
| Reduction.MergeSumsPerName | src/main/java/com/jsoussens/rewrite/recipe/CountNoPublicInvocationMethod.java:68-71 | the merge has one key per contributed identifier, and each value is the sum of that identifier's counts |
| Reduction.MergePermutation | src/main/java/com/jsoussens/rewrite/recipe/CountNoPublicInvocationMethod.java:67-71 | the merge does not depend on the order of the rows, so the name sort leaves it unchanged |
| Reduction.SumForPermutation | src/main/java/com/jsoussens/rewrite/recipe/CountNoPublicInvocationMethod.java:67-71 | reordering the rows leaves every sum per identifier unchanged |
| Reduction.MergeNonNegative | src/main/java/com/jsoussens/rewrite/recipe/InvocationCountReport.java:24-43 | counts that start at 0 and are only ever raised by non-negative amounts stay non-negative |
| Reduction.PublishesExactly | src/main/java/com/jsoussens/rewrite/recipe/CountNoPublicInvocationMethod.java:76-78 | a list holding the rows of a map has exactly the map's identifiers, each once, with the map's counts |
| Reduction.PublishedTable | src/main/java/com/jsoussens/rewrite/recipe/CountNoPublicInvocationMethod.java:67-78 | one row per identifier, its count the sum of its contributions; without `keepAll` every row has count 0 and none with sum 0 is lost; with `keepAll` every identifier is kept |
| Reduction.InsertSortedByName | src/main/java/com/jsoussens/rewrite/recipe/CountNoPublicInvocationMethod.java:67 | inserting at the scan's position keeps a list sorted by name |
| Reduction.InsertSortedByCount | src/main/java/com/jsoussens/rewrite/recipe/CountNoPublicInvocationMethod.java:77 | inserting at the scan's position keeps a list sorted by count |
| InvocationCountReport.Row.constructor | src/main/java/com/jsoussens/rewrite/recipe/InvocationCountReport.java:22-25 | a new row has the given identifier and count 0 |
| InvocationCountReport.Row.Increment | src/main/java/com/jsoussens/rewrite/recipe/InvocationCountReport.java:35-38 | the count grows by exactly 1, only the count changes, and the result is the same object |
| InvocationCountReport.Row.IncrementBy | src/main/java/com/jsoussens/rewrite/recipe/InvocationCountReport.java:40-43 | the count grows by exactly `value`, only the count changes, and the result is the same object |
| InvocationCountReport.ExecutionContext.InsertRow | src/main/java/com/jsoussens/rewrite/recipe/CountNoPublicInvocationMethod.java:112 | the table's list is created on the first insert, and each insert appends the row |
| InvocationCountReport.EntriesPermutation | src/main/java/com/jsoussens/rewrite/recipe/CountNoPublicInvocationMethod.java:67 | rearranging row objects rearranges their values the same way |
| InvocationCountReport.DistinctPermutation | src/main/java/com/jsoussens/rewrite/recipe/CountNoPublicInvocationMethod.java:67 | a rearrangement of rows holding no object twice holds none twice either |
| Scenario.ReportNonUsedPublicMethods | src/test/java/com/jsoussens/rewrite/recipe/CountNoPublicInvocationMethodTest.java:29-91 | on the test's four units with "com.acme" and `keepAll`, the merged table is exactly `count` with 1, `print` with 0 and `doTheJob` with 0 |
| Scenario.ExpectedAssertions | src/test/java/com/jsoussens/rewrite/recipe/CountNoPublicInvocationMethodTest.java:29-44 | a table with those rows has no row for the interface method or the test method, and one row each for `doTheJob` with 0, `print` with 0 and `count` with 1 |
| Scenario.ReportNonUsedPublicMethodsRun | src/test/java/com/jsoussens/rewrite/recipe/CountNoPublicInvocationMethodTest.java:22-44 | the recipe's own run over those units publishes a table that meets every assertion of the test |
| Scenario.ReportDontCrashOnEmptyModule | src/test/java/com/jsoussens/rewrite/recipe/CountNoPublicInvocationMethodTest.java:95-101 | a run over no source file publishes no data table |

## Left out

- OpenRewrite plumbing is not modelled: `Recipe`, the `JavaIsoVisitor` dispatch, `getCursor().firstEnclosing`, `ExecutionContext.getMessage`/`computeMessage` and the `DATA_TABLES` map.
  - The tree is an explicit datatype.
  - The enclosing class is passed down the walk.
  - The execution context's slot for this table is a field `rows: Option<seq<Row>>`.
  - `DataTable.insertRow` is modelled abstractly by `ExecutionContext.InsertRow`, which creates the list on first use and appends to it.
- Concurrency is not modelled: the `ConcurrentHashMap` and parallel visiting of units. One run is one sequential walk over the units in order. The merge is proved independent of the order of the rows (`Reduction.MergePermutation`).
- The parser and type attribution come from another library and are not modelled. A missing method type or enclosing class is `None`.
- Jackson annotations, `@Option` metadata, `getDisplayName`, `getDescription` and the column display names are serialisation and UI only, and are not modelled.
- Java's `Integer` is modelled as an unbounded `int`, so boxing, `null` counts and 32-bit overflow are not modelled.
- `Strings.CompareTo` compares Dafny characters. Java compares UTF-16 code units, so the two orders agree only on characters of the Basic Multilingual Plane.
- `SortByName` and `SortByCount` are stable insertion sorts. `List.sort`'s algorithm is not modelled, only the order it establishes. The sorts are proved to be permutations, to keep the values and to establish the order.
- The order of `reduce.values()` depends on `HashMap` iteration order. `ValuesOf` chooses an unspecified order, so the relative order of rows with equal counts is left unstated.
- `Row` accessors are fields, and `methodName` is a `const` because no code ever assigns it after the constructor. "Neither increment changes `methodName`" therefore holds by construction.
- The constructor's `fullyQualifiedClassName` and `keepAll` are a `Recipe` value that never changes. A `null` option value is not modelled.
- Some parameters (`es` of `MergeByName`, `merged` of `Publish`, `counts` of `ValuesOf`, `contributed` and `contributors` of `Reduce`) are ghost. They name the values the Java objects hold, so that the contracts can speak of them.
- The visitor's default descent (`super.visit...`) is written as recursion over the children: `VisitChildren`, which visits the earlier children, then the last.
- The constructor does not reject an empty or `null` prefix. An empty prefix tracks every public method.
- A run with no contribution publishes no table, not an empty one, as `reportDontCrashOnEmptyModule` asserts.
