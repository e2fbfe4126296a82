/**
 * What `onComplete` computes, stated on values: the fold of the contributed
 * rows into one count per method identifier (`HashMap.merge`), the
 * `keepAll` policy (`removeIf`), and what it means for a list of rows to be
 * the published table.
 */
module Reduction {
  import opened Strings
  import opened InvocationCountReport

  /** The identifiers that occur among the entries. */
  function Names(es: seq<Entry>): set<string>
  {
    set e | e in es :: e.methodName
  }

  /** The reference meaning of a merged count: the sum of the counts of all
      entries carrying `name`. */
  function SumFor(es: seq<Entry>, name: string): int
  {
    if es == [] then 0
    else SumFor(es[..|es| - 1], name) + (if es[|es| - 1].methodName == name then es[|es| - 1].count else 0)
  }

  /** The merge loop of `onComplete`: `reduce.merge(name, row, (row1, row2) ->
      row1.increment(row2.count()))` on every entry in turn; the first entry
      with a name is put, every later one adds its count to it. */
  function Merge(es: seq<Entry>): map<string, int>
  {
    if es == [] then map[]
    else
      var m := Merge(es[..|es| - 1]);
      var e := es[|es| - 1];
      m[e.methodName := if e.methodName in m then m[e.methodName] + e.count else e.count]
  }

  /** The `keepAll` policy: with `keepAll` every merged row stays, without it
      `removeIf(row -> row.count() != 0)` drops every row whose count is not 0. */
  function Surviving(keepAll: bool, m: map<string, int>): map<string, int>
  {
    if keepAll then m else map k | k in m && m[k] == 0 :: m[k]
  }

  /** The rows of a map, as entries. */
  function Items(m: map<string, int>): set<Entry>
  {
    set k | k in m :: Entry(k, m[k])
  }

  lemma ItemsAdd(m: map<string, int>, k: string, v: int)
    requires k !in m
    ensures Items(m[k := v]) == Items(m) + {Entry(k, v)}
    ensures Entry(k, v) !in Items(m)
  {
    var a, b := Items(m[k := v]), Items(m) + {Entry(k, v)};
    forall x | x in a
      ensures x in b
    {
      var j :| j in m[k := v] && x == Entry(j, m[k := v][j]);
      if j != k {
        assert x == Entry(j, m[j]);
      }
    }
    forall x | x in b
      ensures x in a
    {
      if x != Entry(k, v) {
        var j :| j in m && x == Entry(j, m[j]);
        assert x == Entry(j, m[k := v][j]);
      } else {
        assert x == Entry(k, m[k := v][k]);
      }
    }
  }

  /** `es` lists the rows of `m`, each exactly once, in some order. */
  predicate Publishes(es: seq<Entry>, m: map<string, int>)
  {
    multiset(es) == multiset(Items(m))
  }

  predicate DistinctNames(es: seq<Entry>)
  {
    forall i, j :: 0 <= i < j < |es| ==> es[i].methodName != es[j].methodName
  }

  /** The order `rows.sort(Comparator.comparing(Row::methodName))` establishes. */
  predicate SortedByName(es: seq<Entry>)
  {
    forall i, j :: 0 <= i < j < |es| ==> NameLe(es[i].methodName, es[j].methodName)
  }

  /** The order `values.sort(Comparator.comparing(Row::count))` establishes. */
  predicate SortedByCount(es: seq<Entry>)
  {
    forall i, j :: 0 <= i < j < |es| ==> es[i].count <= es[j].count
  }

  lemma NamesSnoc(es: seq<Entry>, e: Entry)
    ensures Names(es + [e]) == Names(es) + {e.methodName}
  {
    assert forall x :: x in es + [e] <==> x in es || x == e;
  }

  /** A name that does not occur contributes nothing. */
  lemma {:induction false} SumForAbsent(es: seq<Entry>, name: string)
    requires name !in Names(es)
    ensures SumFor(es, name) == 0
  {
    if es != [] {
      var p := es[..|es| - 1];
      assert es == p + [es[|es| - 1]];
      NamesSnoc(p, es[|es| - 1]);
      SumForAbsent(p, name);
    }
  }

  lemma {:induction false} SumForAppend(a: seq<Entry>, b: seq<Entry>, name: string)
    ensures SumFor(a + b, name) == SumFor(a, name) + SumFor(b, name)
  {
    if b == [] {
      assert a + b == a;
    } else {
      assert (a + b)[..|a + b| - 1] == a + b[..|b| - 1];
      SumForAppend(a, b[..|b| - 1], name);
    }
  }

  /** The merge produces one count per distinct identifier, and that count is
      the sum of the counts contributed under the identifier. */
  lemma {:induction false} MergeSumsPerName(es: seq<Entry>)
    ensures Merge(es).Keys == Names(es)
    ensures forall k :: k in Merge(es) ==> Merge(es)[k] == SumFor(es, k)
  {
    if es != [] {
      var p, e := es[..|es| - 1], es[|es| - 1];
      assert es == p + [e];
      NamesSnoc(p, e);
      MergeSumsPerName(p);
      if e.methodName !in Names(p) {
        SumForAbsent(p, e.methodName);
      }
    }
  }

  /** The merge of a prefix extended by one entry: that entry's count is put
      under its identifier, or added to the count already there; it is put
      only when no earlier entry has its identifier. */
  lemma MergeNext(es: seq<Entry>, i: int)
    requires 0 <= i < |es|
    ensures var m, e := Merge(es[..i]), es[i];
      Merge(es[..i + 1]) == m[e.methodName := if e.methodName in m then m[e.methodName] + e.count else e.count]
    ensures es[i].methodName !in Merge(es[..i]) ==> forall j :: 0 <= j < i ==> es[j].methodName != es[i].methodName
  {
    assert es[..i + 1][..i] == es[..i];
    MergeSumsPerName(es[..i]);
    forall j | 0 <= j < i
      ensures es[j].methodName in Merge(es[..i])
    {
      assert es[..i][j] == es[j];
    }
  }

  /** Counts that start at 0 and only ever grow by non-negative amounts stay
      non-negative: with non-negative contributions every merged count is. */
  lemma {:induction false} MergeNonNegative(es: seq<Entry>)
    requires forall i :: 0 <= i < |es| ==> es[i].count >= 0
    ensures forall k :: k in Merge(es) ==> Merge(es)[k] >= 0
  {
    if es != [] {
      var front := es[..|es| - 1];
      assert forall i :: 0 <= i < |front| ==> front[i] == es[i];
      MergeNonNegative(front);
    }
  }

  /** The sum per identifier does not depend on the order of the contributions. */
  lemma {:induction false} SumForPermutation(a: seq<Entry>, b: seq<Entry>, name: string)
    requires multiset(a) == multiset(b)
    ensures SumFor(a, name) == SumFor(b, name)
  {
    if a == [] {
      assert |b| == |multiset(b)| == 0;
    } else {
      var p, e := a[..|a| - 1], a[|a| - 1];
      assert a == p + [e];
      assert e in multiset(b);
      var j :| 0 <= j < |b| && b[j] == e;
      var rest := b[..j] + b[j + 1..];
      assert b == b[..j] + [e] + b[j + 1..];
      assert multiset(b) == multiset(b[..j]) + multiset{e} + multiset(b[j + 1..]);
      assert multiset(a) == multiset(p) + multiset{e};
      assert multiset(rest) == multiset(b[..j]) + multiset(b[j + 1..]);
      assert multiset(rest) == multiset(b) - multiset{e};
      assert multiset(rest) == multiset(p);
      SumForPermutation(p, rest, name);
      SumForAppend(b[..j] + [e], b[j + 1..], name);
      SumForAppend(b[..j], [e], name);
      SumForAppend(b[..j], b[j + 1..], name);
      assert SumFor([e], name) == SumFor([] + [e], name);
    }
  }

  /** The merged counts do not depend on the order of the contributions. */
  lemma MergePermutation(a: seq<Entry>, b: seq<Entry>)
    requires multiset(a) == multiset(b)
    ensures Merge(a) == Merge(b)
  {
    assert forall e :: e in a <==> e in multiset(a);
    assert forall e :: e in b <==> e in multiset(b);
    assert Names(a) == Names(b);
    MergeSumsPerName(a);
    MergeSumsPerName(b);
    forall k | k in Merge(a)
      ensures Merge(a)[k] == Merge(b)[k]
    {
      SumForPermutation(a, b, k);
    }
  }

  lemma TwoOccurrences(s: seq<Entry>, i: int, j: int)
    requires 0 <= i < j < |s| && s[i] == s[j]
    ensures multiset(s)[s[i]] >= 2
  {
    assert s == s[..j] + [s[j]] + s[j + 1..];
    assert s[i] in s[..j];
  }

  /** A published list holds each row of the map exactly once: every entry is
      a row of the map, every key of the map has an entry, and no identifier
      appears twice. */
  lemma PublishesExactly(es: seq<Entry>, m: map<string, int>)
    requires Publishes(es, m)
    ensures forall i :: 0 <= i < |es| ==> es[i].methodName in m && m[es[i].methodName] == es[i].count
    ensures Names(es) == m.Keys
    ensures DistinctNames(es)
  {
    forall i | 0 <= i < |es|
      ensures es[i].methodName in m && m[es[i].methodName] == es[i].count
    {
      assert es[i] in multiset(es);
    }
    forall k | k in m
      ensures k in Names(es)
    {
      assert Entry(k, m[k]) in multiset(Items(m));
      assert Entry(k, m[k]) in es;
    }
    forall i, j | 0 <= i < j < |es|
      ensures es[i].methodName != es[j].methodName
    {
      if es[i].methodName == es[j].methodName {
        assert es[i] == es[j];
        TwoOccurrences(es, i, j);
        assert false;
      }
    }
  }

  /**
   * The published table, against the contributions it was reduced from: one
   * row per distinct identifier, its count the sum of that identifier's
   * contributions; without `keepAll` only rows with count 0 and all of them,
   * with `keepAll` all of them.
   */
  lemma PublishedTable(es: seq<Entry>, keepAll: bool, contributions: seq<Entry>)
    requires Publishes(es, Surviving(keepAll, Merge(contributions)))
    ensures DistinctNames(es)
    ensures forall i :: 0 <= i < |es| ==>
      es[i].methodName in Names(contributions) && es[i].count == SumFor(contributions, es[i].methodName)
    ensures !keepAll ==> forall i :: 0 <= i < |es| ==> es[i].count == 0
    ensures forall k :: k in Names(contributions) && (keepAll || SumFor(contributions, k) == 0) ==> k in Names(es)
  {
    MergeSumsPerName(contributions);
    PublishesExactly(es, Surviving(keepAll, Merge(contributions)));
  }

  /** Inserting `e` after every entry not above it and before the first
      entry above it keeps the list sorted by name (and keeps equal names in
      their order of insertion). */
  lemma InsertSortedByName(es: seq<Entry>, k: int, e: Entry)
    requires SortedByName(es) && 0 <= k <= |es|
    requires forall j :: 0 <= j < k ==> NameLe(es[j].methodName, e.methodName)
    requires k < |es| ==> !NameLe(es[k].methodName, e.methodName)
    ensures SortedByName(es[..k] + [e] + es[k..])
  {
    var r := es[..k] + [e] + es[k..];
    forall j | k <= j < |es|
      ensures NameLe(e.methodName, es[j].methodName)
    {
      CompareToAntisymmetric(es[k].methodName, e.methodName);
      if j > k {
        NameLeTransitive(e.methodName, es[k].methodName, es[j].methodName);
      }
    }
    forall a, b | 0 <= a < b < |r|
      ensures NameLe(r[a].methodName, r[b].methodName)
    {
      if b < k {
        assert r[a] == es[a] && r[b] == es[b];
      } else if b == k {
        assert r[a] == es[a] && r[b] == e;
      } else if a == k {
        assert r[b] == es[b - 1];
      } else if a < k {
        assert r[a] == es[a] && r[b] == es[b - 1];
      } else {
        assert r[a] == es[a - 1] && r[b] == es[b - 1];
      }
    }
  }

  /** The same for the order by count. */
  lemma InsertSortedByCount(es: seq<Entry>, k: int, e: Entry)
    requires SortedByCount(es) && 0 <= k <= |es|
    requires forall j :: 0 <= j < k ==> es[j].count <= e.count
    requires k < |es| ==> e.count < es[k].count
    ensures SortedByCount(es[..k] + [e] + es[k..])
  {
    var r := es[..k] + [e] + es[k..];
    forall a, b | 0 <= a < b < |r|
      ensures r[a].count <= r[b].count
    {
      if b < k {
        assert r[a] == es[a] && r[b] == es[b];
      } else if b == k {
        assert r[a] == es[a] && r[b] == e;
      } else if a == k {
        assert r[b] == es[b - 1];
      } else if a < k {
        assert r[a] == es[a] && r[b] == es[b - 1];
      } else {
        assert r[a] == es[a - 1] && r[b] == es[b - 1];
      }
    }
  }
}
