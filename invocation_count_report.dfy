/**
 * `InvocationCountReport`: the data table the recipe fills. Its `Row` is a
 * small mutable record, a method identifier and a running count whose
 * `increment` methods change the count in place and return the same object.
 * The execution context's slot for this table is modelled by
 * `ExecutionContext`: absent until a first row is inserted.
 */
module InvocationCountReport {
  import opened Wrappers

  /** The value a row shows at one moment: its identifier and its count. */
  datatype Entry = Entry(methodName: string, count: int)

  class Row {
    const methodName: string
    var count: int

    /** `new Row(methodName)`: a row with count 0. */
    constructor (methodName: string)
      ensures this.methodName == methodName && count == 0
    {
      this.methodName := methodName;
      count := 0;
    }

    /** `increment()`: one more invocation; the result is this very row. */
    method Increment() returns (self: Row)
      modifies this`count
      ensures self == this
      ensures count == old(count) + 1
    {
      count := count + 1;
      self := this;
    }

    /** `increment(value)`: adds `value` to the count in place; the result is
        this very row, so whoever holds it sees the new count. */
    method IncrementBy(value: int) returns (self: Row)
      modifies this`count
      ensures self == this
      ensures count == old(count) + value
    {
      count := count + value;
      self := this;
    }
  }

  /** The current value of a row. */
  function EntryOf(r: Row): Entry
    reads r
  {
    Entry(r.methodName, r.count)
  }

  /** The current values of a list of rows, position by position. */
  function Entries(rows: seq<Row>): (es: seq<Entry>)
    reads rows
    ensures |es| == |rows|
    ensures forall i {:trigger es[i]} :: 0 <= i < |rows| ==> es[i] == EntryOf(rows[i])
  {
    seq(|rows|, i reads rows requires 0 <= i < |rows| => EntryOf(rows[i]))
  }

  lemma EntriesAppend(a: seq<Row>, b: seq<Row>)
    ensures Entries(a + b) == Entries(a) + Entries(b)
  {
    assert forall i :: 0 <= i < |a + b| ==> Entries(a + b)[i] == (Entries(a) + Entries(b))[i];
  }

  lemma EntriesInsert(s: seq<Row>, k: int, r: Row)
    requires 0 <= k <= |s|
    ensures Entries(s[..k] + [r] + s[k..]) == Entries(s)[..k] + [EntryOf(r)] + Entries(s)[k..]
  {
    var a, b := s[..k] + [r] + s[k..], Entries(s)[..k] + [EntryOf(r)] + Entries(s)[k..];
    forall i | 0 <= i < |a|
      ensures Entries(a)[i] == b[i]
    {
      if i < k { assert a[i] == s[i]; } else if i > k { assert a[i] == s[i - 1]; }
    }
  }

  /** No row object occurs twice in the list. */
  predicate Distinct(rows: seq<Row>)
  {
    forall i, j :: 0 <= i < j < |rows| ==> rows[i] != rows[j]
  }

  /** A list without repeated objects holds each object at most once. */
  lemma {:induction false} DistinctOnce(rows: seq<Row>, r: Row)
    requires Distinct(rows)
    ensures multiset(rows)[r] <= 1
  {
    if rows != [] {
      var front, last := rows[..|rows| - 1], rows[|rows| - 1];
      assert rows == front + [last];
      forall i, j | 0 <= i < j < |front|
        ensures front[i] != front[j]
      {
        assert front[i] == rows[i] && front[j] == rows[j];
      }
      DistinctOnce(front, r);
      forall i | 0 <= i < |front|
        ensures front[i] != last
      {
        assert front[i] == rows[i];
      }
    }
  }

  /** A permutation of a list without repeated objects has none either. */
  lemma DistinctPermutation(a: seq<Row>, b: seq<Row>)
    requires Distinct(a) && multiset(a) == multiset(b)
    ensures Distinct(b)
  {
    forall i, j | 0 <= i < j < |b|
      ensures b[i] != b[j]
    {
      DistinctOnce(a, b[i]);
      assert b == b[..j] + [b[j]] + b[j + 1..];
      assert b[i] in b[..j];
    }
  }

  /** One step of an insertion sort: putting the next row of `rows` anywhere
      into a permutation of the rows before it gives a permutation of one
      more row. */
  lemma InsertNext(rows: seq<Row>, i: int, sorted: seq<Row>, k: int)
    requires 0 <= i < |rows| && 0 <= k <= |sorted|
    requires multiset(sorted) == multiset(rows[..i])
    ensures multiset(sorted[..k] + [rows[i]] + sorted[k..]) == multiset(rows[..i + 1])
  {
    assert sorted == sorted[..k] + sorted[k..];
    assert rows[..i + 1] == rows[..i] + [rows[i]];
  }

  /** Taking the same row out of two equal multisets leaves equal ones. */
  lemma Cancel(p: multiset<Row>, q: multiset<Row>, r: Row)
    requires p + multiset{r} == q + multiset{r}
    ensures p == q
  {
    forall x
      ensures p[x] == q[x]
    {
      assert (p + multiset{r})[x] == (q + multiset{r})[x];
    }
  }

  /** The values of a list with one row taken out. */
  lemma EntriesRemove(b: seq<Row>, j: int)
    requires 0 <= j < |b|
    ensures multiset(Entries(b)) == multiset(Entries(b[..j] + b[j + 1..])) + multiset{EntryOf(b[j])}
  {
    var before, last, after := b[..j], b[j], b[j + 1..];
    assert b == before + [last] + after;
    EntriesAppend(before + [last], after);
    EntriesAppend(before, [last]);
    EntriesAppend(before, after);
    assert Entries([last]) == [EntryOf(last)];
  }

  /** Rearranging rows rearranges their values the same way. */
  lemma {:induction false} EntriesPermutation(a: seq<Row>, b: seq<Row>)
    requires multiset(a) == multiset(b)
    ensures multiset(Entries(a)) == multiset(Entries(b))
    decreases |a|
  {
    if a == [] {
      assert |multiset(b)| == 0;
    } else {
      var front, last := a[..|a| - 1], a[|a| - 1];
      assert a == front + [last];
      assert last in multiset(b);
      var j :| 0 <= j < |b| && b[j] == last;
      var rest := b[..j] + b[j + 1..];
      assert multiset(a) == multiset(front) + multiset{last};
      assert multiset(b) == multiset(rest) + multiset{last} by {
        assert b == b[..j] + [last] + b[j + 1..];
      }
      Cancel(multiset(front), multiset(rest), last);
      EntriesPermutation(front, rest);
      EntriesAppend(front, [last]);
      assert Entries([last]) == [EntryOf(last)];
      EntriesRemove(b, j);
    }
  }

  /** Rows with pairwise different identifiers are different objects. */
  lemma DistinctByName(rows: seq<Row>)
    requires forall i, j :: 0 <= i < j < |rows| ==> Entries(rows)[i].methodName != Entries(rows)[j].methodName
    ensures Distinct(rows)
  {
    forall i, j | 0 <= i < j < |rows|
      ensures rows[i] != rows[j]
    {
      assert Entries(rows)[i].methodName != Entries(rows)[j].methodName;
    }
  }

  /** The execution context's entry for this data table. */
  class ExecutionContext {
    var rows: Option<seq<Row>>

    /** A fresh run: no row has been inserted. */
    constructor ()
      ensures rows == None
    {
      rows := None;
    }

    /** Every inserted row is its own object. */
    predicate Valid()
      reads this
    {
      rows.Some? ==> Distinct(rows.value)
    }

    /** While rows are being inserted: the list, once created, is not empty. */
    predicate Accumulating()
      reads this
    {
      Valid() && (rows.Some? ==> rows.value != [])
    }

    /** The inserted rows, empty while the list does not exist. */
    function RowList(): seq<Row>
      reads this
    {
      if rows.Some? then rows.value else []
    }

    /** `DataTable.insertRow`: creates the list on first use, then appends. */
    method InsertRow(row: Row)
      modifies this
      ensures rows == Some(old(RowList()) + [row])
      ensures old(Valid()) && row !in old(RowList()) ==> Accumulating()
    {
      rows := Some(RowList() + [row]);
    }
  }
}
