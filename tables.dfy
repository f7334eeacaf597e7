/**
 * A database table with an AUTOINCREMENT integer primary key, as the
 * SQLite store gives each of Users, Projects and Tasks: the rows by key,
 * and the next key to hand out.
 */
module Tables {
  import opened Seqs

  datatype Table<T> = Table(rows: map<int, T>, nextId: int)

  function Empty<T>(): (t: Table<T>)
    ensures KeysBelowNext(t) && t.rows == map[]
  {
    Table(map[], 1)
  }

  /** Keys are handed out from 1 upward and never reused: every key lies below the counter. */
  predicate KeysBelowNext<T>(t: Table<T>) {
    1 <= t.nextId && forall k :: k in t.rows ==> 1 <= k < t.nextId
  }

  /** Appends a row under the next key and advances the counter. */
  function Add<T>(t: Table<T>, row: T): (r: Table<T>)
    requires KeysBelowNext(t)
    ensures KeysBelowNext(r) && t.nextId !in t.rows
    ensures r.rows.Keys == t.rows.Keys + {t.nextId}
    ensures r.rows[t.nextId] == row && r.nextId == t.nextId + 1
    ensures forall k :: k in t.rows ==> r.rows[k] == t.rows[k]
  {
    Table(t.rows[t.nextId := row], t.nextId + 1)
  }

  /** The rows with keys below `n`, in ascending key order: what a full scan of the table yields. */
  function Scan<T(!new)>(rows: map<int, T>, n: int): (r: seq<T>)
    ensures forall k :: 0 <= k < n && k in rows ==> rows[k] in r
    ensures forall x :: x in r ==> exists k :: 0 <= k < n && k in rows && rows[k] == x
    decreases n
  {
    if n <= 0 then [] else Scan(rows, n - 1) + (if n - 1 in rows then [rows[n - 1]] else [])
  }

  function Rows<T(!new)>(t: Table<T>): seq<T> {
    Scan(t.rows, t.nextId)
  }

  /** A scan sees exactly the table's rows. */
  lemma RowsAreValues<T(!new)>(t: Table<T>)
    requires KeysBelowNext(t)
    ensures forall x :: x in Rows(t) <==> x in t.rows.Values
  {
    forall x | x in t.rows.Values ensures x in Rows(t) {
      var k :| k in t.rows && t.rows[k] == x;
    }
  }

  /** Scanning past the last key adds nothing. */
  lemma {:induction false} ScanPastKeys<T(!new)>(rows: map<int, T>, n: int, m: int)
    requires n <= m
    requires forall k :: n <= k < m ==> k !in rows
    ensures Scan(rows, m) == Scan(rows, n)
    decreases m - n
  {
    if n < m {
      ScanPastKeys(rows, n, m - 1);
    }
  }

  /** When every row records its own key, a scan holds each row once. */
  lemma {:induction false} ScanNoDuplicates<T(!new)>(rows: map<int, T>, n: int, key: T -> int)
    requires forall k :: k in rows ==> key(rows[k]) == k
    ensures NoDuplicates(Scan(rows, n))
    decreases n
  {
    if n > 0 {
      ScanNoDuplicates(rows, n - 1, key);
      var prefix := Scan(rows, n - 1);
      if n - 1 in rows {
        assert rows[n - 1] !in prefix;
        assert multiset(Scan(rows, n)) == multiset(prefix) + multiset{rows[n - 1]};
      } else {
        assert Scan(rows, n) == prefix;
      }
    }
  }

  /** One more key scanned adds that row to a filtered scan exactly when it passes the filter. */
  lemma FilterScanStep<T(!new)>(rows: map<int, T>, p: T -> bool, n: int)
    requires n > 0
    ensures Filter(Scan(rows, n), p) == Filter(Scan(rows, n - 1), p) + KeptAt(rows, p, n - 1)
  {
    var last := if n - 1 in rows then [rows[n - 1]] else [];
    assert Scan(rows, n) == Scan(rows, n - 1) + last;
    FilterConcat(Scan(rows, n - 1), last, p);
    assert Filter(last, p) == KeptAt(rows, p, n - 1) by {
      if last != [] {
        assert last[1..] == [];
      }
    }
  }

  /** The row at key `k`, as a one-element sequence when it exists and passes `p`, else empty. */
  function KeptAt<T>(rows: map<int, T>, p: T -> bool, k: int): seq<T> {
    if k in rows && p(rows[k]) then [rows[k]] else []
  }

  /** The filtered scan built key by key, without going through `Filter`. */
  function ScanWhere<T>(rows: map<int, T>, p: T -> bool, n: int): seq<T>
    decreases n
  {
    if n <= 0 then [] else ScanWhere(rows, p, n - 1) + KeptAt(rows, p, n - 1)
  }

  /** Filtering a scan is the same as scanning only the rows that pass. */
  lemma {:induction false} ScanWhereIsFilter<T(!new)>(rows: map<int, T>, p: T -> bool, n: int)
    ensures Filter(Scan(rows, n), p) == ScanWhere(rows, p, n)
    decreases n
  {
    if n > 0 {
      calc {
        Filter(Scan(rows, n), p);
      == { FilterScanStep(rows, p, n); }
        Filter(Scan(rows, n - 1), p) + KeptAt(rows, p, n - 1);
      == { ScanWhereIsFilter(rows, p, n - 1); }
        ScanWhere(rows, p, n - 1) + KeptAt(rows, p, n - 1);
      }
    }
  }

  /** Key-by-key filtered scans agree when the tables agree on every kept row. */
  lemma {:induction false} ScanWhereAgree<T>(r1: map<int, T>, p1: T -> bool, r2: map<int, T>, p2: T -> bool, n: int)
    requires forall k :: 0 <= k < n ==> ((k in r1 && p1(r1[k])) <==> (k in r2 && p2(r2[k])))
    requires forall k :: 0 <= k < n && k in r1 && p1(r1[k]) ==> k in r2 && r1[k] == r2[k]
    ensures ScanWhere(r1, p1, n) == ScanWhere(r2, p2, n)
    decreases n
  {
    if n > 0 {
      ScanWhereAgree(r1, p1, r2, p2, n - 1);
      KeptRowAgrees(r1, p1, r2, p2, n - 1);
    }
  }

  /**
   * Two tables whose rows agree wherever either satisfies its filter
   * give the same filtered scan, whatever their other rows hold.
   */
  lemma FilterScanAgree<T(!new)>(r1: map<int, T>, p1: T -> bool, r2: map<int, T>, p2: T -> bool, n: int)
    requires forall k :: 0 <= k < n ==> ((k in r1 && p1(r1[k])) <==> (k in r2 && p2(r2[k])))
    requires forall k :: 0 <= k < n && k in r1 && p1(r1[k]) ==> k in r2 && r1[k] == r2[k]
    ensures Filter(Scan(r1, n), p1) == Filter(Scan(r2, n), p2)
  {
    ScanWhereAgree(r1, p1, r2, p2, n);
    ScanWhereIsFilter(r1, p1, n);
    ScanWhereIsFilter(r2, p2, n);
  }

  /** At one key, the filtered row (or its absence) is the same in two tables that agree there. */
  lemma KeptRowAgrees<T>(r1: map<int, T>, p1: T -> bool, r2: map<int, T>, p2: T -> bool, k: int)
    requires (k in r1 && p1(r1[k])) <==> (k in r2 && p2(r2[k]))
    requires k in r1 && p1(r1[k]) ==> k in r2 && r1[k] == r2[k]
    ensures KeptAt(r1, p1, k) == KeptAt(r2, p2, k)
  {
  }
}
