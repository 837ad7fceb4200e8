/** Removal of duplicate reading-plan items from a CSV table.

    The table is read as a header of field names and a list of rows, each row
    a dictionary from field name to cell text. Two rows are duplicates when
    they agree on the key (`reading_plan_id`, `day_number`, `chapter_number`).
    The first row of each key is kept whole, later ones are skipped, the
    header is written back unchanged and the number of kept rows is reported.
    Looking up a key column that a row lacks stops the run with a key error;
    an input without even a header line has no field names, and writing the
    header back then fails. */
module DedupRows {
  import opened Results

  /** One CSV row: field name to cell text. */
  type Row = map<string, string>

  const PlanIdColumn: string := "reading_plan_id"
  const DayColumn: string := "day_number"
  const ChapterColumn: string := "chapter_number"

  /** The duplicate-detection key of a row. */
  datatype Key = Key(planId: string, day: string, chapter: string)

  /** The input or output table: its field names (absent for an empty file) and rows. */
  datatype Table = Table(fieldnames: Option<seq<string>>, rows: seq<Row>)

  /** The field names of a header, as a set. */
  function HeaderFields(names: seq<string>): set<string>
  {
    set f | f in names
  }

  /** A table as the CSV dictionary reader delivers it: a file without a
      header line has no rows, and every row has exactly the header's fields
      (a short row is padded, so no field is ever missing). */
  predicate WellFormed(t: Table)
  {
    match t.fieldnames
    case None => t.rows == []
    case Some(names) => forall i :: 0 <= i < |t.rows| ==> t.rows[i].Keys == HeaderFields(names)
  }

  /** What a successful run produces: the table written and the count reported. */
  datatype Report = Report(table: Table, uniqueCount: nat)

  datatype DedupError =
    | MissingColumn(column: string)   // a row lacks one of the key columns
    | NoFieldnames                    // the input had no header line

  /** The row has all three key columns. */
  predicate Keyed(r: Row)
  {
    PlanIdColumn in r && DayColumn in r && ChapterColumn in r
  }

  function KeyOf(r: Row): Key
    requires Keyed(r)
  {
    Key(r[PlanIdColumn], r[DayColumn], r[ChapterColumn])
  }

  /** The key columns in the order the key is built from them. */
  const KeyColumns: seq<string> := [PlanIdColumn, DayColumn, ChapterColumn]

  /** The position in `KeyColumns` of the column whose lookup fails first:
      absent from the row, with every earlier key column present. */
  function FirstMissing(r: Row): (c: nat)
    requires !Keyed(r)
    ensures c < |KeyColumns| && KeyColumns[c] !in r
    ensures forall l :: 0 <= l < c ==> KeyColumns[l] in r
  {
    if PlanIdColumn !in r then 0
    else if DayColumn !in r then 1
    else 2
  }

  predicate AllKeyed(rows: seq<Row>)
  {
    forall i :: 0 <= i < |rows| ==> Keyed(rows[i])
  }

  /** The position of the first row that lacks a key column. */
  function FirstUnkeyed(rows: seq<Row>): (i: nat)
    requires !AllKeyed(rows)
    ensures i < |rows| && !Keyed(rows[i])
    ensures forall j :: 0 <= j < i ==> Keyed(rows[j])
  {
    if !Keyed(rows[0]) then 0
    else
      assert !AllKeyed(rows[1..]) by {
        var i :| 0 <= i < |rows| && !Keyed(rows[i]);
        assert rows[1..][i - 1] == rows[i];
      }
      var i := FirstUnkeyed(rows[1..]);
      assert forall j :: 0 < j < i + 1 ==> rows[j] == rows[1..][j - 1];
      i + 1
  }

  /** The set of keys that occur in `rows`. */
  function KeySet(rows: seq<Row>): set<Key>
    requires AllKeyed(rows)
  {
    if |rows| == 0 then {}
    else KeySet(rows[..|rows| - 1]) + {KeyOf(rows[|rows| - 1])}
  }

  /** No two rows share a key. */
  predicate UniqueKeys(rows: seq<Row>)
  {
    AllKeyed(rows) && forall a, b :: 0 <= a < b < |rows| ==> KeyOf(rows[a]) != KeyOf(rows[b])
  }

  /** Row `i` is the first row with its key. */
  predicate IsFirst(rows: seq<Row>, i: nat)
    requires AllKeyed(rows) && i < |rows|
  {
    forall j :: 0 <= j < i ==> KeyOf(rows[j]) != KeyOf(rows[i])
  }

  /** The rows that are the first of their key, in input order: the reference
      definition of what deduplication keeps. */
  function Firsts(rows: seq<Row>): (kept: seq<Row>)
    requires AllKeyed(rows)
    ensures AllKeyed(kept) && |kept| <= |rows|
  {
    if |rows| == 0 then []
    else
      var n := |rows| - 1;
      Firsts(rows[..n]) + (if IsFirst(rows, n) then [rows[n]] else [])
  }

  /** The first row with key `k`, scanning from the start. */
  function FirstWithKey(rows: seq<Row>, k: Key): Option<Row>
    requires AllKeyed(rows)
  {
    if |rows| == 0 then None
    else if KeyOf(rows[0]) == k then Some(rows[0])
    else FirstWithKey(rows[1..], k)
  }

  /** `a` is obtained from `b` by deleting elements, the rest kept whole and in order. */
  predicate Subsequence(a: seq<Row>, b: seq<Row>)
    decreases |b|
  {
    if |a| == 0 then true
    else if |b| == 0 then false
    else if a[|a| - 1] == b[|b| - 1] then Subsequence(a[..|a| - 1], b[..|b| - 1])
    else Subsequence(a, b[..|b| - 1])
  }

  /** What a run produces from table `t`. */
  function Dedup(t: Table): (res: Result<Report, DedupError>)
  {
    if !AllKeyed(t.rows) then Err(MissingColumn(KeyColumns[FirstMissing(t.rows[FirstUnkeyed(t.rows)])]))
    else if t.fieldnames.None? then Err(NoFieldnames)
    else
      var kept := Firsts(t.rows);
      Ok(Report(Table(t.fieldnames, kept), |kept|))
  }

  /** The deduplication loop: one pass over the rows with a set of the keys
      seen so far. */
  method Deduplicate(t: Table) returns (res: Result<Report, DedupError>)
    ensures res == Dedup(t)
    ensures res.Err? <==> !AllKeyed(t.rows) || t.fieldnames.None?
    ensures res.Ok? ==> res.value.table.fieldnames == t.fieldnames
    ensures res.Ok? ==> UniqueKeys(res.value.table.rows)
    ensures res.Ok? ==> Subsequence(res.value.table.rows, t.rows)
    ensures res.Ok? ==> KeySet(res.value.table.rows) == KeySet(t.rows)
    ensures res.Ok? ==> res.value.uniqueCount == |KeySet(t.rows)|
  {
    var seen: set<Key> := {};
    var kept: seq<Row> := [];
    var i := 0;
    while i < |t.rows|
      invariant 0 <= i <= |t.rows|
      invariant AllKeyed(t.rows[..i])
      invariant seen == KeySet(t.rows[..i])
      invariant kept == Firsts(t.rows[..i])
    {
      var r := t.rows[i];
      if !Keyed(r) {
        assert !AllKeyed(t.rows);
        var f := FirstUnkeyed(t.rows);
        assert f == i;
        return Err(MissingColumn(KeyColumns[FirstMissing(r)]));
      }
      var key := KeyOf(r);
      var prefix := t.rows[..i + 1];
      assert prefix[..i] == t.rows[..i];
      FirstIffUnseen(prefix);
      if key !in seen {
        seen := seen + {key};
        kept := kept + [r];
      }
      i := i + 1;
    }
    assert t.rows[..i] == t.rows;
    if t.fieldnames.None? {
      return Err(NoFieldnames);
    }
    FirstsUnique(t.rows);
    FirstsSubsequence(t.rows);
    FirstsKeys(t.rows);
    FirstsCount(t.rows);
    res := Ok(Report(Table(t.fieldnames, kept), |kept|));
  }

  // ---------------------------------------------------------------------
  // Errors on tables the reader delivers

  /** On a table the reader delivers, the errors depend on the header alone.
      Writing the header back fails exactly for a file without a header line.
      The key error is raised exactly when there is at least one row and the
      header lacks a key column, and it names the first key column, in key
      order, that the header lacks. */
  lemma ReaderErrors(t: Table, c: string)
    requires WellFormed(t)
    ensures Dedup(t) == Err(NoFieldnames) <==> t.fieldnames.None?
    ensures Dedup(t) == Err(MissingColumn(c)) <==>
      && |t.rows| > 0
      && exists k :: 0 <= k < |KeyColumns| && KeyColumns[k] == c && c !in t.fieldnames.value
           && forall l :: 0 <= l < k ==> KeyColumns[l] in t.fieldnames.value
  {
  }

  // ---------------------------------------------------------------------
  // Keys seen so far

  lemma {:induction false} KeySetMembers(rows: seq<Row>, k: Key)
    requires AllKeyed(rows)
    ensures k in KeySet(rows) <==> exists j :: 0 <= j < |rows| && KeyOf(rows[j]) == k
  {
    if |rows| > 0 {
      var n := |rows| - 1;
      KeySetMembers(rows[..n], k);
      if k in KeySet(rows[..n]) {
        var j :| 0 <= j < n && KeyOf(rows[..n][j]) == k;
        assert KeyOf(rows[j]) == k;
      }
      if exists j :: 0 <= j < |rows| && KeyOf(rows[j]) == k {
        var j :| 0 <= j < |rows| && KeyOf(rows[j]) == k;
        if j < n {
          assert KeyOf(rows[..n][j]) == k;
        }
      }
    }
  }

  /** The last row is the first of its key exactly when its key was not seen before it. */
  lemma FirstIffUnseen(rows: seq<Row>)
    requires AllKeyed(rows) && |rows| > 0
    ensures AllKeyed(rows[..|rows| - 1])
    ensures IsFirst(rows, |rows| - 1) <==> KeyOf(rows[|rows| - 1]) !in KeySet(rows[..|rows| - 1])
  {
    var n := |rows| - 1;
    KeySetMembers(rows[..n], KeyOf(rows[n]));
    if !IsFirst(rows, n) {
      var j :| 0 <= j < n && KeyOf(rows[j]) == KeyOf(rows[n]);
      assert rows[..n][j] == rows[j];
    }
  }

  // ---------------------------------------------------------------------
  // Properties of the kept rows

  /** The kept rows are the input with rows deleted: order and every column are preserved. */
  lemma {:induction false} FirstsSubsequence(rows: seq<Row>)
    requires AllKeyed(rows)
    ensures Subsequence(Firsts(rows), rows)
  {
    if |rows| > 0 {
      var n := |rows| - 1;
      FirstsSubsequence(rows[..n]);
      assert rows[..n] == rows[..|rows| - 1];
      if IsFirst(rows, n) {
        var kept := Firsts(rows);
        assert kept[..|kept| - 1] == Firsts(rows[..n]);
      } else {
        assert Firsts(rows) == Firsts(rows[..n]);
        SubsequenceExtend(Firsts(rows[..n]), rows[..n], rows[n]);
        assert rows[..n] + [rows[n]] == rows;
      }
    }
  }

  lemma {:induction false} SubsequenceDropLast(a: seq<Row>, b: seq<Row>)
    requires |a| > 0 && Subsequence(a, b)
    ensures Subsequence(a[..|a| - 1], b)
    decreases |b|, 0
  {
    var m := |b| - 1;
    if a[|a| - 1] == b[m] {
      SubsequenceExtend(a[..|a| - 1], b[..m], b[m]);
      assert b[..m] + [b[m]] == b;
    } else {
      SubsequenceDropLast(a, b[..m]);
      SubsequenceExtend(a[..|a| - 1], b[..m], b[m]);
      assert b[..m] + [b[m]] == b;
    }
  }

  lemma {:induction false} SubsequenceExtend(a: seq<Row>, b: seq<Row>, x: Row)
    requires Subsequence(a, b)
    ensures Subsequence(a, b + [x])
    decreases |b|, 1
  {
    assert (b + [x])[..|b|] == b;
    if |a| > 0 && a[|a| - 1] == x {
      SubsequenceDropLast(a, b);
    }
  }

  /** No two kept rows share a key. */
  lemma {:induction false} FirstsUnique(rows: seq<Row>)
    requires AllKeyed(rows)
    ensures UniqueKeys(Firsts(rows))
  {
    if |rows| > 0 {
      var n := |rows| - 1;
      var prev := Firsts(rows[..n]);
      FirstsUnique(rows[..n]);
      if IsFirst(rows, n) {
        FirstIffUnseen(rows);
        FirstsKeys(rows[..n]);
        var kept := Firsts(rows);
        forall a | 0 <= a < |prev|
          ensures KeyOf(prev[a]) != KeyOf(rows[n])
        {
          KeySetMembers(prev, KeyOf(rows[n]));
        }
        assert kept == prev + [rows[n]];
      }
    }
  }

  /** Every key of the input is the key of some kept row, and no other key is. */
  lemma {:induction false} FirstsKeys(rows: seq<Row>)
    requires AllKeyed(rows)
    ensures KeySet(Firsts(rows)) == KeySet(rows)
  {
    if |rows| > 0 {
      var n := |rows| - 1;
      var prev := Firsts(rows[..n]);
      FirstsKeys(rows[..n]);
      FirstIffUnseen(rows);
      var kept := Firsts(rows);
      if IsFirst(rows, n) {
        assert kept == prev + [rows[n]];
        assert kept[..|kept| - 1] == prev;
        assert KeySet(kept) == KeySet(prev) + {KeyOf(rows[n])};
      } else {
        assert kept == prev;
      }
    }
  }

  /** The reported count is the number of distinct keys of the input. */
  lemma {:induction false} FirstsCount(rows: seq<Row>)
    requires AllKeyed(rows)
    ensures |Firsts(rows)| == |KeySet(rows)|
  {
    if |rows| > 0 {
      var n := |rows| - 1;
      var prev := Firsts(rows[..n]);
      var seen := KeySet(rows[..n]);
      FirstsCount(rows[..n]);
      FirstIffUnseen(rows);
      if IsFirst(rows, n) {
        assert Firsts(rows) == prev + [rows[n]];
        assert |seen + {KeyOf(rows[n])}| == |seen| + 1;
      } else {
        assert Firsts(rows) == prev;
        assert seen + {KeyOf(rows[n])} == seen;
      }
    }
  }

  lemma {:induction false} FirstWithKeyAppend(rows: seq<Row>, x: Row, k: Key)
    requires AllKeyed(rows) && Keyed(x)
    ensures AllKeyed(rows + [x])
    ensures FirstWithKey(rows + [x], k) ==
      if FirstWithKey(rows, k).Some? then FirstWithKey(rows, k)
      else if KeyOf(x) == k then Some(x)
      else None
  {
    if |rows| > 0 {
      assert (rows + [x])[1..] == rows[1..] + [x];
      FirstWithKeyAppend(rows[1..], x, k);
    }
  }

  lemma {:induction false} FirstWithKeyAbsent(rows: seq<Row>, k: Key)
    requires AllKeyed(rows)
    ensures FirstWithKey(rows, k).None? <==> k !in KeySet(rows)
  {
    if |rows| > 0 {
      var n := |rows| - 1;
      FirstWithKeyAbsent(rows[..n], k);
      FirstWithKeyAppend(rows[..n], rows[n], k);
      assert rows[..n] + [rows[n]] == rows;
    }
  }

  /** Each kept row is the first input row with its key. */
  lemma {:induction false} FirstsAreFirst(rows: seq<Row>)
    requires AllKeyed(rows)
    ensures forall k :: 0 <= k < |Firsts(rows)| ==>
      FirstWithKey(rows, KeyOf(Firsts(rows)[k])) == Some(Firsts(rows)[k])
  {
    if |rows| > 0 {
      var n := |rows| - 1;
      var prev := Firsts(rows[..n]);
      var kept := Firsts(rows);
      FirstsAreFirst(rows[..n]);
      assert rows[..n] + [rows[n]] == rows;
      assert kept == prev + (if IsFirst(rows, n) then [rows[n]] else []);
      forall k | 0 <= k < |kept|
        ensures FirstWithKey(rows, KeyOf(kept[k])) == Some(kept[k])
      {
        var key := KeyOf(kept[k]);
        FirstWithKeyAppend(rows[..n], rows[n], key);
        if k < |prev| {
          assert kept[k] == prev[k];
          assert FirstWithKey(rows[..n], key) == Some(prev[k]);
        } else {
          assert kept[k] == rows[n] && IsFirst(rows, n);
          FirstIffUnseen(rows);
          FirstWithKeyAbsent(rows[..n], key);
        }
      }
    }
  }

  /** An input without duplicate keys is kept as it is, and only such an input is. */
  lemma {:induction false} FirstsOfUnique(rows: seq<Row>)
    requires AllKeyed(rows)
    ensures Firsts(rows) == rows <==> UniqueKeys(rows)
  {
    if UniqueKeys(rows) {
      FirstsKeepsUnique(rows);
    }
    if Firsts(rows) == rows {
      FirstsUnique(rows);
    }
  }

  lemma {:induction false} FirstsKeepsUnique(rows: seq<Row>)
    requires UniqueKeys(rows)
    ensures Firsts(rows) == rows
  {
    if |rows| > 0 {
      var n := |rows| - 1;
      assert UniqueKeys(rows[..n]);
      FirstsKeepsUnique(rows[..n]);
      assert rows[..n] + [rows[n]] == rows;
    }
  }

  /** Deduplicating kept rows again changes nothing. */
  lemma {:induction false} FirstsIdempotent(rows: seq<Row>)
    requires AllKeyed(rows)
    ensures Firsts(Firsts(rows)) == Firsts(rows)
  {
    FirstsUnique(rows);
    FirstsKeepsUnique(Firsts(rows));
  }

  /** Running the deduplication on its own output reproduces that output. */
  lemma DedupIdempotent(t: Table)
    requires Dedup(t).Ok?
    ensures Dedup(Dedup(t).value.table) == Dedup(t)
  {
    FirstsIdempotent(t.rows);
  }
}
