/** The order in which the plan generator visits its input files.

    The generator lists the `*.json` files of one directory and sorts the
    resulting paths. All of them share the same parent directory, so comparing
    two paths comes down to comparing their file names. With POSIX paths, file
    names are compared code point by code point, a proper prefix coming first;
    that is the order modelled here. A directory entry is modelled as a pair of
    its file name and its contents. */
module NameOrder {

  /** `a` sorts no later than `b`: the lexicographic order on code points. */
  predicate Le(a: string, b: string)
  {
    |a| == 0 || (|b| > 0 && (a[0] < b[0] || (a[0] == b[0] && Le(a[1..], b[1..]))))
  }

  /** `a` sorts strictly before `b`. */
  predicate Lt(a: string, b: string)
  {
    Le(a, b) && a != b
  }

  lemma {:induction false} LeReflexive(a: string)
    ensures Le(a, a)
  {
    if |a| > 0 {
      LeReflexive(a[1..]);
    }
  }

  /** The strict order is the complement of the reversed non-strict one:
      `a` sorts strictly before `b` exactly when `b` does not sort no later than `a`. */
  lemma {:induction false} LtIffNotLe(a: string, b: string)
    ensures Lt(a, b) <==> !Le(b, a)
  {
    LeTotal(a, b);
    LeReflexive(a);
    if Le(a, b) && Le(b, a) {
      LeAntisymmetric(a, b);
    }
  }

  lemma {:induction false} LeTotal(a: string, b: string)
    ensures Le(a, b) || Le(b, a)
  {
    if |a| > 0 && |b| > 0 && a[0] == b[0] {
      LeTotal(a[1..], b[1..]);
    }
  }

  lemma {:induction false} LeAntisymmetric(a: string, b: string)
    requires Le(a, b) && Le(b, a)
    ensures a == b
  {
    if |a| > 0 {
      LeAntisymmetric(a[1..], b[1..]);
      assert a == [a[0]] + a[1..];
      assert b == [b[0]] + b[1..];
    }
  }

  lemma {:induction false} LeTransitive(a: string, b: string, c: string)
    requires Le(a, b) && Le(b, c)
    ensures Le(a, c)
  {
    if |a| > 0 && a[0] == b[0] && b[0] == c[0] {
      LeTransitive(a[1..], b[1..], c[1..]);
    }
  }

  /** Entries are in ascending order of their names. */
  predicate Sorted<T>(s: seq<(string, T)>)
  {
    forall i, j :: 0 <= i < j < |s| ==> Le(s[i].0, s[j].0)
  }

  /** Places `e` into the sorted sequence `s` after every entry whose name
      sorts strictly before it. */
  function Insert<T>(e: (string, T), s: seq<(string, T)>): (r: seq<(string, T)>)
    requires Sorted(s)
    ensures Sorted(r)
    ensures multiset(r) == multiset(s) + multiset{e}
    decreases |s|
  {
    if |s| == 0 then [e]
    else if Le(e.0, s[0].0) then
      InsertFront(e, s);
      [e] + s
    else
      LeTotal(e.0, s[0].0);
      var rest := Insert(e, s[1..]);
      InsertBehind(e, s, rest);
      assert s == [s[0]] + s[1..];
      [s[0]] + rest
  }

  lemma InsertFront<T>(e: (string, T), s: seq<(string, T)>)
    requires Sorted(s) && |s| > 0 && Le(e.0, s[0].0)
    ensures Sorted([e] + s)
  {
    forall j | 0 <= j < |s|
      ensures Le(e.0, s[j].0)
    {
      if j > 0 {
        LeTransitive(e.0, s[0].0, s[j].0);
      }
    }
  }

  lemma InsertBehind<T>(e: (string, T), s: seq<(string, T)>, rest: seq<(string, T)>)
    requires Sorted(s) && |s| > 0 && Le(s[0].0, e.0)
    requires Sorted(rest) && multiset(rest) == multiset(s[1..]) + multiset{e}
    ensures Sorted([s[0]] + rest)
  {
    forall k | 0 <= k < |rest|
      ensures Le(s[0].0, rest[k].0)
    {
      assert rest[k] in multiset(rest);
      if rest[k] != e {
        assert rest[k] in s[1..];
        var j :| 0 <= j < |s[1..]| && s[1..][j] == rest[k];
        assert s[j + 1] == rest[k];
      }
    }
  }

  /** The directory listing sorted by file name, as `sorted` does it. */
  function SortByName<T>(s: seq<(string, T)>): (r: seq<(string, T)>)
    ensures Sorted(r)
    ensures multiset(r) == multiset(s)
    ensures |r| == |s|
    decreases |s|
  {
    if |s| == 0 then []
    else
      var r := Insert(s[0], SortByName(s[1..]));
      assert s == [s[0]] + s[1..];
      r
  }

  /** In a sorted listing, an entry whose name sorts strictly before another
      entry's name stands before it. */
  lemma SortedPrecedence<T>(s: seq<(string, T)>, x: nat, y: nat)
    requires Sorted(s) && x < |s| && y < |s|
    requires Lt(s[x].0, s[y].0)
    ensures x < y
  {
    if y <= x {
      if y < x {
        LeAntisymmetric(s[x].0, s[y].0);
      }
    }
  }
}
