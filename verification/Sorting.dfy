/** Go's string order, and what sorting by a strict order determines. */
module Sorting {
  predicate Distinct<T(==)>(s: seq<T>) { forall i, j :: 0 <= i < j < |s| ==> s[i] != s[j] }

  /** Code points in turn; a proper prefix comes first. */
  predicate StringLess(a: string, b: string)
  {
    b != "" && (a == "" || a[0] < b[0] || (a[0] == b[0] && StringLess(a[1..], b[1..])))
  }

  lemma {:induction false} StringOrder(a: string, b: string)
    ensures !StringLess(a, a)
    ensures StringLess(a, b) || StringLess(b, a) || a == b
    ensures !(StringLess(a, b) && StringLess(b, a))
    decreases a, b
  {
    if a != "" {
      StringOrder(a[1..], a[1..]);
    }
    if a != "" && b != "" {
      StringOrder(a[1..], b[1..]);
      assert a == [a[0]] + a[1..] && b == [b[0]] + b[1..];
    }
  }

  lemma {:induction false} StringTransitive(a: string, b: string, c: string)
    requires StringLess(a, b) && StringLess(b, c)
    ensures StringLess(a, c)
    decreases a
  {
    if a != "" && a[0] == b[0] && b[0] == c[0] {
      StringTransitive(a[1..], b[1..], c[1..]);
    }
  }

  ghost predicate StrictOrder<T(!new)>(less: (T, T) -> bool)
  {
    (forall x: T :: !less(x, x)) &&
    (forall x: T, y: T :: less(x, y) || less(y, x) || x == y) &&
    (forall x: T, y: T, z: T :: less(x, y) && less(y, z) ==> less(x, z))
  }

  function Insert<T>(less: (T, T) -> bool, x: T, s: seq<T>): seq<T>
  {
    if s == [] || less(x, s[0]) then [x] + s else [s[0]] + Insert(less, x, s[1..])
  }

  function Sorted<T>(less: (T, T) -> bool, s: seq<T>): seq<T>
  {
    if s == [] then [] else Insert(less, s[0], Sorted(less, s[1..]))
  }

  /** No element comes before a smaller one. */
  predicate InOrder<T>(less: (T, T) -> bool, s: seq<T>)
  {
    forall i, j :: 0 <= i < j < |s| ==> !less(s[j], s[i])
  }

  lemma {:induction false} InsertKeeps<T(!new)>(less: (T, T) -> bool, x: T, s: seq<T>)
    requires StrictOrder(less) && InOrder(less, s)
    ensures multiset(Insert(less, x, s)) == multiset{x} + multiset(s)
    ensures InOrder(less, Insert(less, x, s))
    ensures |Insert(less, x, s)| == |s| + 1
  {
    if s == [] {
    } else if less(x, s[0]) {
      assert s == [s[0]] + s[1..];
      var r := [x] + s;
      forall i, j | 0 <= i < j < |r| ensures !less(r[j], r[i]) {
        assert i == 0 && j > 1 ==> !less(s[j - 1], s[0]);
      }
    } else {
      assert s == [s[0]] + s[1..];
      InsertKeeps(less, x, s[1..]);
      var rest := Insert(less, x, s[1..]);
      var r := [s[0]] + rest;
      forall i, j | 0 <= i < j < |r| ensures !less(r[j], r[i]) {
        if i == 0 {
          assert rest[j - 1] in multiset(rest);
          assert rest[j - 1] == x || rest[j - 1] in s[1..];
        }
      }
    }
  }

  /** Sorting keeps the elements and puts them in order. */
  lemma {:induction false} SortedSorts<T(!new)>(less: (T, T) -> bool, s: seq<T>)
    requires StrictOrder(less)
    ensures multiset(Sorted(less, s)) == multiset(s) && InOrder(less, Sorted(less, s))
  {
    if s != [] {
      assert s == [s[0]] + s[1..];
      SortedSorts(less, s[1..]);
      InsertKeeps(less, s[0], Sorted(less, s[1..]));
    }
  }

  lemma FirstIsLeast<T(!new)>(less: (T, T) -> bool, s: seq<T>, t: seq<T>)
    requires StrictOrder(less) && InOrder(less, s) && InOrder(less, t)
    requires multiset(s) == multiset(t) && s != [] && t != []
    ensures s[0] == t[0]
  {
    assert s[0] in multiset(s) && t[0] in multiset(t);
    var i :| 0 <= i < |t| && t[i] == s[0];
    var j :| 0 <= j < |s| && s[j] == t[0];
    assert i > 0 ==> !less(t[i], t[0]);
    assert j > 0 ==> !less(s[j], s[0]);
  }

  lemma TailInOrder<T>(less: (T, T) -> bool, s: seq<T>)
    requires InOrder(less, s) && s != []
    ensures InOrder(less, s[1..])
  {
    forall i, j | 0 <= i < j < |s[1..]| ensures !less(s[1..][j], s[1..][i]) {
      assert s[1..][j] == s[j + 1] && s[1..][i] == s[i + 1];
    }
  }

  lemma TailElements<T>(s: seq<T>)
    requires s != []
    ensures multiset(s[1..]) == multiset(s) - multiset{s[0]}
  {
    assert s == [s[0]] + s[1..];
  }

  /** Only one arrangement of given elements is in order, whatever algorithm finds it. */
  lemma {:induction false} OrderIsUnique<T(!new)>(less: (T, T) -> bool, s: seq<T>, t: seq<T>)
    requires StrictOrder(less) && InOrder(less, s) && InOrder(less, t) && multiset(s) == multiset(t)
    ensures s == t
  {
    hide StrictOrder, InOrder;
    assert |multiset(s)| == |s| && |multiset(t)| == |t|;
    if s != [] {
      FirstIsLeast(less, s, t);
      TailInOrder(less, s);
      TailInOrder(less, t);
      TailElements(s);
      TailElements(t);
      OrderIsUnique(less, s[1..], t[1..]);
      assert s == [s[0]] + s[1..] && t == [t[0]] + t[1..];
    }
  }

  /** Strings agree up to place k, where the first ends or has the smaller character. */
  predicate LessAt(a: string, b: string, k: int)
  {
    0 <= k <= |a| && k < |b| && a[..k] == b[..k] && (k == |a| || a[k] < b[k])
  }

  lemma DifferAtFirst(a: string, b: string, k: int)
    requires LessAt(a, b, k)
    ensures k == 0 || (a != "" && b != "" && a[0] == b[0])
  {
    if k > 0 {
      assert a[..k][0] == b[..k][0];
    }
  }

  /** One string is less than another exactly when it is a proper prefix, or has the smaller
      character where they first differ. */
  lemma {:induction false} StringLessExactly(a: string, b: string)
    ensures StringLess(a, b) <==> exists k :: LessAt(a, b, k)
    decreases a
  {
    if a == "" || b == "" || a[0] != b[0] {
      forall k | LessAt(a, b, k) ensures k == 0 { DifferAtFirst(a, b, k); }
      if StringLess(a, b) {
        assert LessAt(a, b, 0);
      }
    } else {
      StringLessExactly(a[1..], b[1..]);
      if k :| LessAt(a[1..], b[1..], k) {
        assert a[..k + 1] == [a[0]] + a[1..][..k] && b[..k + 1] == [b[0]] + b[1..][..k];
        assert LessAt(a, b, k + 1);
      }
      if k :| LessAt(a, b, k) {
        assert k > 0;
        assert a[1..][..k - 1] == a[..k][1..] && b[1..][..k - 1] == b[..k][1..];
        assert LessAt(a[1..], b[1..], k - 1);
      }
    }
  }
}
