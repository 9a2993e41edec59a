/** Sorting by a strict order: the result is determined by the elements alone. */
module Orders {

  ghost predicate Sorted<T>(less: (T, T) -> bool, s: seq<T>) {
    forall i, j | 0 <= i < j < |s| :: less(s[i], s[j])
  }

  ghost predicate Asymmetric<T>(less: (T, T) -> bool, s: seq<T>) {
    forall x, y | x in s && y in s :: !(less(x, y) && less(y, x))
  }

  ghost predicate SameElements<T(!new)>(a: seq<T>, b: seq<T>) {
    forall x :: x in a <==> x in b
  }

  /** Two strictly sorted sequences of the same elements are the same sequence. */
  lemma {:induction false} SortedIsUnique<T(!new)>(less: (T, T) -> bool, a: seq<T>, b: seq<T>)
    requires Sorted(less, a) && Sorted(less, b)
    requires Asymmetric(less, a) && SameElements(a, b)
    ensures a == b
    decreases |a|
  {
    if a != [] && b != [] {
      assert a[0] in b && b[0] in a;
      assert a[0] == b[0];
      var a', b' := a[1..], b[1..];
      assert a == [a[0]] + a' && b == [b[0]] + b';
      forall x ensures x in a' <==> x in b' {
        assert a[0] !in a' && b[0] !in b';
        assert x in a' ==> x in a;
        assert x in b' ==> x in b;
      }
      SortedIsUnique(less, a', b');
    } else if b != [] {
      NotEmpty(b);
    } else if a != [] {
      NotEmpty(a);
    }
  }

  lemma NotEmpty<T>(s: seq<T>)
    requires s != []
    ensures exists x :: x in s
  {
    assert s[0] in s;
  }

  /** Puts x before the first element that is not less than it. */
  function InsertBy<T>(less: (T, T) -> bool, x: T, s: seq<T>): seq<T> {
    if s == [] || !less(s[0], x) then [x] + s else [s[0]] + InsertBy(less, x, s[1..])
  }

  /** A stable sort, as `slice::sort_by`. */
  function SortBy<T>(less: (T, T) -> bool, s: seq<T>): seq<T> {
    if s == [] then [] else InsertBy(less, s[0], SortBy(less, s[1..]))
  }

  /** A strict order that tells any two places of `s` apart. */
  ghost predicate StrictTotalOn<T>(less: (T, T) -> bool, s: seq<T>) {
    && Asymmetric(less, s)
    && (forall x, y, z | x in s && y in s && z in s && less(x, y) && less(y, z) :: less(x, z))
    && (forall i, j | 0 <= i < j < |s| :: less(s[i], s[j]) || less(s[j], s[i]))
  }

  lemma {:induction false} InsertBySorts<T(!new)>(less: (T, T) -> bool, x: T, s: seq<T>)
    requires Sorted(less, s)
    requires forall a, b, c | (a == x || a in s) && (b == x || b in s) && (c == x || c in s) ::
               less(a, b) && less(b, c) ==> less(a, c)
    requires forall y | y in s :: less(x, y) || less(y, x)
    ensures Sorted(less, InsertBy(less, x, s))
    ensures SameElements(InsertBy(less, x, s), [x] + s)
  {
    if s != [] && less(s[0], x) {
      var rest := s[1..];
      assert s == [s[0]] + rest;
      InsertBySorts(less, x, rest);
      var out := InsertBy(less, x, rest);
      forall j | 0 <= j < |out| ensures less(s[0], out[j]) {
        assert out[j] in [x] + rest;
      }
    } else if s != [] {
      assert s[0] in s;
      forall j | 0 <= j < |s| ensures less(x, s[j]) {
        assert s[j] in s;
        assert j > 0 ==> less(s[0], s[j]);
      }
    }
  }

  /** On distinct elements the result is sorted and has the same elements. */
  lemma {:induction false} SortBySorts<T(!new)>(less: (T, T) -> bool, s: seq<T>)
    requires StrictTotalOn(less, s)
    ensures Sorted(less, SortBy(less, s))
    ensures SameElements(SortBy(less, s), s)
  {
    if s == [] {
    } else {
      var rest := s[1..];
      assert s == [s[0]] + rest;
      SortBySorts(less, rest);
      InsertBySorts(less, s[0], SortBy(less, rest));
    }
  }
}
