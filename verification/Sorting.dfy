/**
 Go's string order and `sort.Strings` / `sort.Slice`, as far as the repository relies on them:
 the result is a permutation without inversions.
 */
module Sorting {

  /**
   Go compares strings position by position; a proper prefix comes first. Go's positions are bytes, these are
   characters: on valid UTF-8, which is how ids are read here, byte order and character order are the same.
   */
  predicate Less(a: string, b: string) {
    b != [] && (a == [] || a[0] < b[0] || (a[0] == b[0] && Less(a[1..], b[1..])))
  }

  lemma {:induction false} LessIrreflexive(a: string)
    ensures !Less(a, a)
  {
    if a != [] {
      LessIrreflexive(a[1..]);
    }
  }

  lemma {:induction false} LessTransitive(a: string, b: string, c: string)
    requires Less(a, b) && Less(b, c)
    ensures Less(a, c)
  {
    if a != [] && a[0] == b[0] == c[0] {
      LessTransitive(a[1..], b[1..], c[1..]);
    }
  }

  lemma {:induction false} LessTotal(a: string, b: string)
    ensures a == b || Less(a, b) || Less(b, a)
  {
    if a != [] && b != [] && a[0] == b[0] {
      LessTotal(a[1..], b[1..]);
      assert a == [a[0]] + a[1..] && b == [b[0]] + b[1..];
    }
  }

  ghost predicate StrictWeakOrder<T(!new)>(less: (T, T) -> bool) {
    && (forall x :: !less(x, x))
    && (forall x, y, z :: less(x, y) && less(y, z) ==> less(x, z))
    && (forall x, y, z :: less(x, z) ==> less(x, y) || less(y, z))
  }

  lemma {:induction false} LessIsOrder()
    ensures StrictWeakOrder(Less)
  {
    forall x: string ensures !Less(x, x) { LessIrreflexive(x); }
    forall x: string, y: string, z: string ensures Less(x, y) && Less(y, z) ==> Less(x, z) {
      if Less(x, y) && Less(y, z) { LessTransitive(x, y, z); }
    }
    forall x: string, y: string, z: string ensures Less(x, z) ==> Less(x, y) || Less(y, z) {
      LessTotal(x, y);
      LessTotal(y, z);
      if Less(y, x) && Less(x, z) { LessTransitive(y, x, z); }
    }
  }

  ghost predicate TotalOrder<T(!new)>(less: (T, T) -> bool) {
    StrictWeakOrder(less) && forall x, y :: x == y || less(x, y) || less(y, x)
  }

  lemma {:induction false} StringOrder()
    ensures TotalOrder(Less)
  {
    LessIsOrder();
    forall x: string, y: string ensures x == y || Less(x, y) || Less(y, x) { LessTotal(x, y); }
  }

  ghost predicate Ordered<T>(less: (T, T) -> bool, s: seq<T>) {
    forall i, j :: 0 <= i < j < |s| ==> !less(s[j], s[i])
  }

  function Insert<T>(less: (T, T) -> bool, x: T, s: seq<T>): (r: seq<T>)
    ensures multiset(r) == multiset(s) + multiset{x}
    ensures |r| == |s| + 1
  {
    if s == [] then [x]
    else if less(s[0], x) then
      assert s == [s[0]] + s[1..];
      [s[0]] + Insert(less, x, s[1..])
    else [x] + s
  }

  function SortBy<T>(less: (T, T) -> bool, s: seq<T>): (r: seq<T>)
    ensures multiset(r) == multiset(s)
    ensures |r| == |s|
  {
    if s == [] then []
    else
      assert s == [s[0]] + s[1..];
      Insert(less, s[0], SortBy(less, s[1..]))
  }

  lemma {:induction false} SameElements<T>(r: seq<T>, s: seq<T>)
    requires multiset(r) == multiset(s)
    ensures forall x :: x in r <==> x in s
  {
    forall x ensures x in r <==> x in s {
      assert x in multiset(r) <==> x in r;
      assert x in multiset(s) <==> x in s;
    }
  }

  lemma {:induction false} InsertOrdered<T(!new)>(less: (T, T) -> bool, x: T, s: seq<T>)
    requires StrictWeakOrder(less) && Ordered(less, s)
    ensures Ordered(less, Insert(less, x, s))
  {
    if s != [] && less(s[0], x) {
      InsertOrdered(less, x, s[1..]);
      var rest := Insert(less, x, s[1..]);
      forall j | 0 <= j < |rest| ensures !less(rest[j], s[0]) {
        assert rest[j] in multiset(rest);
        assert rest[j] == x || rest[j] in s[1..];
      }
    } else if s != [] {
      forall j | 0 <= j < |s| ensures !less(s[j], x) {
        assert j == 0 || !less(s[j], s[0]);
      }
    }
  }

  lemma {:induction false} SortOrdered<T(!new)>(less: (T, T) -> bool, s: seq<T>)
    requires StrictWeakOrder(less)
    ensures Ordered(less, SortBy(less, s))
  {
    if s != [] {
      SortOrdered(less, s[1..]);
      InsertOrdered(less, s[0], SortBy(less, s[1..]));
    }
  }
}
