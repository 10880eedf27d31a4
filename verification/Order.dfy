/** Strict total orders, lists sorted by them without repetition, and the lexicographic order of strings. */
module Order {

  ghost predicate StrictTotal<T(!new)>(less: (T, T) -> bool) {
    && (forall x :: !less(x, x))
    && (forall x, y, z :: less(x, y) && less(y, z) ==> less(x, z))
    && (forall x, y :: less(x, y) || less(y, x) || x == y)
  }

  ghost predicate Ascending<T>(less: (T, T) -> bool, s: seq<T>) {
    forall i, j | 0 <= i < j < |s| :: less(s[i], s[j])
  }

  ghost predicate SameElements<T(!new)>(a: seq<T>, b: seq<T>) {
    forall x :: x in a <==> x in b
  }

  /** Put an element into its place in an ascending list, unless it is there. */
  function Insert<T(==)>(less: (T, T) -> bool, x: T, s: seq<T>): seq<T> {
    if s == [] then [x]
    else if less(x, s[0]) then [x] + s
    else if x == s[0] then s
    else [s[0]] + Insert(less, x, s[1..])
  }

  /** Sort and drop repetitions. */
  function SortDedup<T(==)>(less: (T, T) -> bool, items: seq<T>): seq<T> {
    if items == [] then [] else Insert(less, items[0], SortDedup(less, items[1..]))
  }

  lemma {:induction false} InsertElements<T(!new)>(less: (T, T) -> bool, x: T, s: seq<T>)
    ensures forall y :: y in Insert(less, x, s) <==> y == x || y in s
  {
    if s != [] && !less(x, s[0]) && x != s[0] {
      InsertElements(less, x, s[1..]);
      assert forall y :: y in s <==> y == s[0] || y in s[1..];
    }
  }

  lemma {:induction false} InsertAscending<T(!new)>(less: (T, T) -> bool, x: T, s: seq<T>)
    requires StrictTotal(less) && Ascending(less, s)
    ensures Ascending(less, Insert(less, x, s))
  {
    if s != [] && !less(x, s[0]) && x != s[0] {
      InsertAscending(less, x, s[1..]);
      InsertElements(less, x, s[1..]);
      var rest := Insert(less, x, s[1..]);
      forall j | 0 <= j < |rest|
        ensures less(s[0], rest[j])
      {
        assert rest[j] in rest;
      }
    }
  }

  /** Sorting keeps exactly the elements, in ascending order. */
  lemma {:induction false} SortSorts<T(!new)>(less: (T, T) -> bool, items: seq<T>)
    requires StrictTotal(less)
    ensures Ascending(less, SortDedup(less, items))
    ensures SameElements(SortDedup(less, items), items)
  {
    if items != [] {
      SortSorts(less, items[1..]);
      InsertAscending(less, items[0], SortDedup(less, items[1..]));
      InsertElements(less, items[0], SortDedup(less, items[1..]));
    }
  }

  lemma HasElement<T>(s: seq<T>)
    ensures s != [] ==> exists x :: x in s
  {
    if s != [] {
      assert s[0] in s;
    }
  }

  /** An ascending list is determined by its elements. */
  lemma {:induction false} AscendingUnique<T(!new)>(less: (T, T) -> bool, a: seq<T>, b: seq<T>)
    requires StrictTotal(less) && Ascending(less, a) && Ascending(less, b) && SameElements(a, b)
    ensures a == b
  {
    if a == [] {
      HasElement(b);
    } else {
      assert a[0] in a && a[0] in b;
      assert b[0] in b && b[0] in a;
      assert a[0] == b[0];
      forall x
        ensures x in a[1..] <==> x in b[1..]
      {
        assert x in a <==> x in b;
        assert x in a <==> x == a[0] || x in a[1..];
        assert x in b <==> x == b[0] || x in b[1..];
        assert x in a[1..] ==> less(a[0], x);
        assert x in b[1..] ==> less(b[0], x);
      }
      AscendingUnique(less, a[1..], b[1..]);
    }
  }

  /** `str` order: by characters, a prefix first. */
  predicate LexLess(a: string, b: string) {
    b != [] && (a == [] || a[0] < b[0] || (a[0] == b[0] && LexLess(a[1..], b[1..])))
  }

  lemma {:induction false} LexTransitive(a: string, b: string, c: string)
    requires LexLess(a, b) && LexLess(b, c)
    ensures LexLess(a, c)
  {
    if a != [] && a[0] == b[0] == c[0] {
      LexTransitive(a[1..], b[1..], c[1..]);
    }
  }

  lemma {:induction false} LexConnected(a: string, b: string)
    ensures LexLess(a, b) || LexLess(b, a) || a == b
    ensures !LexLess(a, a)
    decreases |a|
  {
    if a != [] {
      LexConnected(a[1..], if b == [] then [] else b[1..]);
      if b != [] && a[0] == b[0] && a[1..] == b[1..] {
        assert a == [a[0]] + a[1..] && b == [b[0]] + b[1..];
      }
    }
  }

  lemma LexTotal()
    ensures StrictTotal(LexLess)
  {
    forall a, b
      ensures LexLess(a, b) || LexLess(b, a) || a == b
      ensures !LexLess(a, a)
    {
      LexConnected(a, b);
    }
    forall a, b, c | LexLess(a, b) && LexLess(b, c)
      ensures LexLess(a, c)
    {
      LexTransitive(a, b, c);
    }
  }
}
