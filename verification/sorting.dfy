/**
 * `sort_books`: Python's `sorted(books, key=get_sort_key, reverse=...)`.
 * Python's sort is stable in both directions (with `reverse=True` tied
 * records still keep their input order), so it is modelled as a stable
 * insertion sort whose comparison flips with the order.
 */
module Sorting {
  import opened Text
  import opened Seqs
  import opened Books

  /** The sortable fields (`SortField`). */
  datatype SortField = Title | Author | Price | PublishedYear | CreatedAt

  /** `SortOrder`: `Desc` is `reverse=True`. */
  datatype SortOrder = Asc | Desc

  /** A sort key: a string for the text fields, a number for the others. */
  datatype SortKey = TextKey(text: string) | NumKey(num: int)

  /**
   * `get_sort_key`: the field's value. Title, author, price and created_at
   * are never missing here; a missing published_year sorts as 0.
   */
  function KeyOf(field: SortField, b: Book): SortKey
  {
    match field
    case Title => TextKey(b.title)
    case Author => TextKey(b.author)
    case Price => NumKey(b.price)
    case PublishedYear => NumKey(if b.publishedYear.Some? then b.publishedYear.value else 0)
    case CreatedAt => NumKey(b.createdAt)
  }

  /**
   * Python's `<=` on keys: numbers numerically, strings by code point. One
   * field never yields both kinds, so the mixed cases only make the relation total.
   */
  predicate KeyLe(a: SortKey, b: SortKey)
  {
    match (a, b)
    case (NumKey(x), NumKey(y)) => x <= y
    case (TextKey(x), TextKey(y)) => LexLe(x, y)
    case (NumKey(_), TextKey(_)) => true
    case (TextKey(_), NumKey(_)) => false
  }

  lemma KeyLeReflexive(a: SortKey)
    ensures KeyLe(a, a)
  {
    if a.TextKey? {
      LexLeReflexive(a.text);
    }
  }

  lemma KeyLeTotal(a: SortKey, b: SortKey)
    ensures KeyLe(a, b) || KeyLe(b, a)
  {
    if a.TextKey? && b.TextKey? {
      LexLeTotal(a.text, b.text);
    }
  }

  lemma KeyLeTransitive(a: SortKey, b: SortKey, c: SortKey)
    requires KeyLe(a, b) && KeyLe(b, c)
    ensures KeyLe(a, c)
  {
    if a.TextKey? && b.TextKey? && c.TextKey? {
      LexLeTransitive(a.text, b.text, c.text);
    }
  }

  lemma KeyLeAntisymmetric(a: SortKey, b: SortKey)
    requires KeyLe(a, b) && KeyLe(b, a)
    ensures a == b
  {
    if a.TextKey? && b.TextKey? {
      LexLeAntisymmetric(a.text, b.text);
    }
  }

  /** `a` may stand before `b` in the output: key not greater (asc) or not smaller (desc). */
  predicate Precedes(field: SortField, order: SortOrder, a: Book, b: Book)
  {
    if order == Asc then KeyLe(KeyOf(field, a), KeyOf(field, b)) else KeyLe(KeyOf(field, b), KeyOf(field, a))
  }

  /** Every earlier record may precede every later one. */
  ghost predicate Ordered(s: seq<Book>, field: SortField, order: SortOrder)
  {
    forall i, j :: 0 <= i < j < |s| ==> Precedes(field, order, s[i], s[j])
  }

  /** Puts `x` in front of the first record it may precede, hence before its ties. */
  function Insert(field: SortField, order: SortOrder, x: Book, s: seq<Book>): seq<Book>
  {
    if s == [] then [x]
    else if Precedes(field, order, x, s[0]) then [x] + s
    else [s[0]] + Insert(field, order, x, s[1..])
  }

  /** `sort_books(books, sort_by, order)`. */
  function SortBooks(books: seq<Book>, field: SortField, order: SortOrder): seq<Book>
  {
    if books == [] then [] else Insert(field, order, books[0], SortBooks(books[1..], field, order))
  }

  /** The multiset of a non-empty list: its head plus the rest. */
  lemma MultisetCons<T>(s: seq<T>)
    requires s != []
    ensures multiset(s) == multiset{s[0]} + multiset(s[1..])
  {
    assert s == [s[0]] + s[1..];
  }

  lemma {:induction false} InsertPermutation(field: SortField, order: SortOrder, x: Book, s: seq<Book>)
    ensures multiset(Insert(field, order, x, s)) == multiset(s) + multiset{x}
    decreases |s|
  {
    if s != [] && !Precedes(field, order, x, s[0]) {
      InsertPermutation(field, order, x, s[1..]);
      MultisetCons(s);
    }
  }

  /** The sorted list is a permutation of its input. */
  lemma {:induction false} SortPermutation(books: seq<Book>, field: SortField, order: SortOrder)
    ensures multiset(SortBooks(books, field, order)) == multiset(books)
    decreases |books|
  {
    if books != [] {
      SortPermutation(books[1..], field, order);
      InsertPermutation(field, order, books[0], SortBooks(books[1..], field, order));
      MultisetCons(books);
    }
  }

  lemma PrecedesTotal(field: SortField, order: SortOrder, a: Book, b: Book)
    ensures Precedes(field, order, a, b) || Precedes(field, order, b, a)
  {
    KeyLeTotal(KeyOf(field, a), KeyOf(field, b));
  }

  lemma PrecedesTransitive(field: SortField, order: SortOrder, a: Book, b: Book, c: Book)
    requires Precedes(field, order, a, b) && Precedes(field, order, b, c)
    ensures Precedes(field, order, a, c)
  {
    if order == Asc {
      KeyLeTransitive(KeyOf(field, a), KeyOf(field, b), KeyOf(field, c));
    } else {
      KeyLeTransitive(KeyOf(field, c), KeyOf(field, b), KeyOf(field, a));
    }
  }

  /** A record that may precede every record of an ordered list may head it. */
  lemma ConsOrdered(field: SortField, order: SortOrder, y: Book, t: seq<Book>)
    requires Ordered(t, field, order)
    requires forall z :: z in t ==> Precedes(field, order, y, z)
    ensures Ordered([y] + t, field, order)
  {
    var r := [y] + t;
    forall i, j | 0 <= i < j < |r|
      ensures Precedes(field, order, r[i], r[j])
    {
      assert r[j] == t[j - 1];
      if i > 0 {
        assert r[i] == t[i - 1];
      }
    }
  }

  /** The head of an ordered list may precede every record after it, and the rest stays ordered. */
  lemma UnconsOrdered(field: SortField, order: SortOrder, s: seq<Book>)
    requires |s| > 0 && Ordered(s, field, order)
    ensures Ordered(s[1..], field, order)
    ensures forall z :: z in s[1..] ==> Precedes(field, order, s[0], z)
  {
    forall z | z in s[1..]
      ensures Precedes(field, order, s[0], z)
    {
      var k :| 0 <= k < |s[1..]| && s[1..][k] == z;
      assert s[k + 1] == z;
    }
  }

  lemma {:induction false} InsertOrdered(field: SortField, order: SortOrder, x: Book, s: seq<Book>)
    requires Ordered(s, field, order)
    ensures Ordered(Insert(field, order, x, s), field, order)
    decreases |s|
  {
    if s == [] {
    } else if Precedes(field, order, x, s[0]) {
      UnconsOrdered(field, order, s);
      forall z | z in s
        ensures Precedes(field, order, x, z)
      {
        if z != s[0] {
          assert z in s[1..];
          PrecedesTransitive(field, order, x, s[0], z);
        }
      }
      ConsOrdered(field, order, x, s);
    } else {
      PrecedesTotal(field, order, x, s[0]);
      UnconsOrdered(field, order, s);
      InsertOrdered(field, order, x, s[1..]);
      InsertPermutation(field, order, x, s[1..]);
      var tail := Insert(field, order, x, s[1..]);
      forall z | z in tail
        ensures Precedes(field, order, s[0], z)
      {
        assert z in multiset(tail);
        if z != x {
          assert z in multiset(s[1..]);
        }
      }
      ConsOrdered(field, order, s[0], tail);
    }
  }

  /** The sorted list is ordered: keys non-decreasing (asc) or non-increasing (desc). */
  lemma {:induction false} SortOrdered(books: seq<Book>, field: SortField, order: SortOrder)
    ensures Ordered(SortBooks(books, field, order), field, order)
    decreases |books|
  {
    if books != [] {
      SortOrdered(books[1..], field, order);
      InsertOrdered(field, order, books[0], SortBooks(books[1..], field, order));
    }
  }

  /** Records whose key for `field` is `k`: one tie class. */
  function HasKey(field: SortField, k: SortKey): Book -> bool
  {
    b => KeyOf(field, b) == k
  }

  lemma KeepSingle(x: Book, p: Book -> bool)
    ensures Keep([x], p) == if p(x) then [x] else []
  {
    assert [x][..0] == [];
  }

  lemma {:induction false} InsertStable(field: SortField, order: SortOrder, x: Book, s: seq<Book>, k: SortKey)
    ensures Keep(Insert(field, order, x, s), HasKey(field, k)) == Keep([x], HasKey(field, k)) + Keep(s, HasKey(field, k))
    decreases |s|
  {
    var p := HasKey(field, k);
    if s == [] {
      assert Insert(field, order, x, s) == [x];
      assert s + [] == s;
    } else if Precedes(field, order, x, s[0]) {
      assert Insert(field, order, x, s) == [x] + s;
      KeepConcat([x], s, p);
    } else {
      var t := Insert(field, order, x, s[1..]);
      var a, b, c := Keep([s[0]], p), Keep([x], p), Keep(s[1..], p);
      InsertStable(field, order, x, s[1..], k);
      KeepConcat([s[0]], t, p);
      assert s == [s[0]] + s[1..];
      KeepConcat([s[0]], s[1..], p);
      KeyLeReflexive(KeyOf(field, x));
      SwapSingles(s[0], x, p);
      assert Insert(field, order, x, s) == [s[0]] + t;
      SwapFront(a, b, c);
    }
  }

  /** When `a` and `b` commute, `b` can be brought to the front of `a + (b + c)`. */
  lemma SwapFront<T>(a: seq<T>, b: seq<T>, c: seq<T>)
    requires a + b == b + a
    ensures a + (b + c) == b + (a + c)
  {
    calc {
      a + (b + c);
      (a + b) + c;
      (b + a) + c;
      b + (a + c);
    }
  }

  /** Two single records commute under `Keep` when at most one of them is kept. */
  lemma SwapSingles(y: Book, x: Book, p: Book -> bool)
    requires !(p(x) && p(y))
    ensures Keep([y], p) + Keep([x], p) == Keep([x], p) + Keep([y], p)
  {
    KeepSingle(x, p);
    KeepSingle(y, p);
  }

  /**
   * Stability: for every key, the records with that key appear in the output
   * in exactly the order they had in the input, for both sort orders.
   */
  lemma {:induction false} SortStable(books: seq<Book>, field: SortField, order: SortOrder, k: SortKey)
    ensures Keep(SortBooks(books, field, order), HasKey(field, k)) == Keep(books, HasKey(field, k))
    decreases |books|
  {
    if books != [] {
      SortStable(books[1..], field, order, k);
      InsertStable(field, order, books[0], SortBooks(books[1..], field, order), k);
      KeepConcat([books[0]], books[1..], HasKey(field, k));
      assert books == [books[0]] + books[1..];
    }
  }

  function Reverse<T>(s: seq<T>): (r: seq<T>)
    ensures |r| == |s| && forall i :: 0 <= i < |s| ==> r[i] == s[|s| - 1 - i]
  {
    if s == [] then [] else Reverse(s[1..]) + [s[0]]
  }

  /** No two entries of `s` share a key for `field` (and so no entry repeats). */
  ghost predicate DistinctKeys(s: seq<Book>, field: SortField)
  {
    && (forall x, y :: x in s && y in s && KeyOf(field, x) == KeyOf(field, y) ==> x == y)
    && (forall x :: multiset(s)[x] <= 1)
  }

  /** With distinct keys there is only one ordered arrangement of a multiset. */
  lemma {:induction false} OrderedUnique(a: seq<Book>, b: seq<Book>, field: SortField, order: SortOrder)
    requires multiset(a) == multiset(b)
    requires Ordered(a, field, order) && Ordered(b, field, order)
    requires DistinctKeys(a, field)
    ensures a == b
    decreases |a|
  {
    assert |b| == |multiset(b)| == |multiset(a)| == |a|;
    if a != [] {
      HeadsAgree(a, b, field, order);
      TailsAgree(a, b, field);
      OrderedUnique(a[1..], b[1..], field, order);
      assert a == [a[0]] + a[1..];
      assert b == [b[0]] + b[1..];
    }
  }

  /** Both ordered arrangements start with the same record. */
  lemma HeadsAgree(a: seq<Book>, b: seq<Book>, field: SortField, order: SortOrder)
    requires |a| > 0 && multiset(a) == multiset(b)
    requires Ordered(a, field, order) && Ordered(b, field, order)
    requires DistinctKeys(a, field)
    ensures |b| > 0 && a[0] == b[0]
  {
    assert |b| == |multiset(b)| == |multiset(a)| == |a|;
    assert a[0] in multiset(b);
    var j :| 0 <= j < |b| && b[j] == a[0];
    assert b[0] in multiset(a);
    var i :| 0 <= i < |a| && a[i] == b[0];
    KeyLeReflexive(KeyOf(field, a[0]));
    assert Precedes(field, order, a[0], a[i]);
    assert Precedes(field, order, b[0], b[j]);
    KeyLeAntisymmetric(KeyOf(field, a[0]), KeyOf(field, b[0]));
    assert a[0] in a && b[0] in a;
  }

  /** Dropping the common head keeps the premises of `OrderedUnique`. */
  lemma TailsAgree(a: seq<Book>, b: seq<Book>, field: SortField)
    requires |a| > 0 && |b| > 0 && a[0] == b[0] && multiset(a) == multiset(b)
    requires DistinctKeys(a, field)
    ensures multiset(a[1..]) == multiset(b[1..])
    ensures DistinctKeys(a[1..], field)
  {
    assert a == [a[0]] + a[1..];
    assert b == [b[0]] + b[1..];
    assert multiset(a[1..]) == multiset(a) - multiset{a[0]};
    assert multiset(b[1..]) == multiset(b) - multiset{b[0]};
    forall x | x in a[1..]
      ensures x in a
    {
    }
    forall x
      ensures multiset(a[1..])[x] <= 1
    {
      assert multiset(a[1..])[x] <= multiset(a)[x];
    }
  }

  /**
   * When no two records share a key, descending order is exactly ascending
   * order reversed.
   */
  lemma SortDescIsReversedAsc(books: seq<Book>, field: SortField)
    requires DistinctKeys(books, field)
    ensures SortBooks(books, field, Desc) == Reverse(SortBooks(books, field, Asc))
  {
    var down := SortBooks(books, field, Desc);
    var up := SortBooks(books, field, Asc);
    SortPermutation(books, field, Desc);
    SortPermutation(books, field, Asc);
    SortOrdered(books, field, Desc);
    SortOrdered(books, field, Asc);
    var rev := Reverse(up);
    assert multiset(rev) == multiset(up) by {
      ReversePermutation(up);
    }
    forall i, j | 0 <= i < j < |rev|
      ensures Precedes(field, Desc, rev[i], rev[j])
    {
      assert Precedes(field, Asc, up[|up| - 1 - j], up[|up| - 1 - i]);
    }
    forall x | x in down
      ensures x in books
    {
      assert x in multiset(down);
    }
    OrderedUnique(down, rev, field, Desc);
  }

  lemma {:induction false} ReversePermutation<T>(s: seq<T>)
    ensures multiset(Reverse(s)) == multiset(s)
    decreases |s|
  {
    if s != [] {
      ReversePermutation(s[1..]);
      assert s == [s[0]] + s[1..];
    }
  }
}
