/**
 * The meaning of the repository's two scanning queries: `search` (a
 * case-insensitive substring match on title or author) and `filter_by` (a
 * conjunction of optional criteria). Both keep the store's insertion order.
 */
module Queries {
  import opened Wrappers
  import opened Text
  import opened Seqs
  import opened Books

  /** `query.lower() in title.lower() or query.lower() in author.lower()`. */
  predicate Matches(b: Book, query: string)
  {
    Contains(Lower(b.title), Lower(query)) || Contains(Lower(b.author), Lower(query))
  }

  function MatchesQuery(query: string): Book -> bool
  {
    b => Matches(b, query)
  }

  /** What `search(query)` returns for the store listing `books`. */
  function SearchResults(books: seq<Book>, query: string): seq<Book>
  {
    Keep(books, MatchesQuery(query))
  }

  /** Search returns exactly the matching records: a record is found iff it is stored and matches. */
  lemma SearchExact(books: seq<Book>, query: string, b: Book)
    ensures b in SearchResults(books, query) <==> b in books && Matches(b, query)
    ensures multiset(SearchResults(books, query))[b] == if Matches(b, query) then multiset(books)[b] else 0
  {
    KeepMembership(books, MatchesQuery(query), b);
    KeepMultiset(books, MatchesQuery(query), b);
  }

  /** Search results come in store order: a subsequence of the full listing. */
  lemma SearchKeepsOrder(books: seq<Book>, query: string)
    ensures IsSubsequence(SearchResults(books, query), books)
  {
    KeepIsSubsequence(books, MatchesQuery(query));
  }

  /** The empty query is contained in every title, so it returns the whole listing. */
  lemma SearchEmptyQuery(books: seq<Book>)
    ensures SearchResults(books, "") == books
  {
    forall i | 0 <= i < |books|
      ensures MatchesQuery("")(books[i])
    {
      ContainsEmpty(Lower(books[i].title));
    }
    KeepAll(books, MatchesQuery(""));
  }

  /** Letter case in the query does not matter. */
  lemma SearchIgnoresCase(books: seq<Book>, query: string)
    ensures SearchResults(books, query) == SearchResults(books, Lower(query))
  {
    LowerIdempotent(query);
    KeepCongruent(books, MatchesQuery(query), MatchesQuery(Lower(query)));
  }

  /** The optional arguments of `filter_by`; `None` leaves a criterion out. */
  datatype BookFilter = BookFilter(
    author: Option<string>,
    inStock: Option<bool>,
    minPrice: Option<int>,
    maxPrice: Option<int>,
    minYear: Option<int>,
    maxYear: Option<int>)

  /** `filter_by()` with no argument. */
  const NoFilter := BookFilter(None, None, None, None, None, None)

  /** A record passes every criterion that is given (each `continue` of `filter_by` avoided). */
  predicate Passes(b: Book, f: BookFilter)
  {
    && (f.author.None? || f.author.value == "" || Contains(Lower(b.author), Lower(f.author.value)))
    && (f.inStock.None? || b.inStock == f.inStock.value)
    && (f.minPrice.None? || f.minPrice.value <= b.price)
    && (f.maxPrice.None? || b.price <= f.maxPrice.value)
    && (f.minYear.None? || (b.publishedYear.Some? && f.minYear.value <= b.publishedYear.value))
    && (f.maxYear.None? || (b.publishedYear.Some? && b.publishedYear.value <= f.maxYear.value))
  }

  function PassesFilter(f: BookFilter): Book -> bool
  {
    b => Passes(b, f)
  }

  /** What `filter_by(...)` returns for the store listing `books`. */
  function FilterResults(books: seq<Book>, f: BookFilter): seq<Book>
  {
    Keep(books, PassesFilter(f))
  }

  /** Filtering returns exactly the records passing every given criterion, in store order. */
  lemma FilterExact(books: seq<Book>, f: BookFilter, b: Book)
    ensures b in FilterResults(books, f) <==> b in books && Passes(b, f)
    ensures multiset(FilterResults(books, f))[b] == if Passes(b, f) then multiset(books)[b] else 0
    ensures IsSubsequence(FilterResults(books, f), books)
  {
    KeepMembership(books, PassesFilter(f), b);
    KeepMultiset(books, PassesFilter(f), b);
    KeepIsSubsequence(books, PassesFilter(f));
  }

  /** With no criterion (or only an empty author string) every record is returned. */
  lemma FilterWithoutCriteria(books: seq<Book>, emptyAuthor: bool)
    ensures FilterResults(books, NoFilter.(author := if emptyAuthor then Some("") else None)) == books
  {
    var f := NoFilter.(author := if emptyAuthor then Some("") else None);
    assert forall i :: 0 <= i < |books| ==> PassesFilter(f)(books[i]);
    KeepAll(books, PassesFilter(f));
  }

  /** A record without a published year fails any filter that bounds the year. */
  lemma FilterExcludesYearless(books: seq<Book>, f: BookFilter, b: Book)
    requires b.publishedYear.None?
    requires f.minYear.Some? || f.maxYear.Some?
    ensures b !in FilterResults(books, f)
  {
    KeepMembership(books, PassesFilter(f), b);
  }

  /** Price bounds are inclusive at both ends. */
  lemma FilterPriceRangeInclusive(books: seq<Book>, lo: int, hi: int, b: Book)
    ensures b in FilterResults(books, NoFilter.(minPrice := Some(lo), maxPrice := Some(hi)))
            <==> b in books && lo <= b.price <= hi
  {
    KeepMembership(books, PassesFilter(NoFilter.(minPrice := Some(lo), maxPrice := Some(hi))), b);
  }
}
