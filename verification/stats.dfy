/**
 * `get_stats`: aggregates over the stored records. Money is in cents, so the
 * totals are exact; the average is the exact quotient (the source rounds it
 * to two decimals).
 */
module Statistics {
  import opened Wrappers
  import opened Seqs
  import opened Books
  import opened Queries

  /** The five numbers `get_stats` reports. */
  datatype Stats = Stats(totalBooks: nat, totalValue: int, inStock: nat, outOfStock: int, averagePrice: real)

  /** `sum(book['price'] for book in books)`. */
  function TotalValue(books: seq<Book>): int
  {
    if books == [] then 0 else TotalValue(books[..|books| - 1]) + books[|books| - 1].price
  }

  /** `sum(1 for book in books if book['in_stock'])`. */
  function InStockCount(books: seq<Book>): (n: nat)
    ensures n <= |books|
  {
    if books == [] then 0 else InStockCount(books[..|books| - 1]) + (if books[|books| - 1].inStock then 1 else 0)
  }

  /** `get_stats()` over the listing `books`; an empty store reports zeros and divides by nothing. */
  function StatsOf(books: seq<Book>): (r: Stats)
    ensures books == [] ==> r == Stats(0, 0, 0, 0, 0.0)
    ensures r.totalBooks == |books| && r.totalValue == TotalValue(books)
    ensures r.inStock <= r.totalBooks && r.inStock + r.outOfStock == r.totalBooks
    ensures r.averagePrice * (|books| as real) == r.totalValue as real
  {
    if books == [] then Stats(0, 0, 0, 0, 0.0)
    else
      var total := TotalValue(books);
      var inStock := InStockCount(books);
      Stats(|books|, total, inStock, |books| - inStock, total as real / |books| as real)
  }

  /** The in-stock count is the number of records `filter_by(in_stock=True)` returns. */
  lemma {:induction false} InStockCountIsFilterSize(books: seq<Book>)
    ensures InStockCount(books) == |FilterResults(books, NoFilter.(inStock := Some(true)))|
    decreases |books|
  {
    if books != [] {
      InStockCountIsFilterSize(books[..|books| - 1]);
    }
  }

  /** The out-of-stock count is the number of records `filter_by(in_stock=False)` returns. */
  lemma {:induction false} OutOfStockIsFilterSize(books: seq<Book>)
    ensures StatsOf(books).outOfStock == |FilterResults(books, NoFilter.(inStock := Some(false)))|
    decreases |books|
  {
    if books != [] {
      var n := |books| - 1;
      OutOfStockIsFilterSize(books[..n]);
      if books[..n] == [] {
        assert books == [books[n]];
      }
    }
  }

  /** Prices that all lie in [lo, hi] sum to between |books|*lo and |books|*hi. */
  lemma {:induction false} TotalValueBounds(books: seq<Book>, lo: int, hi: int)
    requires forall i :: 0 <= i < |books| ==> lo <= books[i].price <= hi
    ensures |books| * lo <= TotalValue(books) <= |books| * hi
    decreases |books|
  {
    if books != [] {
      var n := |books| - 1;
      TotalValueBounds(books[..n], lo, hi);
      assert |books| * lo == n * lo + lo;
      assert |books| * hi == n * hi + hi;
    }
  }

  /** The average lies between the cheapest and the dearest price. */
  lemma AverageWithinPrices(books: seq<Book>, lo: int, hi: int)
    requires books != []
    requires forall i :: 0 <= i < |books| ==> lo <= books[i].price <= hi
    ensures lo as real <= StatsOf(books).averagePrice <= hi as real
  {
    TotalValueBounds(books, lo, hi);
    var n := |books|;
    var t := TotalValue(books);
    ProductAsReal(n, lo);
    ProductAsReal(n, hi);
    QuotientBounds(t as real, n as real, lo as real, hi as real);
    assert StatsOf(books).averagePrice == t as real / n as real;
  }

  lemma ProductAsReal(a: int, b: int)
    ensures (a * b) as real == a as real * b as real
  {
  }

  lemma QuotientBounds(t: real, n: real, lo: real, hi: real)
    requires n > 0.0 && n * lo <= t <= n * hi
    ensures lo <= t / n <= hi
  {
    var q := t / n;
    assert t == q * n;
    assert (q - lo) * n == t - lo * n;
    assert (hi - q) * n == hi * n - t;
  }
}
