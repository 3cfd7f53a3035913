/**
 * The startup seeding: five sample books created in turn, so that the listing
 * is their records in creation order (`Create` appends each one), and what the
 * statistics and a price-range filter answer on that listing. Ids and the
 * clock are supplied by the caller.
 */
module Scenario {
  import opened Wrappers
  import opened Seqs
  import opened Books
  import opened Queries
  import opened Statistics

  /** The five sample payloads, prices in cents, in creation order. */
  const Samples: seq<NewBook> := [
    NewBook("The Great Gatsby", "F. Scott Fitzgerald", 1299, true, Some(1925)),
    NewBook("To Kill a Mockingbird", "Harper Lee", 1499, true, Some(1960)),
    NewBook("1984", "George Orwell", 1099, false, Some(1949)),
    NewBook("Pride and Prejudice", "Jane Austen", 999, true, Some(1813)),
    NewBook("The Hobbit", "J.R.R. Tolkien", 1599, true, None)
  ]

  /** The sample records stamped with `ids` and `now`, in creation order. */
  function SampleRecords(ids: seq<BookId>, now: nat): (r: seq<Book>)
    requires |ids| == 5
    ensures |r| == 5 && forall i :: 0 <= i < 5 ==> r[i] == NewRecord(ids[i], Samples[i], now)
  {
    seq(5, i requires 0 <= i < 5 => NewRecord(ids[i], Samples[i], now))
  }

  /** The statistics of the samples: 5 books worth 64.95, 4 in stock, 1 out, averaging 12.99. */
  lemma SampleStats(ids: seq<BookId>, now: nat)
    requires |ids| == 5
    ensures StatsOf(SampleRecords(ids, now)) == Stats(5, 6495, 4, 1, 1299.0)
  {
    var all := SampleRecords(ids, now);
    assert all[..1][..0] == [];
    assert TotalValue(all[..1]) == 1299 && InStockCount(all[..1]) == 1;
    assert all[..2][..1] == all[..1];
    assert TotalValue(all[..2]) == 2798 && InStockCount(all[..2]) == 2;
    assert all[..3][..2] == all[..2];
    assert TotalValue(all[..3]) == 3897 && InStockCount(all[..3]) == 2;
    assert all[..4][..3] == all[..3];
    assert TotalValue(all[..4]) == 4896 && InStockCount(all[..4]) == 3;
    assert all[..4] == all[..|all| - 1];
    assert TotalValue(all) == 6495 && InStockCount(all) == 4;
  }

  /** Filtering the samples on the price range 10.99 to 14.99 keeps the three priced inside it, in order. */
  lemma SamplePriceRange(ids: seq<BookId>, now: nat)
    requires |ids| == 5
    ensures var all := SampleRecords(ids, now);
            FilterResults(all, NoFilter.(minPrice := Some(1099), maxPrice := Some(1499))) == all[..3]
  {
    var all := SampleRecords(ids, now);
    var p := PassesFilter(NoFilter.(minPrice := Some(1099), maxPrice := Some(1499)));
    assert all[..1][..0] == [];
    assert Keep(all[..1], p) == all[..1];
    assert all[..2][..1] == all[..1];
    assert Keep(all[..2], p) == all[..2];
    assert all[..3][..2] == all[..2];
    assert Keep(all[..3], p) == all[..3];
    assert all[..4][..3] == all[..3];
    assert Keep(all[..4], p) == all[..3];
    assert all[..4] == all[..|all| - 1];
  }
}
