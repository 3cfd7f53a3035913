/**
 * `BookRepository`: the canonical store (an insertion-ordered dictionary from
 * id to record) and three derived indexes, kept in step by every mutation.
 */
module Repository {
  import opened Wrappers
  import opened Text
  import opened Seqs
  import opened Books
  import opened Queries
  import opened Statistics

  /** The ids of stored records that `key` files under `k`: an index bucket rebuilt from the store. */
  ghost function Bucket<K>(store: map<BookId, Book>, key: Book -> Option<K>, k: K): set<BookId>
  {
    set id | id in store && key(store[id]) == Some(k)
  }

  /** The ids of stored records that are in stock: the in-stock index rebuilt from the store. */
  ghost function InStockIds(store: map<BookId, Book>): set<BookId>
  {
    set id | id in store && store[id].inStock
  }

  /** The bucket's value for `k`, or the empty set when `k` has no bucket yet. */
  function BucketOr<K>(index: map<K, set<BookId>>, k: K): set<BookId>
  {
    if k in index then index[k] else {}
  }

  /** `index[k].add(id)`, creating the bucket first when it is missing. */
  function Filed<K>(index: map<K, set<BookId>>, id: BookId, k: K): map<K, set<BookId>>
  {
    index[k := BucketOr(index, k) + {id}]
  }

  /** `index[k].discard(id)` when the bucket exists; otherwise nothing. */
  function Unfiled<K>(index: map<K, set<BookId>>, id: BookId, k: K): map<K, set<BookId>>
  {
    if k in index then index[k := index[k] - {id}] else index
  }

  /**
   * `index` agrees with `store` under `key`: each bucket holds exactly the ids
   * filed under its key, and every filed value has a bucket. Emptied buckets may stay.
   */
  ghost predicate IndexMatches<K>(index: map<K, set<BookId>>, store: map<BookId, Book>, key: Book -> Option<K>)
  {
    && (forall k :: k in index ==> index[k] == Bucket(store, key, k))
    && (forall id :: id in store && key(store[id]).Some? ==> key(store[id]).value in index)
  }

  /** Filing a new record under its key keeps the index in step with the grown store. */
  lemma FileKeepsMatch<K>(index: map<K, set<BookId>>, store: map<BookId, Book>, key: Book -> Option<K>, id: BookId, b: Book)
    requires IndexMatches(index, store, key) && id !in store
    ensures IndexMatches(if key(b).Some? then Filed(index, id, key(b).value) else index, store[id := b], key)
  {
    var index' := if key(b).Some? then Filed(index, id, key(b).value) else index;
    forall k | k in index'
      ensures index'[k] == Bucket(store[id := b], key, k)
    {
      assert Bucket(store[id := b], key, k) == Bucket(store, key, k) + (if key(b) == Some(k) then {id} else {});
    }
  }

  /** Unfiling a record from the bucket of its key keeps the index in step with the shrunk store. */
  lemma UnfileKeepsMatch<K>(index: map<K, set<BookId>>, store: map<BookId, Book>, key: Book -> Option<K>, id: BookId)
    requires IndexMatches(index, store, key) && id in store
    ensures IndexMatches(if key(store[id]).Some? then Unfiled(index, id, key(store[id]).value) else index, store - {id}, key)
  {
    var index' := if key(store[id]).Some? then Unfiled(index, id, key(store[id]).value) else index;
    forall k | k in index'
      ensures index'[k] == Bucket(store - {id}, key, k)
    {
      assert Bucket(store - {id}, key, k) == Bucket(store, key, k) - {id};
    }
  }

  /** The in-stock set of the grown store: the new id joins exactly when its record is in stock. */
  lemma InStockInsert(store: map<BookId, Book>, id: BookId, b: Book)
    requires id !in store
    ensures InStockIds(store[id := b]) == if b.inStock then InStockIds(store) + {id} else InStockIds(store) - {id}
  {
  }

  /** The in-stock set of the shrunk store: the removed id leaves it. */
  lemma InStockRemove(store: map<BookId, Book>, id: BookId)
    ensures InStockIds(store - {id}) == InStockIds(store) - {id}
  {
  }

  /** What `_update_indexes` leaves behind matches the store grown by `b`. */
  lemma FilingKeepsIndexes(store: map<BookId, Book>, id: BookId, b: Book,
                           authors: map<string, set<BookId>>, authors': map<string, set<BookId>>,
                           years: map<int, set<BookId>>, years': map<int, set<BookId>>,
                           stock: set<BookId>, stock': set<BookId>)
    requires id !in store
    requires IndexMatches(authors, store, IndexedAuthor) && IndexMatches(years, store, IndexedYear)
    requires stock == InStockIds(store)
    requires authors' == if b.author != "" then Filed(authors, id, b.author) else authors
    requires years' == if IndexedYear(b).Some? then Filed(years, id, b.publishedYear.value) else years
    requires stock' == if b.inStock then stock + {id} else stock - {id}
    ensures IndexMatches(authors', store[id := b], IndexedAuthor) && IndexMatches(years', store[id := b], IndexedYear)
    ensures stock' == InStockIds(store[id := b])
  {
    FileKeepsMatch(authors, store, IndexedAuthor, id, b);
    FileKeepsMatch(years, store, IndexedYear, id, b);
    InStockInsert(store, id, b);
  }

  /** What `_remove_from_indexes` leaves behind matches the store without `id`. */
  lemma UnfilingKeepsIndexes(store: map<BookId, Book>, id: BookId,
                             authors: map<string, set<BookId>>, authors': map<string, set<BookId>>,
                             years: map<int, set<BookId>>, years': map<int, set<BookId>>,
                             stock: set<BookId>, stock': set<BookId>)
    requires id in store
    requires IndexMatches(authors, store, IndexedAuthor) && IndexMatches(years, store, IndexedYear)
    requires stock == InStockIds(store)
    requires authors' == if store[id].author != "" then Unfiled(authors, id, store[id].author) else authors
    requires years' == if IndexedYear(store[id]).Some? then Unfiled(years, id, store[id].publishedYear.value) else years
    requires stock' == stock - {id}
    ensures IndexMatches(authors', store - {id}, IndexedAuthor) && IndexMatches(years', store - {id}, IndexedYear)
    ensures stock' == InStockIds(store - {id})
  {
    UnfileKeepsMatch(authors, store, IndexedAuthor, id);
    UnfileKeepsMatch(years, store, IndexedYear, id);
    InStockRemove(store, id);
  }

  /** Once an index matches a store without `id`, no bucket holds `id`. */
  lemma MatchExcludes<K>(index: map<K, set<BookId>>, store: map<BookId, Book>, key: Book -> Option<K>, id: BookId)
    requires IndexMatches(index, store, key) && id !in store
    ensures forall k :: k in index ==> id !in index[k]
  {
  }

  /** The dictionary is well formed: `order` lists each stored id once, and records carry their own id. */
  ghost predicate WellFormed(books: map<BookId, Book>, order: seq<BookId>)
  {
    && Distinct(order)
    && (forall i :: 0 <= i < |order| ==> order[i] in books)
    && (forall id :: id in books ==> id in order)
    && (forall id :: id in books ==> books[id].id == id)
  }

  /** `_books.values()`: the records in insertion order. */
  function Listing(books: map<BookId, Book>, order: seq<BookId>): seq<Book>
    requires forall i :: 0 <= i < |order| ==> order[i] in books
  {
    seq(|order|, i requires 0 <= i < |order| => books[order[i]])
  }

  function IsNot(id: BookId): BookId -> bool
  {
    (x: BookId) => x != id
  }

  function HasOtherId(id: BookId): Book -> bool
  {
    (b: Book) => b.id != id
  }

  /** Every id kept after dropping `id` from the order names a record that survives the deletion. */
  lemma KeptIdsStored(books: map<BookId, Book>, order: seq<BookId>, id: BookId)
    requires forall i :: 0 <= i < |order| ==> order[i] in books
    ensures forall i :: 0 <= i < |Keep(order, IsNot(id))| ==> Keep(order, IsNot(id))[i] in books - {id}
  {
    var kept := Keep(order, IsNot(id));
    forall i | 0 <= i < |kept|
      ensures kept[i] in books - {id}
    {
      KeepMembership(order, IsNot(id), kept[i]);
    }
  }

  /** `del _books[id]` seen through `values()`: the other records, in their old order. */
  lemma {:induction false} ListingWithout(books: map<BookId, Book>, order: seq<BookId>, id: BookId)
    requires forall i :: 0 <= i < |order| ==> order[i] in books && books[order[i]].id == order[i]
    ensures forall i :: 0 <= i < |Keep(order, IsNot(id))| ==> Keep(order, IsNot(id))[i] in books - {id}
    ensures Listing(books - {id}, Keep(order, IsNot(id))) == Keep(Listing(books, order), HasOtherId(id))
    decreases |order|
  {
    KeptIdsStored(books, order, id);
    if order != [] {
      var n := |order| - 1;
      var x := order[n];
      ListingWithout(books, order[..n], id);
      KeptIdsStored(books, order[..n], id);
      assert Listing(books, order)[..n] == Listing(books, order[..n]);
      assert Listing(books, order)[n] == books[x];
    }
  }

  /** Appending a fresh id keeps the dictionary well formed and lists the new record last. */
  lemma AppendKeepsWellFormed(books: map<BookId, Book>, order: seq<BookId>, id: BookId, b: Book)
    requires WellFormed(books, order) && id !in books && b.id == id
    ensures WellFormed(books[id := b], order + [id])
    ensures Listing(books[id := b], order + [id]) == Listing(books, order) + [b]
  {
    var order' := order + [id];
    forall i, j | 0 <= i < j < |order'|
      ensures order'[i] != order'[j]
    {
      if j == |order| {
        assert order[i] in books;
      }
    }
  }

  /** Reassigning an existing key keeps the dictionary well formed and the record's position. */
  lemma ReplaceKeepsWellFormed(books: map<BookId, Book>, order: seq<BookId>, id: BookId, b: Book)
    requires WellFormed(books, order) && id in books && b.id == id
    ensures WellFormed(books[id := b], order)
    ensures forall i :: 0 <= i < |order| ==>
              Listing(books[id := b], order)[i] == if order[i] == id then b else Listing(books, order)[i]
  {
  }

  /** Removing a key and storing it again is storing it in place. */
  lemma ReinsertAfterRemove(books: map<BookId, Book>, id: BookId, b: Book)
    ensures (books - {id})[id := b] == books[id := b]
  {
  }

  /** Deleting a key keeps the dictionary well formed; the others keep their order. */
  lemma RemoveKeepsWellFormed(books: map<BookId, Book>, order: seq<BookId>, id: BookId)
    requires WellFormed(books, order)
    ensures WellFormed(books - {id}, Keep(order, IsNot(id)))
    ensures Listing(books - {id}, Keep(order, IsNot(id))) == Keep(Listing(books, order), HasOtherId(id))
  {
    ListingWithout(books, order, id);
    KeepDistinct(order, IsNot(id));
    forall x | x in books - {id}
      ensures x in Keep(order, IsNot(id))
    {
      KeepMembership(order, IsNot(id), x);
    }
  }

  /** The in-stock ids among those listed in `order`. */
  ghost function InStockAmong(books: map<BookId, Book>, order: seq<BookId>): set<BookId>
  {
    set id | id in order && id in books && books[id].inStock
  }

  /** Listing one more id adds it to the in-stock ids exactly when its record is in stock. */
  lemma InStockAmongSnoc(books: map<BookId, Book>, order: seq<BookId>, x: BookId)
    requires x in books
    ensures InStockAmong(books, order + [x]) == InStockAmong(books, order) + (if books[x].inStock then {x} else {})
  {
  }

  /** Counting in-stock records in the listing counts the in-stock ids. */
  lemma {:induction false} InStockCountOfListing(books: map<BookId, Book>, order: seq<BookId>)
    requires forall i :: 0 <= i < |order| ==> order[i] in books
    requires Distinct(order)
    ensures InStockCount(Listing(books, order)) == |InStockAmong(books, order)|
    decreases |order|
  {
    if order != [] {
      var n := |order| - 1;
      var x := order[n];
      assert Distinct(order[..n]);
      InStockCountOfListing(books, order[..n]);
      assert Listing(books, order)[..n] == Listing(books, order[..n]);
      assert order == order[..n] + [x];
      InStockAmongSnoc(books, order[..n], x);
      assert x !in order[..n];
    }
  }

  /** Every stored record was last updated no earlier than it was created, and no later than `clock`. */
  predicate Stamped(books: map<BookId, Book>, clock: nat)
  {
    forall id :: id in books ==> books[id].createdAt <= books[id].updatedAt <= clock
  }

  /** Storing a record stamped at `now`, no earlier than the clock, keeps the store stamped as of `now`. */
  lemma StampedStore(books: map<BookId, Book>, clock: nat, now: nat, id: BookId, b: Book)
    requires Stamped(books, clock) && clock <= now && b.createdAt <= b.updatedAt == now
    ensures Stamped(books[id := b], now)
  {
  }

  /** An update at a time no earlier than the clock leaves the record created before it was updated. */
  lemma PatchStamped(books: map<BookId, Book>, clock: nat, id: BookId, m: BookPatch, now: nat)
    requires Stamped(books, clock) && id in books && clock <= now
    ensures ApplyPatch(books[id], m, now).createdAt <= ApplyPatch(books[id], m, now).updatedAt == now
  {
  }

  /** Removing a record keeps the store stamped. */
  lemma StampedRemove(books: map<BookId, Book>, clock: nat, id: BookId)
    requires Stamped(books, clock)
    ensures Stamped(books - {id}, clock)
  {
  }

  class BookRepository {
    /** `_books`: the canonical store. */
    var books: map<BookId, Book>
    /** The dictionary's insertion order. */
    var order: seq<BookId>
    /** `_indexes['author']`. */
    var authorIndex: map<string, set<BookId>>
    /** `_indexes['published_year']`. */
    var yearIndex: map<int, set<BookId>>
    /** The latest time the store was stamped with; `datetime.now()` never runs backwards past it. */
    var clock: nat
    /** `_indexes['in_stock']`. */
    var inStockIndex: set<BookId>

    /** Every index agrees with `store`. */
    ghost predicate IndexesMatch(store: map<BookId, Book>)
      reads this
    {
      && IndexMatches(authorIndex, store, IndexedAuthor)
      && IndexMatches(yearIndex, store, IndexedYear)
      && inStockIndex == InStockIds(store)
    }

    /** The class invariant: a well-formed dictionary, indexes that match it, and timestamps no later than `clock`. */
    ghost predicate Valid()
      reads this
    {
      WellFormed(books, order) && IndexesMatch(books) && Stamped(books, clock)
    }

    /** `__init__`: an empty store and empty indexes. */
    constructor ()
      ensures Valid()
      ensures books == map[] && order == []
      ensures authorIndex == map[] && yearIndex == map[] && inStockIndex == {}
      ensures clock == 0
    {
      books := map[];
      order := [];
      authorIndex := map[];
      yearIndex := map[];
      inStockIndex := {};
      clock := 0;
    }

    /** `_update_indexes`: files `id` under the author, year and stock status of `b`. */
    method UpdateIndexes(id: BookId, b: Book, ghost store: map<BookId, Book>)
      requires IndexesMatch(store) && id !in store
      modifies this
      ensures books == old(books) && order == old(order) && clock == old(clock)
      ensures authorIndex == if b.author != "" then Filed(old(authorIndex), id, b.author) else old(authorIndex)
      ensures yearIndex == if IndexedYear(b).Some? then Filed(old(yearIndex), id, b.publishedYear.value) else old(yearIndex)
      ensures inStockIndex == if b.inStock then old(inStockIndex) + {id} else old(inStockIndex) - {id}
      ensures IndexesMatch(store[id := b])
    {
      var author := b.author;
      if author != "" {
        authorIndex := authorIndex[author := BucketOr(authorIndex, author) + {id}];
      }
      if b.publishedYear.Some? && b.publishedYear.value != 0 {
        var year := b.publishedYear.value;
        yearIndex := yearIndex[year := BucketOr(yearIndex, year) + {id}];
      }
      if b.inStock {
        inStockIndex := inStockIndex + {id};
      } else {
        // `remove` guarded by membership: dropping an absent id changes nothing
        inStockIndex := inStockIndex - {id};
      }
      FilingKeepsIndexes(store, id, b, old(authorIndex), authorIndex, old(yearIndex), yearIndex, old(inStockIndex), inStockIndex);
    }

    /** `_remove_from_indexes`: discards `id` from the buckets of the old record's values. */
    method RemoveFromIndexes(id: BookId, oldBook: Book, ghost store: map<BookId, Book>)
      requires IndexesMatch(store) && id in store && store[id] == oldBook
      modifies this
      ensures books == old(books) && order == old(order) && clock == old(clock)
      ensures authorIndex == if oldBook.author != "" then Unfiled(old(authorIndex), id, oldBook.author) else old(authorIndex)
      ensures yearIndex == if IndexedYear(oldBook).Some? then Unfiled(old(yearIndex), id, oldBook.publishedYear.value) else old(yearIndex)
      ensures inStockIndex == old(inStockIndex) - {id}
      ensures IndexesMatch(store - {id})
    {
      var author := oldBook.author;
      if author != "" && author in authorIndex {
        authorIndex := authorIndex[author := authorIndex[author] - {id}];
      }
      if oldBook.publishedYear.Some? && oldBook.publishedYear.value != 0 && oldBook.publishedYear.value in yearIndex {
        var year := oldBook.publishedYear.value;
        yearIndex := yearIndex[year := yearIndex[year] - {id}];
      }
      inStockIndex := inStockIndex - {id};
      UnfilingKeepsIndexes(store, id, old(authorIndex), authorIndex, old(yearIndex), yearIndex, old(inStockIndex), inStockIndex);
    }

    /** `get_all`: every stored record exactly once, in insertion order. */
    function GetAll(): (r: seq<Book>)
      reads this
      requires Valid()
      ensures |r| == |books| == |order|
      ensures forall i :: 0 <= i < |r| ==> r[i] == books[order[i]]
      ensures forall b :: b in r <==> b.id in books && books[b.id] == b
    {
      DistinctCardinality(order);
      assert Elements(order) == books.Keys;
      Listing(books, order)
    }

    /** `get`: the record stored under `id`, if any. */
    function Get(id: BookId): (r: Option<Book>)
      reads this
      requires Valid()
      ensures r.Some? <==> id in order
      ensures r.Some? ==> r.value == books[id] && r.value.id == id && r.value in GetAll()
    {
      if id in books then Some(books[id]) else None
    }

    /** `create`: stores a new record under the fresh id `id`, stamped `now`, last in order. */
    method Create(id: BookId, data: NewBook, now: nat) returns (book: Book)
      requires Valid() && id !in books && clock <= now
      modifies this
      ensures Valid()
      ensures book == NewRecord(id, data, now) && clock == now
      ensures books == old(books)[id := book] && order == old(order) + [id]
      ensures GetAll() == old(GetAll()) + [book]
    {
      book := NewRecord(id, data, now);
      AppendKeepsWellFormed(books, order, id, book);
      StampedStore(books, clock, now, id, book);
      ghost var store := books;
      books := books[id := book];
      order := order + [id];
      clock := now;
      UpdateIndexes(id, book, store);
    }

    /**
     * `update`: on an unknown id nothing changes; otherwise the mask is applied,
     * the record keeps its place in the order, and the indexes follow.
     */
    method Update(id: BookId, patch: BookPatch, now: nat) returns (r: Option<Book>)
      requires Valid() && clock <= now
      modifies this
      ensures Valid()
      ensures id !in old(books) ==> r == None && unchanged(this)
      ensures id in old(books) ==> r == Some(ApplyPatch(old(books)[id], patch, now))
      ensures id in old(books) ==> books == old(books)[id := r.value] && order == old(order)
      ensures id in old(books) ==> r.value.createdAt <= r.value.updatedAt == clock == now
    {
      if id !in books {
        return None;
      }
      var oldBook := books[id];
      RemoveFromIndexes(id, oldBook, books);
      var updated := ApplyPatch(oldBook, patch, now);
      PatchStamped(books, clock, id, patch, now);
      StampedStore(books, clock, now, id, updated);
      ReplaceKeepsWellFormed(books, order, id, updated);
      ghost var rest := books - {id};
      ReinsertAfterRemove(books, id, updated);
      books := books[id := updated];
      clock := now;
      UpdateIndexes(id, updated, rest);
      r := Some(updated);
    }

    /**
     * `delete`: False and no change for an unknown id; otherwise the record and
     * every index entry for it are gone, and the others keep their order.
     */
    method Delete(id: BookId) returns (deleted: bool)
      requires Valid()
      modifies this
      ensures Valid()
      ensures deleted == (id in old(books))
      ensures !deleted ==> unchanged(this)
      ensures books == old(books) - {id} && clock == old(clock)
      ensures GetAll() == Keep(old(GetAll()), HasOtherId(id))
    {
      if id !in books {
        assert books - {id} == books;
        assert Keep(GetAll(), HasOtherId(id)) == GetAll() by {
          KeepAll(GetAll(), HasOtherId(id));
        }
        return false;
      }
      var oldBook := books[id];
      RemoveFromIndexes(id, oldBook, books);
      RemoveKeepsWellFormed(books, order, id);
      StampedRemove(books, clock, id);
      books := books - {id};
      order := Keep(order, IsNot(id));
      assert IndexesMatch(books);
      deleted := true;
    }

    /** `search`: scans the store in order, keeping case-insensitive matches on title or author. */
    method Search(query: string) returns (results: seq<Book>)
      requires Valid()
      ensures results == SearchResults(GetAll(), query)
    {
      var q := Lower(query);
      ghost var all := GetAll();
      results := [];
      var i := 0;
      while i < |order|
        invariant 0 <= i <= |order|
        invariant results == Keep(all[..i], MatchesQuery(query))
      {
        var book := books[order[i]];
        KeepSnoc(all, i, MatchesQuery(query));
        if Contains(Lower(book.title), q) || Contains(Lower(book.author), q) {
          results := results + [book];
        }
        i := i + 1;
      }
      KeepWhole(all, MatchesQuery(query));
    }

    /** `filter_by`: scans the store in order, skipping a record at the first criterion it fails. */
    method FilterBy(criteria: BookFilter) returns (results: seq<Book>)
      requires Valid()
      ensures results == FilterResults(GetAll(), criteria)
    {
      ghost var all := GetAll();
      results := [];
      var i := 0;
      while i < |order|
        invariant 0 <= i <= |order|
        invariant results == Keep(all[..i], PassesFilter(criteria))
      {
        var book := books[order[i]];
        KeepSnoc(all, i, PassesFilter(criteria));
        i := i + 1;
        if criteria.author.Some? && criteria.author.value != "" && !Contains(Lower(book.author), Lower(criteria.author.value)) {
          continue;
        }
        if criteria.inStock.Some? && book.inStock != criteria.inStock.value {
          continue;
        }
        if criteria.minPrice.Some? && book.price < criteria.minPrice.value {
          continue;
        }
        if criteria.maxPrice.Some? && book.price > criteria.maxPrice.value {
          continue;
        }
        if criteria.minYear.Some? && (book.publishedYear.None? || book.publishedYear.value < criteria.minYear.value) {
          continue;
        }
        if criteria.maxYear.Some? && (book.publishedYear.None? || book.publishedYear.value > criteria.maxYear.value) {
          continue;
        }
        results := results + [book];
      }
      KeepWhole(all, PassesFilter(criteria));
    }

    /** `get_stats`: the aggregates of the stored records; the in-stock figure is the in-stock index's size. */
    function GetStats(): (r: Stats)
      reads this
      requires Valid()
      ensures r.totalBooks == |books|
      ensures r.inStock == |inStockIndex|
      ensures r.inStock + r.outOfStock == r.totalBooks
      ensures r.totalValue == TotalValue(GetAll())
    {
      InStockCountOfListing(books, order);
      assert InStockAmong(books, order) == InStockIds(books);
      StatsOf(GetAll())
    }

    /**
     * The indexes answer like a scan of the store: an id is filed under an
     * author, a year or the in-stock set exactly when its record has that value.
     */
    lemma IndexesExact(id: BookId, a: string, y: int)
      requires Valid()
      ensures (a in authorIndex && id in authorIndex[a]) <==> id in books && books[id].author == a && a != ""
      ensures (y in yearIndex && id in yearIndex[y]) <==> id in books && books[id].publishedYear == Some(y) && y != 0
      ensures id in inStockIndex <==> id in books && books[id].inStock
    {
    }

    /** An id the store does not hold, such as one just deleted, is found by no lookup and filed in no bucket. */
    lemma AbsentIsUnfiled(id: BookId)
      requires Valid() && id !in books
      ensures Get(id) == None && id !in inStockIndex
      ensures forall a :: a in authorIndex ==> id !in authorIndex[a]
      ensures forall y :: y in yearIndex ==> id !in yearIndex[y]
    {
      MatchExcludes(authorIndex, books, IndexedAuthor, id);
      MatchExcludes(yearIndex, books, IndexedYear, id);
    }
  }
}
