# Book inventory: repository and service

A Dafny model of the in-memory book inventory in `book.py`. It covers:

- **`BookRepository`**: an insertion-ordered dictionary from id to record. It keeps three derived indexes: author → ids, published year → ids, and the set of in-stock ids.
- **`BookService`**, which adds three things on top of the repository:
  - pagination after sorting;
  - partial updates;
  - a not-found failure for an unknown id.

The model is split into these modules:

- `Books` (`books.dfy`): the record, the create payload, the update mask, the request bounds, and the record-building functions.
- `Text` (`text.dfy`): lower-casing, substring and string order.
- `Seqs` (`seqs.dfy`): `Keep`, the meaning of a loop that scans a list and appends the items it accepts.
- `Queries` (`queries.dfy`): what `search` and `filter_by` return.
- `Sorting` (`sorting.dfy`): `sort_books`, as a stable insertion sort.
- `Statistics` (`stats.dfy`): `get_stats`.
- `Repository` (`repository.dfy`): the `BookRepository` class. Its fields are the store map, the insertion order, the three indexes and `clock`, the latest time a record was stamped. Its methods change them in place, and its invariant includes the timestamp rule below.
- `Service` (`service.dfy`): the `BookService` class over one repository.
- `Scenario` (`scenario.dfy`): the five startup samples.

The main invariant is `BookRepository.Valid()`. It says four things:

- the order lists every stored id exactly once;
- every record carries its own id;
- each index bucket equals the bucket rebuilt from the store, and every indexed value has a bucket. Buckets emptied by a removal may remain, as they do in the dictionaries of `book.py`;
- every record's `updated_at` is at least its `created_at` and at most the repository's clock.

`Create`, `Update` and `Delete` each preserve it. `IndexesExact` states what it means for a single id.

Modelling choices:

- **Prices** are whole cents, because the price validator rounds to two decimals.
- **Timestamps** are a `now: nat` supplied by the caller. The repository keeps `clock`, the latest time it stamped a record. `create` and `update` take a `now` no earlier than that clock, which models a clock that does not run backwards.
- **New ids** are supplied by the caller. The requirement that the id is fresh stands in for `uuid4`.
- **Python truthiness in the index code** is kept exactly:
  - an empty author is not indexed;
  - a missing year or the year 0 is not indexed.

## Model

| member | source | states |
|---|---|---|
| Books.NewRecord | book.py:195-205 | the created record carries exactly the payload fields, the new id, and `created_at == updated_at ==` the creation time |
| Books.ApplyPatch | book.py:230 | `{**old, **mask, 'updated_at': now}`: a field the mask supplies replaces the stored one, any other is kept; id and created_at never change; updated_at is always refreshed |
| Books.EmptyPatchTouchesOnlyTimestamp | book.py:230 | an update with an empty mask changes only `updated_at` |
| Books.PatchesCompose | book.py:230 | two updates in a row act as one update whose mask is the later mask laid over the earlier |
| Books.PatchIdempotent | book.py:230 | repeating an update changes nothing but the timestamp |
| Books.PatchKeepsValidity | book.py:54-137 | a mask within the `BookUpdate` bounds, applied to a record within the `BookBase` bounds, yields a record within those bounds |
| Books.ValidBookIsFullyIndexed | book.py:163-175 | the truthiness guards of `_update_indexes` never skip a validated record: its author is non-empty and its year, when present, is at least MIN_YEAR |
| Text.Lower | book.py:253 | `lower()` keeps the length, leaves no upper-case letter, moves each upper-case letter 32 code points up, and keeps every other character in place (ASCII letters only) |
| Text.LowerIdempotent | book.py:253-258 | lower-casing twice equals lower-casing once, and leaves no upper-case letter |
| Text.ContainsAt | book.py:257-258 | `sub in s` holds iff `sub` occurs at some position of `s` |
| Text.ContainsEmpty | book.py:257-258 | the empty string is in every string |
| Text.LexLeReflexive | book.py:309 | Python's string order is reflexive |
| Text.LexLeTotal | book.py:309 | Python's string order is total |
| Text.LexLeAntisymmetric | book.py:309 | strings that are each `<=` the other are equal |
| Text.LexLeTransitive | book.py:309 | Python's string order is transitive |
| Seqs.KeepMembership | book.py:254-261 | a scan that appends accepted items keeps an item iff it occurs in the input and is accepted |
| Seqs.KeepMultiset | book.py:254-261 | an accepted item is kept as many times as it occurs, and a rejected one never |
| Seqs.KeepIsSubsequence | book.py:254-261 | a scan's result is an order-preserving subsequence of its input |
| Seqs.KeepConcat | book.py:254-261 | scanning a concatenation is scanning each part |
| Seqs.KeepSnoc | book.py:256-259 | one loop step appends the next item exactly when it is accepted |
| Seqs.KeepDistinct | book.py:246 | filtering a list without repetitions leaves a list without repetitions |
| Queries.SearchExact | book.py:251-261 | `search(q)` returns a record iff it is stored and its lower-cased title or author contains the lower-cased `q`, with the same multiplicity |
| Queries.SearchKeepsOrder | book.py:251-261 | search results are a subsequence of `get_all()`, in store order |
| Queries.SearchEmptyQuery | book.py:251-261 | the empty query returns every record, in order |
| Queries.SearchIgnoresCase | book.py:253 | a query and its lower-cased form give the same results |
| Queries.FilterExact | book.py:263-294 | `filter_by` returns exactly the stored records passing every given criterion, in store order |
| Queries.FilterWithoutCriteria | book.py:273-292 | with no criterion, or only an empty author string, every record is returned |
| Queries.FilterExcludesYearless | book.py:283-290 | a record without a year fails any filter that bounds the year |
| Queries.FilterPriceRangeInclusive | book.py:279-282 | both price bounds are inclusive |
| Sorting.KeyLeReflexive | book.py:301-309 | every sort key is `<=` itself |
| Sorting.KeyLeTotal | book.py:301-309 | any two sort keys are comparable, including the fallback 0 for a missing year (title and author are never missing, so the `""` fallback never arises) |
| Sorting.KeyLeTransitive | book.py:301-309 | the key order is transitive |
| Sorting.KeyLeAntisymmetric | book.py:301-309 | keys that are each `<=` the other are equal |
| Sorting.SortPermutation | book.py:296-309 | `sort_books` returns a permutation of its input |
| Sorting.SortOrdered | book.py:296-309 | the result has non-decreasing keys for asc and non-increasing keys for desc |
| Sorting.SortStable | book.py:309 | for every key, records with that key keep their input order, in both directions |
| Sorting.OrderedUnique | book.py:309 | two ordered permutations of a list with distinct keys are equal |
| Sorting.SortDescIsReversedAsc | book.py:298-309 | when keys are distinct, the descending sort is the ascending sort reversed |
| Statistics.InStockCount | book.py:323 | the in-stock count never exceeds the record count |
| Statistics.StatsOf | book.py:311-331 | an empty store reports zeros; otherwise the count is the number of records, the value is the sum of prices, in-stock plus out-of-stock is the count, and average times count is the value |
| Statistics.InStockCountIsFilterSize | book.py:323 | the in-stock count equals the size of `filter_by(in_stock=True)` |
| Statistics.OutOfStockIsFilterSize | book.py:329 | the out-of-stock count equals the size of `filter_by(in_stock=False)` |
| Statistics.TotalValueBounds | book.py:322 | prices all in `[lo, hi]` sum to between `n*lo` and `n*hi` |
| Statistics.AverageWithinPrices | book.py:330 | the average lies between the lowest and the highest price |
| Repository.FileKeepsMatch | book.py:163-175 | filing a new id in the bucket of its value (creating the bucket when missing) keeps an index equal to the one rebuilt from the grown store |
| Repository.UnfileKeepsMatch | book.py:185-191 | discarding an id from its old bucket keeps an index equal to the one rebuilt from the store without it |
| Repository.InStockInsert | book.py:177-181 | the in-stock set of the grown store gains the id iff the record is in stock |
| Repository.InStockRemove | book.py:193 | the in-stock set of the shrunk store loses the id |
| Repository.FilingKeepsIndexes | book.py:161-181 | what `_update_indexes` leaves matches the store grown by the record |
| Repository.UnfilingKeepsIndexes | book.py:183-193 | what `_remove_from_indexes` leaves matches the store without the record |
| Repository.ListingWithout | book.py:246 | after `del`, `values()` is the old listing without the deleted record, in the old order |
| Repository.AppendKeepsWellFormed | book.py:207 | storing a fresh key keeps the dictionary well formed and lists the new record last |
| Repository.ReplaceKeepsWellFormed | book.py:231 | reassigning an existing key keeps its position: the listing changes only at that position |
| Repository.RemoveKeepsWellFormed | book.py:246 | deleting a key keeps the dictionary well formed, and the listing loses exactly that record |
| Repository.StampedStore | book.py:198-207 | storing a record stamped at a time no earlier than the clock keeps every record created no later than it was updated, and no later than the new time |
| Repository.PatchStamped | book.py:230 | an update stamped no earlier than the clock leaves the record's `created_at` at or before its new `updated_at` |
| Repository.StampedRemove | book.py:246 | deleting a record keeps the timestamp invariant of the others |
| Repository.InStockCountOfListing | book.py:323 | counting in-stock records in `values()` counts the in-stock ids |
| Repository.BookRepository.constructor | book.py:151-158 | the repository starts with an empty store, empty indexes and the clock at 0, and is valid |
| Repository.BookRepository.UpdateIndexes | book.py:161-181 | each index gains the id under the record's value (in-stock: added iff in stock, removed otherwise), and the indexes match the grown store |
| Repository.BookRepository.RemoveFromIndexes | book.py:183-193 | the id leaves the buckets of the old record's values and the in-stock set, and the indexes match the store without it |
| Repository.BookRepository.GetAll | book.py:217-219 | `get_all()` lists every stored record exactly once, in insertion order |
| Repository.BookRepository.Get | book.py:213-215 | `get(id)` finds a record iff the id is listed, and the record found is the one stored under that id |
| Repository.BookRepository.Create | book.py:195-211 | stores exactly one new record under the fresh id, leaves the others unchanged, appends it to `get_all()`, advances the clock to its timestamp, and keeps the invariant |
| Repository.BookRepository.Update | book.py:221-237 | an unknown id yields None and changes nothing; otherwise the masked record replaces the old one at the same position in the order, its `updated_at` is the new time and not before its `created_at`, and the indexes follow |
| Repository.BookRepository.Delete | book.py:239-249 | returns whether the id was stored; an unknown id changes nothing; otherwise `get_all()` is the old listing without that record, the clock stays, and the indexes match |
| Repository.BookRepository.Search | book.py:251-261 | the loop returns exactly `SearchResults` of `get_all()` |
| Repository.BookRepository.FilterBy | book.py:263-294 | the loop, with its `continue`s, returns exactly `FilterResults` of `get_all()` |
| Repository.BookRepository.GetStats | book.py:311-331 | the count is the store size; the in-stock figure equals the size of the in-stock index; in-stock plus out-of-stock is the count; the value is the sum of prices |
| Repository.BookRepository.IndexesExact | book.py:154-193 | in a valid repository an id is in the bucket of author `a` (year `y`, in-stock) iff it is stored with that truthy value |
| Repository.BookRepository.AbsentIsUnfiled | book.py:239-249 | an id not in the store, such as one just deleted, is found by no `get` and is filed in no bucket |
| Service.Paginate | book.py:367 | `s[skip:skip+limit]`: at most `limit` items, empty when `skip >= len(s)`, item `i` is `s[skip+i]` |
| Service.PagesTile | book.py:367 | a page followed by what lies after it is everything from `skip` on |
| Service.PageOfOrdered | book.py:363-367 | a page of a sorted list is sorted and holds only items of that list |
| Service.BookService.constructor | book.py:337-339 | the service works on the repository it was given |
| Service.BookService.CreateBook | book.py:341-345 | passes the payload to `create` and returns the new record, stored under its id and appended last to the listing; the clock becomes the creation time |
| Service.BookService.GetBook | book.py:347-355 | success iff the id is stored, with the stored record; otherwise not-found for that id |
| Service.BookService.GetAllBooks | book.py:357-369 | the page of the sorted listing: at most `limit` records, empty when `skip` is at least the count, sorted, all stored |
| Service.BookService.UpdateBook | book.py:371-382 | not-found with no change iff the id is unknown; otherwise the masked record, stored under its id with the insertion order unchanged, updated at the new time and not before its creation |
| Service.BookService.DeleteBook | book.py:384-392 | not-found with no change iff the id is unknown; otherwise the success message, the record is gone, and the listing is the old one without it, in the old order; the clock is unchanged |
| Service.BookService.FilterBooks | book.py:399-419 | the filtered records sorted: ordered, and holding exactly the stored records that pass the criteria |
| Service.DeleteTwice | book.py:384-392 | a second delete of the same id reports not-found |
| Service.RequestService | book.py:426-432 | the dependency wiring gives each request a new service over a new, empty repository |
| Service.CreateThenGetPerRequest | book.py:426-432 | as wired, a record created in one request is not found in the next |
| Service.CreateThenGet | book.py:341-355 | over one long-lived service, the record just created is found under its id |
| Scenario.SampleStats | book.py:446-481 | the five samples give 5 books, value 64.95, 4 in stock, 1 out of stock, average 12.99 |
| Scenario.SamplePriceRange | book.py:446-481 | filtering the samples on prices 10.99 to 14.99 keeps the three priced inside, in creation order |

## Left out

- The FastAPI application is not modelled: routes, middleware, exception handlers, the health check and the uvicorn entry point. Logging is also left out.
- The pydantic machinery is not modelled. Only the field bounds remain, as predicates (`ValidNewBook`, `ValidPatch`). The current year is a parameter.
- Explicit nulls for title, author, price or in_stock in an update are not modelled. The mask holds only non-null values for those four fields. A null clearing `published_year` is modelled.
- `BookUpdate` has no price validator, so an updated price is not rounded to cents. The model keeps every price in whole cents. An update price must be at least 1 cent; a created price may round down to 0 cents.
- Floating point is not modelled:
  - prices are whole cents, so totals are exact;
  - `round(..., 2)` in `get_stats` is left out;
  - `Statistics.StatsOf`: the average is the exact quotient in cents, not the rounded float.
- `Text.Lower` lower-cases ASCII letters only, while Python's `str.lower` covers all of Unicode.
- `Sorting.KeyLe`: records sorted by one field all have keys of the same kind. The order between a number and a string, which Python would reject, is arbitrary.
- `datetime.now()` is not modelled; the time is a `now` parameter that is assumed never to fall below the repository's clock (wall-clock steps backwards are not modelled). `uuid4()` is not modelled; the fresh id is a parameter required to be absent from the store.
- The model treats the repository as one long-lived object. The Findings section shows the wiring as written.
- `search_books` and `get_book_stats` in the service only pass their arguments through. They are covered by `Repository.BookRepository.Search` and `Repository.BookRepository.GetStats`.
- The startup seeding is modelled as the values it produces (`Scenario`), not as a run of five `create` calls.
- Concurrency is left out: the async handlers add no shared-state logic.
- The other programs in the repository are not part of this model: the SQLAlchemy CRUD app, the MySQL console program and the machine-learning scripts.

## Findings

| source | as written | input that shows it | evidently intended | confidence | as-written member | corrected member |
|---|---|---|---|---|---|---|
| book.py:426-432 | `get_repository` builds a new, empty `BookRepository` on every call, so each request works on its own empty store and the repository seeded at startup is never seen | create a book with one request, then fetch its id with the next: the fetch reports not-found | one repository shared by all requests, as the startup seeding and its log of the stored count assume | high; not executed | Service.CreateThenGetPerRequest | Service.CreateThenGet |
