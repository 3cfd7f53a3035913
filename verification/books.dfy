/**
 * The book record, the create payload, the partial-update mask and the value
 * bounds the request models enforce before anything reaches the repository.
 * Prices are whole cents: the price validator rounds to two decimals, so a
 * validated price is always a whole number of cents.
 */
module Books {
  import opened Wrappers

  /** Identifiers are opaque strings (a uuid4 in the running system). */
  type BookId = string

  const MAX_TITLE_LENGTH: nat := 200
  const MAX_AUTHOR_LENGTH: nat := 100
  const MIN_YEAR: int := 1000
  /** MAX_PRICE is 1000000 currency units, i.e. 100000000 cents. */
  const MAX_PRICE_CENTS: int := 1000000 * 100

  /** A stored record: the payload fields plus id and the two timestamps. */
  datatype Book = Book(
    id: BookId,
    title: string,
    author: string,
    price: int,
    inStock: bool,
    publishedYear: Option<int>,
    createdAt: nat,
    updatedAt: nat)

  /** A create payload (`BookCreate.model_dump()`): every field present. */
  datatype NewBook = NewBook(
    title: string,
    author: string,
    price: int,
    inStock: bool,
    publishedYear: Option<int>)

  /**
   * An update mask (`BookUpdate.model_dump(exclude_unset=True)`): `None` means
   * the caller did not send the field. The year is doubly optional because an
   * explicit null clears it.
   */
  datatype BookPatch = BookPatch(
    title: Option<string>,
    author: Option<string>,
    price: Option<int>,
    inStock: Option<bool>,
    publishedYear: Option<Option<int>>)

  /** The mask of an update that sends no field at all. */
  const NoChanges := BookPatch(None, None, None, None, None)

  predicate ValidTitle(t: string) { 1 <= |t| <= MAX_TITLE_LENGTH }

  predicate ValidAuthor(a: string) { 1 <= |a| <= MAX_AUTHOR_LENGTH }

  /**
   * A created record's price: `gt=0, le=MAX_PRICE` are checked on the value as
   * sent, and `validate_price` then rounds it to cents, so a positive amount
   * under half a cent is stored as 0.
   */
  predicate ValidPrice(cents: int) { 0 <= cents <= MAX_PRICE_CENTS }

  /** An update's price: `gt=0, le=MAX_PRICE` with no rounding after them. */
  predicate ValidPatchPrice(cents: int) { 0 < cents <= MAX_PRICE_CENTS }

  /** `ge=MIN_YEAR, le=<current year>` and `validate_published_year`; absent is fine. */
  predicate ValidYear(year: Option<int>, currentYear: int)
  {
    year.None? || MIN_YEAR <= year.value <= currentYear
  }

  /** What `BookCreate` accepts, the current year being a parameter. */
  predicate ValidNewBook(p: NewBook, currentYear: int)
  {
    ValidTitle(p.title) && ValidAuthor(p.author) && ValidPrice(p.price) && ValidYear(p.publishedYear, currentYear)
  }

  /** What `BookUpdate` accepts: every supplied field within its bound. */
  predicate ValidPatch(m: BookPatch, currentYear: int)
  {
    && (m.title.Some? ==> ValidTitle(m.title.value))
    && (m.author.Some? ==> ValidAuthor(m.author.value))
    && (m.price.Some? ==> ValidPatchPrice(m.price.value))
    && (m.publishedYear.Some? ==> ValidYear(m.publishedYear.value, currentYear))
  }

  /** The payload fields of a stored record. */
  function PayloadOf(b: Book): NewBook
  {
    NewBook(b.title, b.author, b.price, b.inStock, b.publishedYear)
  }

  /** A record whose payload fields all satisfy the request bounds. */
  predicate ValidBook(b: Book, currentYear: int)
  {
    ValidNewBook(PayloadOf(b), currentYear)
  }

  /** The record `create` builds: the payload, the new id, one timestamp used twice. */
  function NewRecord(id: BookId, p: NewBook, now: nat): (b: Book)
    ensures PayloadOf(b) == p
    ensures b.id == id && b.createdAt == now && b.updatedAt == now
  {
    Book(id, p.title, p.author, p.price, p.inStock, p.publishedYear, now, now)
  }

  /**
   * `{**old_book, **update_data, 'updated_at': now}`: supplied fields win,
   * unsupplied ones are kept, id and created_at never change.
   */
  function ApplyPatch(b: Book, m: BookPatch, now: nat): (r: Book)
    ensures r.id == b.id && r.createdAt == b.createdAt && r.updatedAt == now
    ensures r.title == if m.title.Some? then m.title.value else b.title
    ensures r.author == if m.author.Some? then m.author.value else b.author
    ensures r.price == if m.price.Some? then m.price.value else b.price
    ensures r.inStock == if m.inStock.Some? then m.inStock.value else b.inStock
    ensures r.publishedYear == if m.publishedYear.Some? then m.publishedYear.value else b.publishedYear
  {
    var title := if m.title.Some? then m.title.value else b.title;
    var author := if m.author.Some? then m.author.value else b.author;
    var price := if m.price.Some? then m.price.value else b.price;
    var inStock := if m.inStock.Some? then m.inStock.value else b.inStock;
    var year := if m.publishedYear.Some? then m.publishedYear.value else b.publishedYear;
    b.(title := title, author := author, price := price, inStock := inStock, publishedYear := year, updatedAt := now)
  }

  /** An empty mask changes nothing but the update timestamp. */
  lemma EmptyPatchTouchesOnlyTimestamp(b: Book, now: nat)
    ensures ApplyPatch(b, NoChanges, now) == b.(updatedAt := now)
    ensures PayloadOf(ApplyPatch(b, NoChanges, now)) == PayloadOf(b)
  {
  }

  /** The mask sending what `second` sends and, for the other fields, what `first` sends. */
  function Overlay(first: BookPatch, second: BookPatch): BookPatch
  {
    BookPatch(
      if second.title.Some? then second.title else first.title,
      if second.author.Some? then second.author else first.author,
      if second.price.Some? then second.price else first.price,
      if second.inStock.Some? then second.inStock else first.inStock,
      if second.publishedYear.Some? then second.publishedYear else first.publishedYear)
  }

  /** Two updates in a row act as one update with the later mask laid over the earlier. */
  lemma PatchesCompose(b: Book, first: BookPatch, second: BookPatch, t1: nat, t2: nat)
    ensures ApplyPatch(ApplyPatch(b, first, t1), second, t2) == ApplyPatch(b, Overlay(first, second), t2)
  {
  }

  /** Repeating an update changes nothing but the update timestamp. */
  lemma PatchIdempotent(b: Book, m: BookPatch, t1: nat, t2: nat)
    ensures ApplyPatch(ApplyPatch(b, m, t1), m, t2) == ApplyPatch(b, m, t2)
  {
  }

  /** A validated mask applied to a validated record yields a validated record. */
  lemma PatchKeepsValidity(b: Book, m: BookPatch, now: nat, currentYear: int)
    requires ValidBook(b, currentYear) && ValidPatch(m, currentYear)
    ensures ValidBook(ApplyPatch(b, m, now), currentYear)
  {
  }

  /** The author value under which `_update_indexes` files a record (`if author:`). */
  function IndexedAuthor(b: Book): Option<string>
  {
    if b.author != "" then Some(b.author) else None
  }

  /** The year value under which `_update_indexes` files a record (`if year:`: None and 0 are skipped). */
  function IndexedYear(b: Book): Option<int>
  {
    if b.publishedYear.Some? && b.publishedYear.value != 0 then b.publishedYear else None
  }

  /**
   * The truthiness guards of the index code never skip a validated record:
   * its author is non-empty and its year, when present, is at least MIN_YEAR.
   */
  lemma ValidBookIsFullyIndexed(b: Book, currentYear: int)
    requires ValidBook(b, currentYear)
    ensures IndexedAuthor(b) == Some(b.author)
    ensures IndexedYear(b) == b.publishedYear
  {
  }
}
