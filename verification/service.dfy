/**
 * `BookService`: the layer over one long-lived `BookRepository` that adds
 * pagination after sorting, partial updates, and a not-found failure for an
 * unknown id.
 */
module Service {
  import opened Wrappers
  import opened Seqs
  import opened Books
  import opened Queries
  import opened Sorting
  import opened Repository

  /** The HTTP 404 the service raises for an id the store does not hold. */
  datatype ServiceError = NotFound(id: BookId)

  /** `s[skip:skip + limit]` for a non-negative `skip` and `limit`. */
  function Paginate<T>(s: seq<T>, skip: nat, limit: nat): (r: seq<T>)
    ensures |r| <= limit
    ensures skip >= |s| ==> r == []
    ensures skip < |s| ==> |r| == if skip + limit <= |s| then limit else |s| - skip
    ensures forall i :: 0 <= i < |r| ==> r[i] == s[skip + i]
  {
    if skip >= |s| then [] else if skip + limit <= |s| then s[skip..skip + limit] else s[skip..]
  }

  /** Consecutive pages cover the sequence without gap or overlap. */
  lemma PagesTile<T>(s: seq<T>, skip: nat, limit: nat)
    requires skip + limit <= |s|
    ensures Paginate(s, skip, limit) + s[skip + limit..] == s[skip..]
  {
  }

  /** A page of a sorted sequence is sorted, and holds only records of that sequence. */
  lemma PageOfOrdered(s: seq<Book>, skip: nat, limit: nat, field: SortField, order: SortOrder)
    requires Ordered(s, field, order)
    ensures Ordered(Paginate(s, skip, limit), field, order)
    ensures forall b :: b in Paginate(s, skip, limit) ==> b in s
  {
    var r := Paginate(s, skip, limit);
    forall i, j | 0 <= i < j < |r|
      ensures Precedes(field, order, r[i], r[j])
    {
      assert r[i] == s[skip + i] && r[j] == s[skip + j];
    }
    forall b | b in r
      ensures b in s
    {
      var i :| 0 <= i < |r| && r[i] == b;
      assert s[skip + i] == b;
    }
  }

  /** The message `delete_book` returns on success. */
  function DeletedMessage(id: BookId): string
  {
    "Book with ID " + id + " deleted successfully"
  }

  class BookService {
    const repository: BookRepository

    /** `__init__`: the service over `repository`. */
    constructor (repository: BookRepository)
      ensures this.repository == repository
    {
      this.repository := repository;
    }

    /** `create_book`: passes the payload on and returns the stored record. */
    method CreateBook(id: BookId, data: NewBook, now: nat) returns (book: Book)
      requires repository.Valid() && id !in repository.books && repository.clock <= now
      modifies repository
      ensures repository.Valid()
      ensures book == NewRecord(id, data, now)
      ensures repository.books == old(repository.books)[id := book]
      ensures repository.order == old(repository.order) + [id]
      ensures repository.clock == now
      ensures repository.GetAll() == old(repository.GetAll()) + [book]
    {
      book := repository.Create(id, data, now);
    }

    /** `get_book`: the record under `id`, or not-found. */
    method GetBook(id: BookId) returns (r: Result<Book, ServiceError>)
      requires repository.Valid()
      ensures r.Success? <==> id in repository.books
      ensures r.Success? ==> r.value == repository.books[id] && r.value in repository.GetAll()
      ensures r.Failure? ==> r.error == NotFound(id)
    {
      var found := repository.Get(id);
      if found.None? {
        return Failure(NotFound(id));
      }
      r := Success(found.value);
    }

    /**
     * `get_all_books`: sorts every record, then returns the page starting at
     * `skip` of at most `limit` records.
     */
    method GetAllBooks(skip: nat, limit: nat, sortBy: SortField, order: SortOrder) returns (r: seq<Book>)
      requires repository.Valid()
      ensures r == Paginate(SortBooks(repository.GetAll(), sortBy, order), skip, limit)
      ensures |r| <= limit && (skip >= |repository.books| ==> r == [])
      ensures Ordered(r, sortBy, order)
      ensures forall b :: b in r ==> b.id in repository.books && repository.books[b.id] == b
    {
      var all := repository.GetAll();
      var sorted := SortBooks(all, sortBy, order);
      SortPermutation(all, sortBy, order);
      SortOrdered(all, sortBy, order);
      PageOfOrdered(sorted, skip, limit, sortBy, order);
      r := Paginate(sorted, skip, limit);
      forall b | b in r
        ensures b in all
      {
        assert b in multiset(sorted);
      }
    }

    /**
     * `update_book`: applies the mask to the record under `id`, or reports
     * not-found and changes nothing.
     */
    method UpdateBook(id: BookId, patch: BookPatch, now: nat) returns (r: Result<Book, ServiceError>)
      requires repository.Valid() && repository.clock <= now
      modifies repository
      ensures repository.Valid()
      ensures r.Failure? <==> id !in old(repository.books)
      ensures r.Failure? ==> r.error == NotFound(id) && unchanged(repository)
      ensures r.Success? ==> r.value == ApplyPatch(old(repository.books)[id], patch, now)
      ensures r.Success? ==> repository.books == old(repository.books)[id := r.value]
      ensures r.Success? ==> repository.order == old(repository.order)
      ensures r.Success? ==> r.value.createdAt <= r.value.updatedAt == repository.clock == now
    {
      var updated := repository.Update(id, patch, now);
      if updated.None? {
        return Failure(NotFound(id));
      }
      r := Success(updated.value);
    }

    /** `delete_book`: removes the record under `id`, or reports not-found. */
    method DeleteBook(id: BookId) returns (r: Result<string, ServiceError>)
      requires repository.Valid()
      modifies repository
      ensures repository.Valid()
      ensures r.Failure? <==> id !in old(repository.books)
      ensures r.Failure? ==> r.error == NotFound(id) && unchanged(repository)
      ensures r.Success? ==> r.value == DeletedMessage(id)
      ensures repository.books == old(repository.books) - {id}
      ensures repository.GetAll() == Keep(old(repository.GetAll()), HasOtherId(id))
      ensures repository.clock == old(repository.clock)
    {
      var deleted := repository.Delete(id);
      if !deleted {
        return Failure(NotFound(id));
      }
      r := Success(DeletedMessage(id));
    }

    /** `filter_books`: the records passing `criteria`, sorted by `sortBy` in `order`. */
    method FilterBooks(criteria: BookFilter, sortBy: SortField, order: SortOrder) returns (r: seq<Book>)
      requires repository.Valid()
      ensures r == SortBooks(FilterResults(repository.GetAll(), criteria), sortBy, order)
      ensures Ordered(r, sortBy, order)
      ensures forall b :: b in r <==> b in repository.GetAll() && Passes(b, criteria)
    {
      var filtered := repository.FilterBy(criteria);
      r := SortBooks(filtered, sortBy, order);
      SortOrdered(filtered, sortBy, order);
      SortPermutation(filtered, sortBy, order);
      forall b
        ensures b in r <==> b in repository.GetAll() && Passes(b, criteria)
      {
        assert b in r <==> b in multiset(filtered);
        FilterExact(repository.GetAll(), criteria, b);
      }
    }
  }

  /** A second delete of the same id finds nothing. */
  method DeleteTwice(service: BookService, id: BookId) returns (first: Result<string, ServiceError>, second: Result<string, ServiceError>)
    requires service.repository.Valid()
    modifies service.repository
    ensures second == Failure(NotFound(id))
    ensures first.Success? <==> id in old(service.repository.books)
  {
    first := service.DeleteBook(id);
    second := service.DeleteBook(id);
  }

  /** `get_service(get_repository())`: each request gets a new service over a new, empty repository. */
  method RequestService() returns (service: BookService)
    ensures fresh(service) && fresh(service.repository)
    ensures service.repository.Valid() && service.repository.books == map[] && service.repository.clock == 0
  {
    var repository := new BookRepository();
    service := new BookService(repository);
  }

  /** As wired, a record created in one request is not found by the next: each sees its own new repository. */
  method CreateThenGetPerRequest(id: BookId, data: NewBook, now: nat) returns (created: Book, fetched: Result<Book, ServiceError>)
    ensures created == NewRecord(id, data, now)
    ensures fetched == Failure(NotFound(id))
  {
    var first := RequestService();
    created := first.CreateBook(id, data, now);
    var second := RequestService();
    fetched := second.GetBook(id);
  }

  /** Over one long-lived service, the record just created is the one found under its id. */
  method CreateThenGet(service: BookService, id: BookId, data: NewBook, now: nat) returns (created: Book, fetched: Result<Book, ServiceError>)
    requires service.repository.Valid() && id !in service.repository.books && service.repository.clock <= now
    modifies service.repository
    ensures created == NewRecord(id, data, now)
    ensures fetched == Success(created)
  {
    created := service.CreateBook(id, data, now);
    fetched := service.GetBook(id);
  }
}
