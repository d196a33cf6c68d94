/**
 * The process-wide book slice of main.go as an object, and its handlers
 * as methods that read and change it one step at a time, each proved to
 * reply and leave the store exactly as the matching function of module
 * Handlers says.
 */
module BookStore {
  import opened Wrappers
  import opened Text
  import opened Books
  import Handlers

  class Store {
    /** The ordered slice of live records. */
    var books: seq<Book>

    /** The store as the process starts: the three seed records. */
    constructor ()
      ensures books == Seed()
    {
      books := Seed();
    }

    /** getBooks: the whole store, in store order, with 200. */
    method GetBooks() returns (reply: Handlers.Reply)
      ensures reply == Handlers.GetBooks(books)
      ensures reply.Status() == Handlers.StatusOK && reply.Listed? && reply.books == books
    {
      reply := Handlers.Listed(books);
    }

    /** isBookAlreadyExists: scans the store for a title equal to `title` up to case. */
    method IsBookAlreadyExists(title: string) returns (found: bool)
      ensures found <==> TitleTaken(books, title)
    {
      for i := 0 to |books|
        invariant !TitleTaken(books[..i], title)
      {
        assert books[..i + 1][..i] == books[..i];
        if EqualFold(books[i].Title, title) {
          assert TitleTaken(books[..i + 1], title);
          TitleTakenInPrefix(books, i + 1, title);
          return true;
        }
      }
      assert books[..|books|] == books;
      return false;
    }

    /**
     * getBookById: the first record holding `id` and its position, or
     * nothing and -1 when no record holds it.
     */
    method GetBookById(id: int64) returns (book: Option<Book>, index: int)
      ensures index == IndexOf(books, id)
      ensures book.None? <==> index == -1
      ensures book.Some? ==> 0 <= index < |books| && book.value == books[index] && book.value.ID == id
    {
      for i := 0 to |books|
        invariant forall j :: 0 <= j < i ==> books[j].ID != id
      {
        if books[i].ID == id {
          return Some(books[i]), i;
        }
      }
      return None, -1;
    }

    /** bookById. */
    method BookById(id: Handlers.Parsed<int64>) returns (reply: Handlers.Reply)
      ensures reply == Handlers.BookById(books, id)
    {
      if id.Unparsable? {
        return Handlers.InvalidArgument("Invalid Id");
      }
      var book, _ := GetBookById(id.value);
      if book.None? {
        return Handlers.NotFound(Handlers.BookNotFound);
      }
      return Handlers.Ok(Handlers.StatusFound, book.value);
    }

    /** createBook. */
    method CreateBook(payload: Handlers.Parsed<Book>) returns (reply: Handlers.Reply)
      modifies this
      ensures Handlers.Step(reply, books) == Handlers.CreateBook(old(books), payload)
      ensures StrictlyIncreasing(old(books)) && RoomForNextId(old(books)) ==> StrictlyIncreasing(books)
    {
      if payload.Unparsable? {
        return Handlers.InvalidArgument(payload.error);
      }
      var newBook := payload.value;
      var invalid := Validate(newBook);
      if invalid.Some? {
        return Handlers.InvalidArgument(invalid.value.Message());
      }
      var taken := IsBookAlreadyExists(newBook.Title);
      if taken {
        return Handlers.Conflict(Handlers.BookAlreadyExists);
      }
      if |books| == 0 {
        return Handlers.Panicked(Handlers.IndexOutOfRange);
      }
      newBook := newBook.(ID := Inc64(books[|books| - 1].ID));
      ghost var before := books;
      books := books + [newBook];
      assert books == Created(before, payload.value);
      if StrictlyIncreasing(before) && RoomForNextId(before) {
        CreatedKeepsIncreasing(before, payload.value);
      }
      reply := Handlers.Ok(Handlers.StatusCreated, newBook);
    }

    /** updateBookById: the priority chain writes into the matched record in place. */
    method UpdateBookById(id: Handlers.Parsed<int64>, payload: Handlers.Parsed<Book>) returns (reply: Handlers.Reply)
      modifies this
      ensures Handlers.Step(reply, books) == Handlers.UpdateBookById(old(books), id, payload)
      ensures StrictlyIncreasing(old(books)) ==> StrictlyIncreasing(books)
    {
      if id.Unparsable? {
        return Handlers.InvalidArgument("invalid Id");
      }
      if payload.Unparsable? {
        return Handlers.InvalidArgument(payload.error);
      }
      var newBook := payload.value;
      if newBook.ID != 0 {
        return Handlers.InvalidArgument(IdSupplied.Message());
      }
      var found, index := GetBookById(id.value);
      if found.None? {
        return Handlers.InvalidArgument(Handlers.BookNotFound);
      }
      var book := books[index];
      if !IsBlank(newBook.Title) {
        book := book.(Title := newBook.Title);
      } else if !IsBlank(newBook.Author) {
        book := book.(Author := newBook.Title);
      } else if newBook.Quantity >= 0 {
        book := book.(Quantity := newBook.Quantity);
      }
      if StrictlyIncreasing(books) {
        PatchedKeepsIncreasing(books, index, newBook);
      }
      books := books[index := book];
      reply := Handlers.Ok(Handlers.StatusOK, book);
    }

    /** removeBook: drops position `index`, shifting the records after it down by one. */
    method RemoveBook(index: int)
      requires 0 <= index < |books|
      modifies this
      ensures books == Removed(old(books), index)
    {
      books := books[..index] + books[index + 1..];
    }

    /** deleteBook: replies with a copy of the record taken before it is removed. */
    method DeleteBook(id: Handlers.Parsed<int64>) returns (reply: Handlers.Reply)
      modifies this
      ensures Handlers.Step(reply, books) == Handlers.DeleteBook(old(books), id)
      ensures StrictlyIncreasing(old(books)) ==> StrictlyIncreasing(books)
    {
      if id.Unparsable? {
        return Handlers.InvalidArgument("invalid Id");
      }
      var found, index := GetBookById(id.value);
      if found.None? {
        return Handlers.InvalidArgument(Handlers.BookNotFound);
      }
      var deletedBook := found.value;
      if StrictlyIncreasing(books) {
        RemovedKeepsIncreasing(books, index);
      }
      RemoveBook(index);
      reply := Handlers.Deleted(deletedBook);
    }
  }

  /**
   * A client of the store: a create, a get of the new record, an update of
   * its quantity alone and a delete, after which the id is no longer found
   * and the store is back where it started.
   */
  method Lifecycle(store: Store, title: string, author: string, quantity: int64)
    requires StrictlyIncreasing(store.books) && RoomForNextId(store.books) && |store.books| > 0
    requires Validate(Book(0, title, author, quantity)).None? && !TitleTaken(store.books, title)
    modifies store
    ensures store.books == old(store.books)
  {
    var payload := Book(0, title, author, quantity);
    var id := NextId(store.books);
    Handlers.CreateBookRefusals(store.books, Handlers.Parsed(payload));
    CreatedIsFound(store.books, payload);
    var created := store.CreateBook(Handlers.Parsed(payload));
    assert created == Handlers.Ok(Handlers.StatusCreated, Book(id, title, author, quantity));

    var got := store.BookById(Handlers.Parsed(id));
    assert got == Handlers.Ok(Handlers.StatusFound, created.book);

    var quantityOnly := Book(0, "", "", 10);
    assert IsBlank("");
    PatchedKeepsIndexOf(store.books, |old(store.books)|, quantityOnly, id);
    var updated := store.UpdateBookById(Handlers.Parsed(id), Handlers.Parsed(quantityOnly));
    assert updated == Handlers.Ok(Handlers.StatusOK, Book(id, title, author, 10));

    IncreasingIdsAreUnique(store.books);
    Handlers.DeletedIdIsGone(store.books, id);
    var deleted := store.DeleteBook(Handlers.Parsed(id));
    assert deleted == Handlers.Deleted(Book(id, title, author, 10));
    var gone := store.BookById(Handlers.Parsed(id));
    assert gone == Handlers.NotFound(Handlers.BookNotFound);
    assert store.books == Removed(old(store.books) + [Book(id, title, author, 10)], |old(store.books)|);
  }
}
