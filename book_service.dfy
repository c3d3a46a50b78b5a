/** The catalog service: lookups, listings and search over the book table, and the
    create, full update, partial update and delete operations of the administrators. */
module Catalog {
  import opened Util
  import opened Domain
  import BookRepository

  /** `mapToDto`: the transfer object of a book. */
  function MapToDto(b: Book): (d: BookDto)
    ensures ToBook(d) == b
  {
    BookDto(b.id, b.title, b.author, b.available)
  }

  /** The book a transfer object describes; the inverse of `MapToDto`. */
  function ToBook(d: BookDto): Book {
    Book(d.id, d.title, d.author, d.available)
  }

  /** Different books never map to the same transfer object. */
  lemma MapToDtoInjective(a: Book, b: Book)
    requires MapToDto(a) == MapToDto(b)
    ensures a == b
  {
    assert ToBook(MapToDto(a)) == a;
  }

  lemma BooksOfDtos(books: seq<Book>)
    ensures MapSeq(MapSeq(books, MapToDto), ToBook) == books
  {
    MapSeqLeftInverse(books, MapToDto, ToBook);
  }

  /** A value in the body of a partial update, as the JSON reader produces it. */
  datatype JsonValue = JString(str: string) | JBool(flag: bool) | JNumber(num: int)

  const TITLE: string := "title"
  const AUTHOR: string := "author"
  const AVAILABLE: string := "available"

  /** The first key, in the order title, author, available, whose value cannot be
      cast to the field's type (a ClassCastException in the source). */
  function PatchTypeError(updates: map<string, JsonValue>): (r: Option<string>)
    ensures r.None? <==>
      (TITLE in updates ==> updates[TITLE].JString?) &&
      (AUTHOR in updates ==> updates[AUTHOR].JString?) &&
      (AVAILABLE in updates ==> updates[AVAILABLE].JBool?)
    ensures r.Some? ==> r.value in updates && r.value in {TITLE, AUTHOR, AVAILABLE}
    ensures r == Some(TITLE) ==> !updates[TITLE].JString?
    ensures r == Some(AUTHOR) ==> !updates[AUTHOR].JString? && (TITLE in updates ==> updates[TITLE].JString?)
    ensures r == Some(AVAILABLE) ==>
              && !updates[AVAILABLE].JBool?
              && (TITLE in updates ==> updates[TITLE].JString?)
              && (AUTHOR in updates ==> updates[AUTHOR].JString?)
  {
    if TITLE in updates && !updates[TITLE].JString? then Some(TITLE)
    else if AUTHOR in updates && !updates[AUTHOR].JString? then Some(AUTHOR)
    else if AVAILABLE in updates && !updates[AVAILABLE].JBool? then Some(AVAILABLE)
    else None
  }

  class BookService {
    const repo: BookRepository.BookStore

    constructor (repo: BookRepository.BookStore)
      ensures this.repo == repo
    {
      this.repo := repo;
    }

    /** `getAllBooks`: the transfer objects of all stored books, in table order. */
    function GetAllBooks(): (r: seq<BookDto>)
      reads repo
      ensures MapSeq(r, ToBook) == repo.books
    {
      BooksOfDtos(repo.books);
      MapSeq(repo.books, MapToDto)
    }

    /** `getAvailableBooks`: exactly the available books, each as often as stored. */
    function GetAvailableBooks(): (r: seq<BookDto>)
      reads repo
      ensures forall b :: multiset(MapSeq(r, ToBook))[b] == if b.available then multiset(repo.books)[b] else 0
    {
      var found := BookRepository.FindByAvailable(repo.books, true);
      BooksOfDtos(found);
      MapSeq(found, MapToDto)
    }

    /** `searchBooks(query)`: exactly the books whose title or author contains the
        query, each as often as stored. */
    function SearchBooks(query: string): (r: seq<BookDto>)
      reads repo
      ensures forall b :: multiset(MapSeq(r, ToBook))[b] ==
                          if IsSubstring(query, b.title) || IsSubstring(query, b.author)
                          then multiset(repo.books)[b] else 0
    {
      var found := BookRepository.FindByTitleContainingOrAuthorContaining(repo.books, query, query);
      BooksOfDtos(found);
      MapSeq(found, MapToDto)
    }

    /** `getBookEntityById(id)`: the stored book with this id, or ResourceNotFound. */
    function GetBookEntityById(id: nat): (r: Result<Book>)
      reads repo
      ensures r.Ok? ==> r.value in repo.books && r.value.id == id
      ensures r.Err? <==> forall b :: b in repo.books ==> b.id != id
      ensures r.Err? ==> r.error == BookNotFound(id)
    {
      match BookRepository.FindById(repo.books, id)
      case Some(b) => Ok(b)
      case None => Err(BookNotFound(id))
    }

    /** `getBookById(id)`: the transfer object of the stored book with this id, or
        ResourceNotFound. */
    function GetBookById(id: nat): (r: Result<BookDto>)
      reads repo
      ensures r.Ok? ==> ToBook(r.value) in repo.books && r.value.id == id
      ensures r.Err? <==> forall b :: b in repo.books ==> b.id != id
      ensures r.Err? ==> r.error == BookNotFound(id)
    {
      match BookRepository.FindById(repo.books, id)
      case Some(b) => Ok(MapToDto(b))
      case None => Err(BookNotFound(id))
    }

    /** `createBook(dto)`: stores a new book with the DTO's title, author and flag
        under a fresh id (the DTO's id is ignored) and returns its transfer object. */
    method CreateBook(dto: BookDto) returns (r: BookDto)
      requires repo.Valid()
      modifies repo
      ensures repo.Valid()
      ensures r.title == dto.title && r.author == dto.author && r.available == dto.available
      ensures r.id == old(repo.nextId) && forall b :: b in old(repo.books) ==> b.id != r.id
      ensures repo.books == old(repo.books) + [ToBook(r)] && repo.nextId == old(repo.nextId) + 1
    {
      var saved := repo.Insert(dto.title, dto.author, dto.available);
      r := MapToDto(saved);
    }

    /** `updateBook(id, dto)`: overwrites title, author and flag of the book with
        this id; an unknown id is ResourceNotFound and nothing is saved. */
    method UpdateBook(id: nat, dto: BookDto) returns (r: Result<BookDto>)
      requires repo.Valid()
      modifies repo
      ensures repo.Valid() && repo.nextId == old(repo.nextId)
      ensures old(BookRepository.FindById(repo.books, id)).None? ==>
                r == Err(BookNotFound(id)) && repo.books == old(repo.books)
      ensures old(BookRepository.FindById(repo.books, id)).Some? ==>
                r == Ok(BookDto(id, dto.title, dto.author, dto.available)) &&
                repo.books == BookRepository.ReplaceById(old(repo.books), ToBook(r.value))
    {
      var found := BookRepository.FindById(repo.books, id);
      if found.None? {
        return Err(BookNotFound(id));
      }
      var book := found.value;
      book := book.(title := dto.title);
      book := book.(author := dto.author);
      book := book.(available := dto.available);
      repo.Save(book);
      r := Ok(MapToDto(book));
    }

    /** `patchBook(id, updates)`: sets only the fields whose keys are present; an
        unknown id is ResourceNotFound and a value of the wrong type is a cast error,
        and in both cases nothing is saved. */
    method PatchBook(id: nat, updates: map<string, JsonValue>) returns (r: Result<BookDto>)
      requires repo.Valid()
      modifies repo
      ensures repo.Valid() && repo.nextId == old(repo.nextId)
      ensures old(BookRepository.FindById(repo.books, id)).None? ==>
                r == Err(BookNotFound(id)) && repo.books == old(repo.books)
      ensures old(BookRepository.FindById(repo.books, id)).Some? && PatchTypeError(updates).Some? ==>
                r == Err(ClassCast(PatchTypeError(updates).value)) && repo.books == old(repo.books)
      ensures old(BookRepository.FindById(repo.books, id)).Some? && PatchTypeError(updates).None? ==>
                var b := old(BookRepository.FindById(repo.books, id)).value;
                && r.Ok? && r.value.id == id
                && r.value.title == (if TITLE in updates then updates[TITLE].str else b.title)
                && r.value.author == (if AUTHOR in updates then updates[AUTHOR].str else b.author)
                && r.value.available == (if AVAILABLE in updates then updates[AVAILABLE].flag else b.available)
                && repo.books == BookRepository.ReplaceById(old(repo.books), ToBook(r.value))
      ensures updates == map[] && old(BookRepository.FindById(repo.books, id)).Some? ==>
                r == Ok(MapToDto(old(BookRepository.FindById(repo.books, id)).value)) && repo.books == old(repo.books)
    {
      var found := BookRepository.FindById(repo.books, id);
      if found.None? {
        return Err(BookNotFound(id));
      }
      var book := found.value;
      if TITLE in updates {
        if !updates[TITLE].JString? {
          return Err(ClassCast(TITLE));
        }
        book := book.(title := updates[TITLE].str);
      }
      if AUTHOR in updates {
        if !updates[AUTHOR].JString? {
          return Err(ClassCast(AUTHOR));
        }
        book := book.(author := updates[AUTHOR].str);
      }
      if AVAILABLE in updates {
        if !updates[AVAILABLE].JBool? {
          return Err(ClassCast(AVAILABLE));
        }
        book := book.(available := updates[AVAILABLE].flag);
      }
      if updates == map[] {
        BookRepository.ReplaceByStoredIsIdentity(repo.books, book);
      }
      repo.Save(book);
      r := Ok(MapToDto(book));
    }

    /** `deleteBook(id)`: removes the book with this id and no other; an unknown id
        is ResourceNotFound and nothing is deleted. */
    method DeleteBook(id: nat) returns (r: Result<()>)
      requires repo.Valid()
      modifies repo
      ensures repo.Valid() && repo.nextId == old(repo.nextId)
      ensures old(BookRepository.FindById(repo.books, id)).None? ==>
                r == Err(BookNotFound(id)) && repo.books == old(repo.books)
      ensures old(BookRepository.FindById(repo.books, id)).Some? ==>
                r == Ok(()) && repo.books == BookRepository.RemoveById(old(repo.books), id)
    {
      var found := BookRepository.FindById(repo.books, id);
      if found.None? {
        return Err(BookNotFound(id));
      }
      repo.Delete(found.value);
      r := Ok(());
    }
  }
}
