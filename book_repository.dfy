/** The book table and the queries of the book repository: the `findById`, `save`
    and `delete` it inherits from the JPA repository, and its two derived queries. */
module BookRepository {
  import opened Util
  import opened Domain

  /** No two rows share an id (the primary key). */
  ghost predicate UniqueIds(books: seq<Book>) {
    forall i, j :: 0 <= i < j < |books| ==> books[i].id != books[j].id
  }

  /** `findById`: the row with this id, if any. */
  function FindById(books: seq<Book>, id: nat): (r: Option<Book>)
    ensures r.Some? ==> r.value in books && r.value.id == id
    ensures r.None? <==> forall b :: b in books ==> b.id != id
  {
    FindFirst(books, (b: Book) => b.id == id)
  }

  /** With a primary key, the lookup returns exactly the stored row. */
  lemma FindByIdOfStored(books: seq<Book>, b: Book)
    requires UniqueIds(books) && b in books
    ensures FindById(books, b.id) == Some(b)
  {
    var r := FindById(books, b.id);
    var i :| 0 <= i < |books| && books[i] == r.value;
    var j :| 0 <= j < |books| && books[j] == b;
    assert !(i < j) && !(j < i);
  }

  /** `findByAvailable(available)`: every stored book whose flag equals `available`,
      each as often as it is stored, and nothing else. */
  function FindByAvailable(books: seq<Book>, available: bool): (r: seq<Book>)
    ensures forall b :: multiset(r)[b] == if b.available == available then multiset(books)[b] else 0
  {
    Filter(books, (b: Book) => b.available == available)
  }

  /** The available and the unavailable books together are the whole table. */
  lemma AvailabilityPartitionsBooks(books: seq<Book>)
    ensures multiset(FindByAvailable(books, true)) + multiset(FindByAvailable(books, false)) == multiset(books)
    ensures multiset(FindByAvailable(books, true)) !! multiset(FindByAvailable(books, false))
  {
    var t, f := FindByAvailable(books, true), FindByAvailable(books, false);
    assert forall b :: (multiset(t) + multiset(f))[b] == multiset(books)[b];
    assert forall b :: multiset(t)[b] == 0 || multiset(f)[b] == 0;
  }

  /** The condition of `findByTitleContainingOrAuthorContaining(title, author)`. */
  predicate TitleOrAuthorMatches(b: Book, title: string, author: string) {
    Contains(b.title, title) || Contains(b.author, author)
  }

  /** `findByTitleContainingOrAuthorContaining(title, author)`: every stored book whose
      title contains `title` or whose author contains `author`, each as often as it
      is stored, and nothing else. */
  function FindByTitleContainingOrAuthorContaining(books: seq<Book>, title: string, author: string): (r: seq<Book>)
    ensures forall b ::
              multiset(r)[b] == if IsSubstring(title, b.title) || IsSubstring(author, b.author) then multiset(books)[b] else 0
  {
    Filter(books, (b: Book) => TitleOrAuthorMatches(b, title, author))
  }

  /** The table after `save` of an entity that already has an id: the row with that
      id is overwritten, every other row stays. */
  function ReplaceById(books: seq<Book>, b: Book): (r: seq<Book>)
    ensures |r| == |books|
    ensures forall i :: 0 <= i < |r| ==> r[i] == if books[i].id == b.id then b else books[i]
  {
    MapSeq(books, (x: Book) => if x.id == b.id then b else x)
  }

  /** Saving a row that is already stored changes nothing. */
  lemma ReplaceByStoredIsIdentity(books: seq<Book>, b: Book)
    requires UniqueIds(books) && b in books
    ensures ReplaceById(books, b) == books
  {
    var j :| 0 <= j < |books| && books[j] == b;
    forall i | 0 <= i < |books|
      ensures ReplaceById(books, b)[i] == books[i]
    {
      if i != j {
        assert i < j || j < i;
      }
    }
  }

  /** The table after `delete` of the entity with this id. */
  function RemoveById(books: seq<Book>, id: nat): (r: seq<Book>)
    ensures forall b :: multiset(r)[b] == if b.id != id then multiset(books)[b] else 0
    ensures forall b :: b in r <==> b in books && b.id != id
  {
    Filter(books, (b: Book) => b.id != id)
  }

  lemma RemoveByIdKeepsUniqueIds(books: seq<Book>, id: nat)
    requires UniqueIds(books)
    ensures UniqueIds(RemoveById(books, id))
  {
    var key := (b: Book) => b.id;
    FilterKeepsDistinctKeys(books, (b: Book) => b.id != id, key);
    var r := RemoveById(books, id);
    assert forall i, j :: 0 <= i < j < |r| ==> key(r[i]) != key(r[j]);
  }

  /** The book table. Ids come from an identity counter, so a new row's id is
      never used by an earlier row. */
  class BookStore {
    var books: seq<Book>
    var nextId: nat

    ghost predicate Valid()
      reads this
    {
      UniqueIds(books) && forall i :: 0 <= i < |books| ==> books[i].id < nextId
    }

    constructor ()
      ensures Valid() && books == [] && nextId == 1
    {
      books := [];
      nextId := 1;
    }

    /** `save` of a new entity: it gets the next id and is appended. */
    method Insert(title: string, author: string, available: bool) returns (saved: Book)
      requires Valid()
      modifies this
      ensures Valid()
      ensures saved == Book(old(nextId), title, author, available)
      ensures books == old(books) + [saved] && nextId == old(nextId) + 1
    {
      saved := Book(nextId, title, author, available);
      books := books + [saved];
      nextId := nextId + 1;
    }

    /** `save` of an entity that has an id (also the flush of a changed managed entity). */
    method Save(b: Book)
      requires Valid()
      modifies this
      ensures Valid()
      ensures books == ReplaceById(old(books), b) && nextId == old(nextId)
    {
      books := ReplaceById(books, b);
    }

    /** `delete` of an entity: its row goes, every other row stays. */
    method Delete(b: Book)
      requires Valid()
      modifies this
      ensures Valid()
      ensures books == RemoveById(old(books), b.id) && nextId == old(nextId)
    {
      RemoveByIdKeepsUniqueIds(books, b.id);
      books := RemoveById(books, b.id);
    }
  }
}
