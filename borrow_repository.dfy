/** The loan table and the three derived queries of the borrow repository, each a
    filter (and for the history an ordering) over the stored loan records. */
module BorrowRepository {
  import opened Util
  import opened Domain

  /** No two rows share an id (the primary key). */
  ghost predicate UniqueIds(borrows: seq<Borrow>) {
    forall i, j :: 0 <= i < j < |borrows| ==> borrows[i].id != borrows[j].id
  }

  function BorrowedAt(b: Borrow): int { b.borrowedAt }

  /** `findByUserOrderByBorrowedAtDesc(user)`: exactly the user's loans, each as often
      as it is stored, most recent `borrowedAt` first. */
  function FindByUserOrderByBorrowedAtDesc(borrows: seq<Borrow>, userId: nat): (r: seq<Borrow>)
    ensures forall b :: multiset(r)[b] == if b.userId == userId then multiset(borrows)[b] else 0
    ensures forall i, j :: 0 <= i < j < |r| ==> r[i].borrowedAt >= r[j].borrowedAt
  {
    var mine := Filter(borrows, (b: Borrow) => b.userId == userId);
    var r := SortByKeyDesc(mine, BorrowedAt);
    assert forall b :: multiset(r)[b] == multiset(mine)[b];
    assert forall i, j :: 0 <= i < j < |r| ==> BorrowedAt(r[i]) >= BorrowedAt(r[j]);
    r
  }

  /** `findByReturnedAtIsNull()`: exactly the open loans, each as often as it is stored. */
  function FindByReturnedAtIsNull(borrows: seq<Borrow>): (r: seq<Borrow>)
    ensures forall b :: multiset(r)[b] == if b.returnedAt.None? then multiset(borrows)[b] else 0
  {
    Filter(borrows, (b: Borrow) => b.IsOpen())
  }

  /** The condition of `findByBookAndUserAndReturnedAtIsNull(book, user)`. */
  predicate IsOpenFor(b: Borrow, bookId: nat, userId: nat) {
    b.bookId == bookId && b.userId == userId && b.IsOpen()
  }

  /** `findByBookAndUserAndReturnedAtIsNull(book, user)`: an open loan of this book by
      this user when one is stored, and empty exactly when none is. */
  function FindByBookAndUserAndReturnedAtIsNull(borrows: seq<Borrow>, bookId: nat, userId: nat): (r: Option<Borrow>)
    ensures r.Some? ==> r.value in borrows && r.value.bookId == bookId && r.value.userId == userId && r.value.returnedAt.None?
    ensures r.None? <==> forall b :: b in borrows ==> !(b.bookId == bookId && b.userId == userId && b.returnedAt.None?)
  {
    FindFirst(borrows, (b: Borrow) => IsOpenFor(b, bookId, userId))
  }

  /** The table after `save` of a loan that already has an id. */
  function ReplaceById(borrows: seq<Borrow>, b: Borrow): (r: seq<Borrow>)
    ensures |r| == |borrows|
    ensures forall i :: 0 <= i < |r| ==> r[i] == if borrows[i].id == b.id then b else borrows[i]
  {
    MapSeq(borrows, (x: Borrow) => if x.id == b.id then b else x)
  }

  /** The loan table. Ids come from an identity counter. */
  class BorrowStore {
    var borrows: seq<Borrow>
    var nextId: nat

    ghost predicate Valid()
      reads this
    {
      UniqueIds(borrows) && forall i :: 0 <= i < |borrows| ==> borrows[i].id < nextId
    }

    constructor ()
      ensures Valid() && borrows == [] && nextId == 1
    {
      borrows := [];
      nextId := 1;
    }

    /** `save` of a new, open loan: it gets the next id and is appended. */
    method Insert(userId: nat, bookId: nat, borrowedAt: nat) returns (saved: Borrow)
      requires Valid()
      modifies this
      ensures Valid()
      ensures saved == Borrow(old(nextId), userId, bookId, borrowedAt, None)
      ensures borrows == old(borrows) + [saved] && nextId == old(nextId) + 1
    {
      saved := Borrow(nextId, userId, bookId, borrowedAt, None);
      borrows := borrows + [saved];
      nextId := nextId + 1;
    }

    /** `save` of a loan that has an id: its row is overwritten. */
    method Save(b: Borrow)
      requires Valid()
      modifies this
      ensures Valid()
      ensures borrows == ReplaceById(old(borrows), b) && nextId == old(nextId)
    {
      borrows := ReplaceById(borrows, b);
    }
  }
}
