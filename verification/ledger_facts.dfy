/** Properties of the book service that relate several requests: the
    borrow/return round trip, what a return does to several loans of one
    book, which routes keep stocks non-negative, and the invariant that every
    loan refers to an existing book. */
module LedgerFacts {
  import opened Common
  import opened Ledger

  /** A DELETE whose WHERE clause matches no loan leaves the table as it was. */
  lemma {:induction false} DeleteWhereNoMatch(loans: seq<Loan>, q: LoanQuery)
    requires Select(loans, q) == []
    ensures DeleteWhere(loans, q) == loans
  {
    if loans != [] {
      DeleteWhereNoMatch(loans[1..], q);
      assert [loans[0]] + loans[1..] == loans;
    }
  }

  /** DELETE works loan by loan, so it distributes over concatenation. */
  lemma {:induction false} DeleteWhereAppend(loans: seq<Loan>, more: seq<Loan>, q: LoanQuery)
    ensures DeleteWhere(loans + more, q) == DeleteWhere(loans, q) + DeleteWhere(more, q)
  {
    if loans == [] {
      assert loans + more == more;
    } else {
      assert (loans + more)[0] == loans[0];
      assert (loans + more)[1..] == loans[1..] + more;
      DeleteWhereAppend(loans[1..], more, q);
    }
  }

  /** SELECT and DELETE with the same WHERE clause split the table in two:
      the loans a return looks at are exactly the loans it removes. */
  lemma {:induction false} SelectDeletePartition(loans: seq<Loan>, q: LoanQuery)
    ensures multiset(Select(loans, q)) + multiset(DeleteWhere(loans, q)) == multiset(loans)
  {
    if loans == [] {
      assert Select(loans, q) == [] && DeleteWhere(loans, q) == [];
    } else {
      var head, tail := loans[0], loans[1..];
      var sel, del := Select(tail, q), DeleteWhere(tail, q);
      SelectDeletePartition(tail, q);
      assert multiset(sel) + multiset(del) == multiset(tail);
      assert multiset(loans) == multiset([head]) + multiset(tail) by {
        assert loans == [head] + tail;
      }
      if Matches(head, q) {
        assert Select(loans, q) == [head] + sel;
        assert DeleteWhere(loans, q) == del;
        assert multiset([head] + sel) == multiset([head]) + multiset(sel);
      } else {
        assert Select(loans, q) == sel;
        assert DeleteWhere(loans, q) == [head] + del;
        assert multiset([head] + del) == multiset([head]) + multiset(del);
      }
    }
  }

  /** A successful return deletes every loan the user holds of the book and
      no other loan, and puts back exactly one copy of it whether the user
      held one loan or several. */
  lemma ReturnRemovesOnlyThatPair(s: Store, user: Claims, bookId: int)
    requires Select(s.loans, ByUserAndBook(user.id, bookId)) != []
    ensures
      var r := Return(s, user, bookId);
      && r.reply == Done(ReturnDone)
      && Select(r.store.loans, ByUserAndBook(user.id, bookId)) == []
      && (forall l :: !Matches(l, ByUserAndBook(user.id, bookId)) ==>
            multiset(r.store.loans)[l] == multiset(s.loans)[l])
      && r.store.books.Keys == s.books.Keys
      && (bookId in s.books ==> r.store.books[bookId].stock == s.books[bookId].stock + 1)
      && (forall id :: id in s.books && id != bookId ==> r.store.books[id] == s.books[id])
  {
    DeleteWhereCounts(s.loans, ByUserAndBook(user.id, bookId));
  }

  /** From a state where the user holds no loan of the book, borrowing it and
      then returning it restores both tables exactly. */
  lemma BorrowThenReturnRestores(s: Store, user: Claims, bookId: int)
    requires bookId in s.books && s.books[bookId].stock > 0
    requires Select(s.loans, ByUserAndBook(user.id, bookId)) == []
    ensures Borrow(s, user, bookId).reply == Lent(BorrowDone, s.books[bookId].stock - 1)
    ensures Return(Borrow(s, user, bookId).store, user, bookId) == Outcome(s, Done(ReturnDone))
  {
    var q := ByUserAndBook(user.id, bookId);
    var book := s.books[bookId];
    var loan := Loan(user.id, user.username, bookId);
    var lent := Store(s.books[bookId := book.(stock := book.stock - 1)], s.loans + [loan]);
    assert Borrow(s, user, bookId).store == lent;
    assert DeleteWhere(lent.loans, q) == s.loans by {
      DeleteWhereAppend(s.loans, [loan], q);
      DeleteWhereNoMatch(s.loans, q);
      assert DeleteWhere([loan], q) == [] by {
        assert [loan][1..] == [];
      }
    }
    assert Restock(lent.books, bookId) == s.books;
    assert Select(lent.loans, q) != [] by {
      assert !Matches(lent.loans[|s.loans|], q) ==> false;
    }
  }

  /** A user may hold two loans of the same book; one return then removes
      both while putting back a single copy, so the stock ends one lower than
      it started. */
  lemma BorrowTwiceReturnOnce(s: Store, user: Claims, bookId: int)
    requires bookId in s.books && s.books[bookId].stock >= 2
    requires Select(s.loans, ByUserAndBook(user.id, bookId)) == []
    ensures
      var once := Borrow(s, user, bookId).store;
      var twice := Borrow(once, user, bookId);
      var back := Return(twice.store, user, bookId);
      && twice.reply.Lent?
      && multiset(twice.store.loans)[Loan(user.id, user.username, bookId)] == 2
      && back.reply == Done(ReturnDone)
      && back.store.loans == s.loans
      && back.store.books[bookId].stock == s.books[bookId].stock - 1
  {
    var q := ByUserAndBook(user.id, bookId);
    var book := s.books[bookId];
    var loan := Loan(user.id, user.username, bookId);
    var once := Store(s.books[bookId := book.(stock := book.stock - 1)], s.loans + [loan]);
    assert Borrow(s, user, bookId).store == once;
    var twice := Store(s.books[bookId := book.(stock := book.stock - 2)], s.loans + [loan, loan]);
    assert Borrow(once, user, bookId) == Outcome(twice, Lent(BorrowDone, book.stock - 2)) by {
      assert once.loans + [loan] == s.loans + [loan, loan];
    }
    assert multiset(twice.loans)[loan] == 2 by {
      assert loan !in s.loans;
      assert multiset(twice.loans) == multiset(s.loans) + multiset([loan, loan]);
    }
    assert DeleteWhere(twice.loans, q) == s.loans by {
      DeleteWhereAppend(s.loans, [loan, loan], q);
      DeleteWhereNoMatch(s.loans, q);
      assert DeleteWhere([loan, loan], q) == [] by {
        assert [loan, loan][1..] == [loan];
        assert [loan][1..] == [];
      }
    }
  }

  /** Borrow and return never make a stock negative: borrow lowers only a
      positive stock, return only raises one. */
  lemma BorrowReturnKeepStocksNonNegative(s: Store, user: Claims, bookId: int)
    requires StocksNonNegative(s.books)
    ensures StocksNonNegative(Borrow(s, user, bookId).store.books)
    ensures StocksNonNegative(Return(s, user, bookId).store.books)
  {
  }

  /** Neither create nor update checks the stock an admin sends, so the
      non-negative stock that borrow and return keep is theirs alone. */
  lemma AdminMaySetNegativeStock(s: Store, admin: Claims, id: int, fields: Book, newId: int)
    requires admin.role == AdminRole && fields.stock < 0 && newId !in s.books
    ensures id in s.books ==> !StocksNonNegative(Update(s, admin, id, fields).store.books)
    ensures !StocksNonNegative(Create(s, admin, fields, newId).store.books)
  {
    if id in s.books {
      assert Update(s, admin, id, fields).store.books[id].stock < 0;
    }
    assert Create(s, admin, fields, newId).store.books[newId].stock < 0;
  }

  /** A token without the admin role can neither add, change nor delete a book. */
  lemma OnlyAdminsChangeBooks(s: Store, req: Request, user: Claims, newId: int)
    requires newId !in s.books && user.role != AdminRole
    requires req.PostBook? || req.DeleteBook? || req.PutBook?
    ensures Apply(s, req, user, newId) == Outcome(s, Refused(403, AdminOnly))
  {
  }

  /** Deleting a book's loans leaves only loans of other books, all of them
      taken from the table before. */
  lemma DeleteKeepsReferences(s: Store, admin: Claims, id: int)
    requires LoansReferenceBooks(s)
    ensures LoansReferenceBooks(Delete(s, admin, id).store)
  {
    var r := Delete(s, admin, id).store;
    if admin.role == AdminRole {
      DeleteWhereKeepsOnlyOldLoans(s.loans, ByBook(id));
      forall i | 0 <= i < |r.loans|
        ensures r.loans[i].bookId in r.books
      {
        var j :| 0 <= j < |s.loans| && s.loans[j] == r.loans[i];
      }
    }
  }

  /** Every route keeps every loan pointing at an existing book. */
  lemma ApplyKeepsReferences(s: Store, req: Request, user: Claims, newId: int)
    requires newId !in s.books && LoansReferenceBooks(s)
    ensures LoansReferenceBooks(Apply(s, req, user, newId).store)
  {
    var r := Apply(s, req, user, newId).store;
    match req
    case DeleteBook(id) =>
      DeleteKeepsReferences(s, user, id);
    case PostReturn(bookId) =>
      var q := ByUserAndBook(user.id, bookId);
      if Select(s.loans, q) != [] {
        DeleteWhereKeepsOnlyOldLoans(s.loans, q);
        forall i | 0 <= i < |r.loans|
          ensures r.loans[i].bookId in r.books
        {
          var j :| 0 <= j < |s.loans| && s.loans[j] == r.loans[i];
        }
      }
    case PostBorrow(bookId) =>
      if bookId in s.books && s.books[bookId].stock > 0 {
        forall i | 0 <= i < |r.loans|
          ensures r.loans[i].bookId in r.books
        {
          if i < |s.loans| {
            assert r.loans[i] == s.loans[i];
          }
        }
      }
    case _ =>
  }

  /** While every loan refers to an existing book, an admin delete of an
      unknown id finds no loan to remove and answers 404 with nothing changed. */
  lemma DeleteUnknownBookChangesNothing(s: Store, admin: Claims, id: int)
    requires LoansReferenceBooks(s) && admin.role == AdminRole && id !in s.books
    ensures Delete(s, admin, id) == Outcome(s, Refused(404, BookNotFound))
  {
    DeleteWhereNoMatch(s.loans, ByBook(id));
  }

  /** Once a book is deleted, nobody can return it: the loans went with it. */
  lemma ReturnAfterDeleteRefused(s: Store, admin: Claims, user: Claims, id: int)
    requires admin.role == AdminRole
    ensures
      var gone := Delete(s, admin, id).store;
      Return(gone, user, id) == Outcome(gone, Refused(400, NotBorrowing))
  {
  }

  /** One copy in stock: the first borrow leaves none, a second borrow is
      refused as out of stock, and the return puts the copy back. */
  lemma SingleCopyScenario(user: Claims, book: Book)
    requires book.stock == 1
    ensures
      var s := Store(map[1 := book], []);
      var first := Borrow(s, user, 1);
      var second := Borrow(first.store, user, 1);
      var back := Return(second.store, user, 1);
      && first.reply == Lent(BorrowDone, 0)
      && second == Outcome(first.store, Refused(400, OutOfStock))
      && back.reply == Done(ReturnDone)
      && back.store == s
  {
    var s := Store(map[1 := book], []);
    BorrowThenReturnRestores(s, user, 1);
  }
}
