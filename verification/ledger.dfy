/** The book service's two tables, `books` and `borrowings`, as values, and
    each route handler of the service as a function from the tables before the
    request to the tables after it and the reply sent. The class in
    library.dfy performs the same steps in place and is proved against these
    functions. */
module Ledger {
  import opened Common

  /** A row of `books` without its id: every column the routes write. */
  datatype Book = Book(title: string, author: string, category: string, stock: int)

  /** A row of `borrowings`: who borrowed which book. Its own serial id and
      its `borrow_date` are not part of the model. */
  datatype Loan = Loan(userId: int, userName: string, bookId: int)

  /** Both tables: `books` keyed by id, and the loans in insertion order. */
  datatype Store = Store(books: map<int, Book>, loans: seq<Loan>)

  /** A row of `SELECT * FROM books`. */
  datatype Row = Row(id: int, book: Book)

  /** The response of a route: the listed rows, a success message, the
      borrow success (which also reports the remaining stock), or an HTTP
      error status with its message. */
  datatype Reply =
    | Rows(rows: seq<Row>)
    | Done(message: string)
    | Lent(message: string, remainingStock: int)
    | Refused(status: int, message: string)

  datatype Outcome = Outcome(store: Store, reply: Reply)

  const BookNotFound: string := "Buku tidak ditemukan"
  const OutOfStock: string := "Stok buku habis!"
  const NotBorrowing: string := "Anda tidak sedang meminjam buku ini."
  const AdminOnly: string := "Hanya Admin!"
  const BorrowDone: string := "Peminjaman Berhasil!"
  const ReturnDone: string := "Buku berhasil dikembalikan."
  const CreateDone: string := "Buku berhasil ditambahkan!"
  const DeleteDone: string := "Buku berhasil dihapus beserta riwayat peminjamannya!"
  const UpdateDone: string := "Data buku berhasil diperbarui!"

  /* ---------------- The `borrowings` queries ---------------- */

  /** The two WHERE clauses the service runs against `borrowings`. */
  datatype LoanQuery = ByUserAndBook(userId: int, bookId: int) | ByBook(bookId: int)

  predicate Matches(l: Loan, q: LoanQuery)
  {
    match q
    case ByUserAndBook(u, b) => l.userId == u && l.bookId == b
    case ByBook(b) => l.bookId == b
  }

  /** `SELECT * FROM borrowings WHERE q`: the matching loans, in table order. */
  function Select(loans: seq<Loan>, q: LoanQuery): (r: seq<Loan>)
    ensures |r| <= |loans|
    ensures forall i :: 0 <= i < |r| ==> Matches(r[i], q)
    ensures r == [] <==> forall i :: 0 <= i < |loans| ==> !Matches(loans[i], q)
  {
    if loans == [] then []
    else (if Matches(loans[0], q) then [loans[0]] else []) + Select(loans[1..], q)
  }

  /** `DELETE FROM borrowings WHERE q`: what is left of the table. */
  function DeleteWhere(loans: seq<Loan>, q: LoanQuery): (r: seq<Loan>)
    ensures |r| <= |loans|
    ensures forall i :: 0 <= i < |r| ==> !Matches(r[i], q)
  {
    if loans == [] then []
    else
      var rest := DeleteWhere(loans[1..], q);
      if Matches(loans[0], q) then rest else [loans[0]] + rest
  }

  /** DELETE removes every matching loan and keeps every other loan exactly
      as many times as the table held it. */
  lemma {:induction false} DeleteWhereCounts(loans: seq<Loan>, q: LoanQuery)
    ensures forall l ::
      multiset(DeleteWhere(loans, q))[l] == (if Matches(l, q) then 0 else multiset(loans)[l])
  {
    if loans != [] {
      var head, tail := loans[0], loans[1..];
      DeleteWhereCounts(tail, q);
      assert loans == [head] + tail;
      assert multiset(loans) == multiset([head]) + multiset(tail);
      if !Matches(head, q) {
        assert DeleteWhere(loans, q) == [head] + DeleteWhere(tail, q);
        assert multiset(DeleteWhere(loans, q)) == multiset([head]) + multiset(DeleteWhere(tail, q));
      }
    }
  }

  /** Every loan left by a DELETE was in the table before. */
  lemma {:induction false} DeleteWhereKeepsOnlyOldLoans(loans: seq<Loan>, q: LoanQuery)
    ensures forall i :: 0 <= i < |DeleteWhere(loans, q)| ==> DeleteWhere(loans, q)[i] in loans
  {
    if loans != [] {
      DeleteWhereKeepsOnlyOldLoans(loans[1..], q);
      assert forall l :: l in loans[1..] ==> l in loans;
    }
  }

  /* ---------------- Invariants of the tables ---------------- */

  /** Every loan refers to a book that exists. */
  ghost predicate LoansReferenceBooks(s: Store)
  {
    forall i :: 0 <= i < |s.loans| ==> s.loans[i].bookId in s.books
  }

  /** No book has a negative stock. */
  ghost predicate StocksNonNegative(books: map<int, Book>)
  {
    forall id :: id in books ==> books[id].stock >= 0
  }

  /* ---------------- GET /books ---------------- */

  /** `m` is the least of `ids`. */
  predicate IsLeast(m: int, ids: set<int>)
  {
    m in ids && forall x :: x in ids ==> m <= x
  }

  /** A non-empty set of ids has an element. */
  lemma ElementOf(ids: set<int>) returns (y: int)
    requires ids != {}
    ensures y in ids
  {
    // The verifier does not draw an element out of `ids != {}` by itself;
    // ruling out the empty case explicitly gives the witness below its hint.
    if forall x :: x !in ids {
      assert false;
    }
    y :| y in ids;
  }

  lemma {:induction false} LeastOf(ids: set<int>) returns (m: int)
    requires ids != {}
    ensures IsLeast(m, ids)
  {
    var y := ElementOf(ids);
    if ids == {y} {
      m := y;
    } else {
      var rest := ids - {y};
      var k := LeastOf(rest);
      m := if y < k then y else k;
      forall x | x in ids
        ensures m <= x
      {
        if x != y {
          assert x in rest;
        }
      }
    }
  }

  lemma LeastExists(ids: set<int>)
    requires ids != {}
    ensures exists m :: IsLeast(m, ids)
  {
    var m := LeastOf(ids);
  }

  /** The least element of a non-empty set of ids. */
  function MinId(ids: set<int>): (m: int)
    requires ids != {}
    ensures IsLeast(m, ids)
  {
    LeastExists(ids);
    var m :| IsLeast(m, ids);
    m
  }

  /** The ids a listing shows. */
  function IdsOf(rows: seq<Row>): set<int>
  {
    if rows == [] then {} else {rows[0].id} + IdsOf(rows[1..])
  }

  /** `SELECT * FROM books ORDER BY id ASC`, built by taking the least id
      first: one row per stored book. ListBooksIsCatalogue states which rows,
      and in which order. */
  function ListBooks(books: map<int, Book>): (rows: seq<Row>)
    ensures |rows| == |books.Keys|
    decreases books.Keys
  {
    if books.Keys == {} then []
    else
      var m := MinId(books.Keys);
      var others := books - {m};
      assert others.Keys == books.Keys - {m};
      [Row(m, books[m])] + ListBooks(others)
  }

  lemma {:induction false} ListBooksShowsStoredRows(books: map<int, Book>)
    ensures forall i :: 0 <= i < |ListBooks(books)| ==>
      ListBooks(books)[i].id in books && ListBooks(books)[i].book == books[ListBooks(books)[i].id]
    decreases books.Keys
  {
    if books.Keys != {} {
      var m := MinId(books.Keys);
      var others := books - {m};
      ListBooksShowsStoredRows(others);
      var rest := ListBooks(others);
      var rows := ListBooks(books);
      assert rows == [Row(m, books[m])] + rest;
      forall i | 0 <= i < |rows|
        ensures rows[i].id in books && rows[i].book == books[rows[i].id]
      {
        if i > 0 {
          assert rows[i] == rest[i - 1];
        }
      }
    }
  }

  lemma {:induction false} ListBooksAscending(books: map<int, Book>)
    ensures forall i, j :: 0 <= i < j < |ListBooks(books)| ==> ListBooks(books)[i].id < ListBooks(books)[j].id
    decreases books.Keys
  {
    if books.Keys != {} {
      var m := MinId(books.Keys);
      var others := books - {m};
      ListBooksAscending(others);
      ListBooksShowsStoredRows(others);
      var rest := ListBooks(others);
      var rows := ListBooks(books);
      assert rows == [Row(m, books[m])] + rest;
      forall i, j | 0 <= i < j < |rows|
        ensures rows[i].id < rows[j].id
      {
        assert rows[j] == rest[j - 1];
        if i == 0 {
          assert rest[j - 1].id in others;
        } else {
          assert rows[i] == rest[i - 1];
        }
      }
    }
  }

  lemma {:induction false} ListBooksCoversIds(books: map<int, Book>)
    ensures IdsOf(ListBooks(books)) == books.Keys
    decreases books.Keys
  {
    if books.Keys != {} {
      var m := MinId(books.Keys);
      var others := books - {m};
      ListBooksCoversIds(others);
      var rows := ListBooks(books);
      assert rows[1..] == ListBooks(others);
      assert others.Keys == books.Keys - {m};
    }
  }

  /** The listing shows every stored book exactly once, each under its own
      id and with its stored fields, in ascending id order. */
  lemma ListBooksIsCatalogue(books: map<int, Book>)
    ensures IdsOf(ListBooks(books)) == books.Keys
    ensures forall i :: 0 <= i < |ListBooks(books)| ==>
      ListBooks(books)[i].id in books && ListBooks(books)[i].book == books[ListBooks(books)[i].id]
    ensures forall i, j :: 0 <= i < j < |ListBooks(books)| ==> ListBooks(books)[i].id < ListBooks(books)[j].id
  {
    ListBooksCoversIds(books);
    ListBooksShowsStoredRows(books);
    ListBooksAscending(books);
  }

  /* ---------------- POST /borrow ---------------- */

  /** Borrow one copy of `bookId` for `user`: 404 for an unknown book, 400
      when none is in stock, otherwise one copy fewer in stock and one more
      loan. An error changes nothing. */
  function Borrow(s: Store, user: Claims, bookId: int): (r: Outcome)
    ensures bookId !in s.books ==> r == Outcome(s, Refused(404, BookNotFound))
    ensures bookId in s.books && s.books[bookId].stock <= 0 ==> r == Outcome(s, Refused(400, OutOfStock))
    ensures r.reply.Lent? <==> bookId in s.books && s.books[bookId].stock > 0
    ensures r.reply.Lent? ==>
      && r.reply.message == BorrowDone
      && r.store.books.Keys == s.books.Keys
      && r.store.books[bookId] == s.books[bookId].(stock := s.books[bookId].stock - 1)
      && r.reply.remainingStock == r.store.books[bookId].stock
      && r.reply.remainingStock >= 0
      && (forall id :: id in s.books && id != bookId ==> r.store.books[id] == s.books[id])
      && r.store.loans == s.loans + [Loan(user.id, user.username, bookId)]
  {
    if bookId !in s.books then Outcome(s, Refused(404, BookNotFound))
    else
      var book := s.books[bookId];
      if book.stock <= 0 then Outcome(s, Refused(400, OutOfStock))
      else
        var books := s.books[bookId := book.(stock := book.stock - 1)];
        var loans := s.loans + [Loan(user.id, user.username, bookId)];
        Outcome(Store(books, loans), Lent(BorrowDone, book.stock - 1))
  }

  /* ---------------- POST /return ---------------- */

  /** `UPDATE books SET stock = stock + 1 WHERE id = bookId`: touches no row
      when the book does not exist. */
  function Restock(books: map<int, Book>, bookId: int): (r: map<int, Book>)
    ensures r.Keys == books.Keys
    ensures bookId in books ==> r[bookId] == books[bookId].(stock := books[bookId].stock + 1)
    ensures forall id :: id in books && id != bookId ==> r[id] == books[id]
  {
    if bookId in books then books[bookId := books[bookId].(stock := books[bookId].stock + 1)]
    else books
  }

  /** Return `bookId` for `user`: 400 when the user holds no loan of it (an
      error that changes nothing); otherwise the user's loans of that book
      are deleted and the book's stock is raised. */
  function Return(s: Store, user: Claims, bookId: int): (r: Outcome)
    ensures Select(s.loans, ByUserAndBook(user.id, bookId)) == [] ==>
      r == Outcome(s, Refused(400, NotBorrowing))
    ensures Select(s.loans, ByUserAndBook(user.id, bookId)) != [] ==>
      && r.reply == Done(ReturnDone)
      && r.store.loans == DeleteWhere(s.loans, ByUserAndBook(user.id, bookId))
      && r.store.books == Restock(s.books, bookId)
  {
    var q := ByUserAndBook(user.id, bookId);
    if Select(s.loans, q) == [] then Outcome(s, Refused(400, NotBorrowing))
    else
      var loans := DeleteWhere(s.loans, q);
      var books := Restock(s.books, bookId);
      Outcome(Store(books, loans), Done(ReturnDone))
  }

  /* ---------------- POST /books ---------------- */

  /** Add a book under the fresh id `newId` (the id the database's serial
      column hands out): admins only, any stock accepted. */
  function Create(s: Store, user: Claims, fields: Book, newId: int): (r: Outcome)
    requires newId !in s.books
    ensures user.role != AdminRole ==> r == Outcome(s, Refused(403, AdminOnly))
    ensures user.role == AdminRole ==>
      && r.reply == Done(CreateDone)
      && r.store.books.Keys == s.books.Keys + {newId}
      && r.store.books[newId] == fields
      && (forall id :: id in s.books ==> r.store.books[id] == s.books[id])
      && r.store.loans == s.loans
  {
    if user.role != AdminRole then Outcome(s, Refused(403, AdminOnly))
    else Outcome(Store(s.books[newId := fields], s.loans), Done(CreateDone))
  }

  /* ---------------- DELETE /books/:id ---------------- */

  /** Delete book `id`: admins only. The loans of the book are deleted first,
      then the book; 404 when no book had that id, which the loan deletion
      before it does not undo. */
  function Delete(s: Store, user: Claims, id: int): (r: Outcome)
    ensures user.role != AdminRole ==> r == Outcome(s, Refused(403, AdminOnly))
    ensures user.role == AdminRole ==>
      && r.store.loans == DeleteWhere(s.loans, ByBook(id))
      && r.store.books.Keys == s.books.Keys - {id}
      && (forall k :: k in r.store.books ==> r.store.books[k] == s.books[k])
      && r.reply == (if id in s.books then Done(DeleteDone) else Refused(404, BookNotFound))
  {
    if user.role != AdminRole then Outcome(s, Refused(403, AdminOnly))
    else
      var loans := DeleteWhere(s.loans, ByBook(id));
      if id !in s.books then Outcome(Store(s.books, loans), Refused(404, BookNotFound))
      else Outcome(Store(s.books - {id}, loans), Done(DeleteDone))
  }

  /* ---------------- PUT /books/:id ---------------- */

  /** Overwrite all four columns of book `id`: admins only, 404 when no book
      has that id, any stock accepted. */
  function Update(s: Store, user: Claims, id: int, fields: Book): (r: Outcome)
    ensures user.role != AdminRole ==> r == Outcome(s, Refused(403, AdminOnly))
    ensures user.role == AdminRole && id !in s.books ==> r == Outcome(s, Refused(404, BookNotFound))
    ensures user.role == AdminRole && id in s.books ==>
      && r.reply == Done(UpdateDone)
      && r.store.books.Keys == s.books.Keys
      && r.store.books[id] == fields
      && (forall k :: k in s.books && k != id ==> r.store.books[k] == s.books[k])
      && r.store.loans == s.loans
  {
    if user.role != AdminRole then Outcome(s, Refused(403, AdminOnly))
    else if id !in s.books then Outcome(s, Refused(404, BookNotFound))
    else Outcome(Store(s.books[id := fields], s.loans), Done(UpdateDone))
  }

  /* ---------------- Routing ---------------- */

  /** The service's routes, with the parts of each request they read. */
  datatype Request =
    | GetBooks
    | PostBorrow(bookId: int)
    | PostReturn(bookId: int)
    | PostBook(fields: Book)
    | DeleteBook(id: int)
    | PutBook(id: int, fields: Book)

  /** The handler a request reaches once its token has been accepted
      (`GET /books` needs no token and ignores `user`). */
  function Apply(s: Store, req: Request, user: Claims, newId: int): (r: Outcome)
    requires newId !in s.books
    ensures req.GetBooks? ==> r == Outcome(s, Rows(ListBooks(s.books)))
    ensures r.reply.Refused? ==> r.store.loans == s.loans || req.DeleteBook?
    ensures !req.PostBook? ==> r.store.books.Keys <= s.books.Keys
  {
    match req
    case GetBooks => Outcome(s, Rows(ListBooks(s.books)))
    case PostBorrow(bookId) => Borrow(s, user, bookId)
    case PostReturn(bookId) => Return(s, user, bookId)
    case PostBook(fields) => Create(s, user, fields, newId)
    case DeleteBook(id) => Delete(s, user, id)
    case PutBook(id, fields) => Update(s, user, id, fields)
  }
}
