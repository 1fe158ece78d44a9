/** The book service as its handlers run: an object holding the `books` and
    `borrowings` tables, whose methods apply each route's SQL statements one
    after another, behind the token check for the protected routes. Each
    method is proved to end in the state and reply that the matching Ledger
    function gives, so the properties proved there hold of it. */
module BookService {
  import opened Common
  import opened Ledger
  import BearerToken

  /** The books `/init-db` seeds, under the ids 1 to 9 that the freshly
      restarted serial column gives them. */
  const SeedBooks: map<int, Book> := map[
    1 := Book("Belajar Microservices", "Fulan", "Teknologi", 5),
    2 := Book("Tutorial Docker Lengkap", "Fulana", "Teknologi", 3),
    3 := Book("Resep Masakan Padang", "Budi", "Kuliner", 0),
    4 := Book("Algoritma & Struktur Data", "Rina", "Edukasi", 12),
    5 := Book("Dasar-Dasar Python", "Andi", "Teknologi", 8),
    6 := Book("Mastering React JS", "Siti", "Teknologi", 5),
    7 := Book("Keamanan Jaringan", "Joko", "Teknologi", 4),
    8 := Book("Kecerdasan Buatan (AI)", "Eko", "Sains", 6),
    9 := Book("Desain UI/UX Modern", "Dian", "Desain", 7)
  ]

  class Library {
    var books: map<int, Book>
    var loans: seq<Loan>
    /** The next value of the `books.id` serial column: larger than every id in use. */
    var nextId: int

    ghost predicate Valid()
      reads this
    {
      && LoansReferenceBooks(Store(books, loans))
      && forall id :: id in books ==> id < nextId
    }

    function Tables(): Store
      reads this
    {
      Store(books, loans)
    }

    /** The tables a first `/init-db` leaves on an empty database: the nine
        seed books and no loans. */
    constructor ()
      ensures Valid()
      ensures books == SeedBooks && loans == [] && nextId == 10
    {
      books := SeedBooks;
      loans := [];
      nextId := 10;
    }

    /** `POST /borrow` once the token is accepted. */
    method Borrow(user: Claims, bookId: int) returns (reply: Reply)
      requires Valid()
      modifies this
      ensures Valid() && nextId == old(nextId)
      ensures Outcome(Tables(), reply) == Ledger.Borrow(old(Tables()), user, bookId)
    {
      // SELECT * FROM books WHERE id = bookId
      if bookId !in books {
        return Refused(404, BookNotFound);
      }
      var book := books[bookId];
      if book.stock <= 0 {
        return Refused(400, OutOfStock);
      }
      // UPDATE books SET stock = stock - 1 WHERE id = bookId
      books := books[bookId := books[bookId].(stock := books[bookId].stock - 1)];
      // INSERT INTO borrowings (user_id, user_name, book_id)
      loans := loans + [Loan(user.id, user.username, bookId)];
      reply := Lent(BorrowDone, book.stock - 1);
    }

    /** `POST /return` once the token is accepted. */
    method Return(user: Claims, bookId: int) returns (reply: Reply)
      requires Valid()
      modifies this
      ensures Valid() && nextId == old(nextId)
      ensures Outcome(Tables(), reply) == Ledger.Return(old(Tables()), user, bookId)
    {
      var q := ByUserAndBook(user.id, bookId);
      // SELECT * FROM borrowings WHERE user_id = .. AND book_id = ..
      if Select(loans, q) == [] {
        return Refused(400, NotBorrowing);
      }
      // DELETE FROM borrowings WHERE user_id = .. AND book_id = ..
      DeleteWhereKeepsOnlyOldLoans(loans, q);
      loans := DeleteWhere(loans, q);
      // UPDATE books SET stock = stock + 1 WHERE id = bookId
      if bookId in books {
        books := books[bookId := books[bookId].(stock := books[bookId].stock + 1)];
      }
      reply := Done(ReturnDone);
    }

    /** `POST /books` once the token is accepted: an admin's insert takes the
        next serial id. */
    method CreateBook(user: Claims, fields: Book) returns (reply: Reply)
      requires Valid()
      modifies this
      ensures Valid()
      ensures nextId == if user.role == AdminRole then old(nextId) + 1 else old(nextId)
      ensures Outcome(Tables(), reply) == Ledger.Create(old(Tables()), user, fields, old(nextId))
    {
      if user.role != AdminRole {
        return Refused(403, AdminOnly);
      }
      // INSERT INTO books (title, author, category, stock)
      books := books[nextId := fields];
      nextId := nextId + 1;
      reply := Done(CreateDone);
    }

    /** `DELETE /books/:id` once the token is accepted. */
    method DeleteBook(user: Claims, id: int) returns (reply: Reply)
      requires Valid()
      modifies this
      ensures Valid() && nextId == old(nextId)
      ensures Outcome(Tables(), reply) == Ledger.Delete(old(Tables()), user, id)
    {
      if user.role != AdminRole {
        return Refused(403, AdminOnly);
      }
      // Step 1: DELETE FROM borrowings WHERE book_id = id
      DeleteWhereKeepsOnlyOldLoans(loans, ByBook(id));
      loans := DeleteWhere(loans, ByBook(id));
      // Step 2: DELETE FROM books WHERE id = id, then look at the row count
      var deleted := id in books;
      books := books - {id};
      if !deleted {
        return Refused(404, BookNotFound);
      }
      reply := Done(DeleteDone);
    }

    /** `PUT /books/:id` once the token is accepted. */
    method UpdateBook(user: Claims, id: int, fields: Book) returns (reply: Reply)
      requires Valid()
      modifies this
      ensures Valid() && nextId == old(nextId)
      ensures Outcome(Tables(), reply) == Ledger.Update(old(Tables()), user, id, fields)
    {
      if user.role != AdminRole {
        return Refused(403, AdminOnly);
      }
      // UPDATE books SET title, author, category, stock WHERE id = id
      var updated := id in books;
      if updated {
        books := books[id := fields];
      }
      if !updated {
        return Refused(404, BookNotFound);
      }
      reply := Done(UpdateDone);
    }

    /** One request through the router: `GET /books` is served without a
        token; every other route first passes `authenticateToken`, whose
        refusal is the reply and leaves the tables untouched, and only then
        runs its handler. `verify` is the service's `jwt.verify`. */
    method Handle(req: Request, authorization: Option<string>, verify: string -> Option<Claims>)
      returns (reply: Reply)
      requires Valid()
      modifies this
      ensures Valid()
      ensures req.GetBooks? ==> reply == Rows(ListBooks(old(books))) && unchanged(this)
      ensures !req.GetBooks? ==>
        match BearerToken.Authenticate(authorization, verify)
        case Denied(status, message) => reply == Refused(status, message) && unchanged(this)
        case Authorized(user) => Outcome(Tables(), reply) == Apply(old(Tables()), req, user, old(nextId))
    {
      if req.GetBooks? {
        // SELECT * FROM books ORDER BY id ASC
        return Rows(ListBooks(books));
      }
      match BearerToken.Authenticate(authorization, verify)
      case Denied(status, message) =>
        reply := Refused(status, message);
      case Authorized(user) =>
        match req {
          case PostBorrow(bookId) => reply := Borrow(user, bookId);
          case PostReturn(bookId) => reply := Return(user, bookId);
          case PostBook(fields) => reply := CreateBook(user, fields);
          case DeleteBook(id) => reply := DeleteBook(user, id);
          case PutBook(id, fields) => reply := UpdateBook(user, id, fields);
        }
    }
  }

  /** What a caller can conclude from the method contracts alone, on the
      seeded tables: the out-of-stock book is refused, and two loans of one
      book followed by one return leave a copy missing. */
  method SeededWalkthrough(user: Claims)
  {
    var lib := new Library();
    var r := lib.Borrow(user, 3);
    assert r == Refused(400, OutOfStock) && lib.books == SeedBooks && lib.loans == [];
    r := lib.Borrow(user, 2);
    assert r == Lent(BorrowDone, 2);
    r := lib.Borrow(user, 2);
    assert r == Lent(BorrowDone, 1);
    assert lib.loans == [Loan(user.id, user.username, 2), Loan(user.id, user.username, 2)];
    var loan := Loan(user.id, user.username, 2);
    assert DeleteWhere([loan, loan], ByUserAndBook(user.id, 2)) == [] by {
      assert [loan, loan][1..] == [loan];
      assert [loan][1..] == [];
    }
    r := lib.Return(user, 2);
    assert r == Done(ReturnDone) && lib.books[2].stock == 2 && lib.loans == [];
  }
}
