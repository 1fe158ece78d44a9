# Perpustakaan: the book service's ledger and the login decision

This project models the two services of a small library system:

- The **book service** keeps two tables:
  - `books`: id, title, author, category and stock;
  - `borrowings`: who borrowed which book.

  Its routes are:
  - listing the catalogue;
  - borrowing and returning a book behind a bearer token;
  - adding, changing and deleting books, which only an admin may do.
- The **auth service** decides `/login` over its `users` table.

The model is organised in layers:

- `common.dfy` holds `Option` and `Claims`. `Claims` is the token payload `{id, username, role}`.
- `bearer.dfy` (`BearerToken`) models the `authenticateToken` middleware:
  - `Split` follows JavaScript's `split(' ')`, empty pieces included;
  - the token is read as `authHeader && authHeader.split(' ')[1]`;
  - the result is 401 when there is no token and 403 when the token does not verify.
- `ledger.dfy` (`Ledger`) models the tables as the value `Store`.
  - Each handler becomes a function from the tables before the request to the tables after it, plus the reply.
  - Each function has explicit error outcomes and "nothing else changes" clauses.
  - The two `borrowings` queries are `Select` and `DeleteWhere`.
- `ledger_facts.dfy` (`LedgerFacts`) proves properties that relate several requests:
  - the borrow/return round trip;
  - what one return does to several loans of a book;
  - which routes keep stocks non-negative;
  - the invariant that every loan refers to an existing book.
- `library.dfy` (`BookService`) models the service as its handlers run.
  - The class `Library` holds `books`, `loans` and the next serial id.
  - Each route is a method that applies the route's SQL statements one after another, in place.
  - Each method is proved to end in exactly the state and reply that the matching `Ledger` function gives.
  - `Handle` routes a request through the token check.
- `auth_service.dfy` (`AuthService`) models `/login` as a pure function over the `users` rows. `jwt.sign` is an opaque function argument.

The model keeps these behaviours of the code:

- **Only borrow's guard keeps stock non-negative.** Borrow and return never make a stock negative (`LedgerFacts.BorrowReturnKeepStocksNonNegative`). Create and update accept any stock an admin sends (`LedgerFacts.AdminMaySetNegativeStock`).
- **Nothing stops a user from borrowing the same book again.** A single return then deletes all of that user's loans of the book but puts back only one copy (`LedgerFacts.BorrowTwiceReturnOnce`).
- **Delete removes loans even on a 404.** The delete route removes the book's loans before it looks for the book, so an admin delete that answers 404 has still run the loan deletion. While every loan refers to an existing book, that deletion finds nothing (`LedgerFacts.DeleteUnknownBookChangesNothing`).
- **Return may restock nothing.** Return raises the stock only if the book row still exists, because an `UPDATE` that matches no row changes nothing.

## Model

| member | source | states |
|---|---|---|
| BearerToken.Split | book-service/index.js:23 | `split(' ')` yields at least one piece; no piece contains the separator; joining the pieces with the separator gives the header back; there is exactly one piece iff the header has no separator |
| BearerToken.SplitOfJoin | book-service/index.js:23 | splitting undoes joining whenever no piece contains the separator |
| BearerToken.ExtractToken | book-service/index.js:22-24 | a token is present only when a header is, and it is non-empty and holds no space; a header without a space yields no token |
| BearerToken.TokenIsSecondWord | book-service/index.js:23 | the token is exactly the non-empty word after the header's first space (a reference reading written without splitting) |
| BearerToken.BearerHeaderYieldsToken | book-service/index.js:22-23 | a header `<scheme> <token>`, optionally followed by more space-separated words, yields exactly `<token>` |
| BearerToken.Authenticate | book-service/index.js:21-31 | 401 "Akses ditolak: Butuh Token" iff there is no token; 403 "Token tidak valid" iff there is a token that `jwt.verify` rejects; otherwise the request proceeds with exactly the claims the token verified to |
| Ledger.Select | book-service/index.js:112 | every selected loan matches the WHERE clause; the result is empty iff no loan in the table matches |
| Ledger.DeleteWhere | book-service/index.js:115 | no loan left after the DELETE matches the WHERE clause, and the table does not grow |
| Ledger.DeleteWhereCounts | book-service/index.js:148 | a DELETE removes every copy of a matching loan and keeps each other loan exactly as many times as the table held it |
| Ledger.DeleteWhereKeepsOnlyOldLoans | book-service/index.js:148 | every loan left by a DELETE was in the table before |
| Ledger.ListBooks | book-service/index.js:82 | the listing has one row per stored book; which rows and in which order is stated by `Ledger.ListBooksIsCatalogue` |
| Ledger.ListBooksIsCatalogue | book-service/index.js:80-83 | the listing shows exactly the stored ids, each row with that book's stored fields, in strictly ascending id order (so each book once) |
| Ledger.Borrow | book-service/index.js:94-102 | unknown book: 404 "Buku tidak ditemukan", tables unchanged; stock <= 0: 400 "Stok buku habis!", tables unchanged; success iff the book exists with positive stock, and then that book's stock drops by exactly 1, `remaining_stock` is the new stock and is non-negative, the other books are untouched, and exactly one loan (user id, username, book id) is appended to the existing loans |
| Ledger.Restock | book-service/index.js:116 | the ids are unchanged; the book's stock rises by exactly 1 if it exists; every other book is unchanged |
| Ledger.Return | book-service/index.js:112-117 | no loan for the (user, book) pair: 400 "Anda tidak sedang meminjam buku ini.", tables unchanged; otherwise "Buku berhasil dikembalikan.", the pair's loans are deleted and the book is restocked |
| Ledger.Create | book-service/index.js:125-133 | non-admin: 403 "Hanya Admin!", tables unchanged; admin: exactly one new book under a fresh id with exactly the given title, author, category and stock, and every existing book and loan unchanged |
| Ledger.Delete | book-service/index.js:142-157 | non-admin: 403, tables unchanged; admin: every loan of the id is deleted, the book is removed and every other book is unchanged, with the reply 404 exactly when no book had the id |
| Ledger.Update | book-service/index.js:169-181 | non-admin: 403, tables unchanged; admin with an unknown id: 404, tables unchanged; otherwise all four fields of only that book are overwritten and the loans are unchanged |
| Ledger.Apply | book-service/index.js:80-186 | listing changes nothing; a refused request leaves the loans as they were, except delete; no route other than create adds a book id |
| LedgerFacts.DeleteWhereNoMatch | book-service/index.js:112-115 | a DELETE with a WHERE clause that a SELECT found nothing for leaves the table as it was |
| LedgerFacts.DeleteWhereAppend | book-service/index.js:115 | a DELETE distributes over concatenation of loan sequences |
| LedgerFacts.SelectDeletePartition | book-service/index.js:112-115 | the loans a return SELECTs and the loans its DELETE leaves make up the table exactly (as multisets) |
| LedgerFacts.ReturnRemovesOnlyThatPair | book-service/index.js:112-116 | a successful return leaves no loan for the pair, keeps every other loan with its multiplicity, and raises that book's stock by exactly 1 however many loans were removed, other books unchanged |
| LedgerFacts.BorrowThenReturnRestores | book-service/index.js:89-121 | from a state with no loan for the pair, borrow then return restores both tables exactly |
| LedgerFacts.BorrowTwiceReturnOnce | book-service/index.js:89-121 | a user can hold two loans of one book; one return removes both but restocks once, so the stock ends one lower and the loans are back to the start |
| LedgerFacts.BorrowReturnKeepStocksNonNegative | book-service/index.js:97-116 | borrow and return never make a stock negative |
| LedgerFacts.AdminMaySetNegativeStock | book-service/index.js:124-181 | an admin create, or an update of an existing book, with a negative stock breaks non-negativity: nothing in the code checks it |
| LedgerFacts.OnlyAdminsChangeBooks | book-service/index.js:124-169 | create, delete and update from a non-admin token give 403 "Hanya Admin!" and change nothing |
| LedgerFacts.DeleteKeepsReferences | book-service/index.js:146-151 | deleting loans before the book keeps every loan pointing at an existing book |
| LedgerFacts.ApplyKeepsReferences | book-service/index.js:89-186 | every route preserves the invariant that every loan refers to an existing book |
| LedgerFacts.DeleteUnknownBookChangesNothing | book-service/index.js:148-154 | under that invariant, an admin delete of an unknown id answers 404 and changes nothing |
| LedgerFacts.ReturnAfterDeleteRefused | book-service/index.js:108-162 | after a book is deleted nobody can return it: the return answers 400 and changes nothing |
| LedgerFacts.SingleCopyScenario | book-service/index.js:94-116 | with one copy, the first borrow leaves 0, a second borrow is refused as out of stock with nothing changed, and the return restores the starting tables |
| BookService.Library.constructor | book-service/index.js:58-72 | after a first `/init-db` on an empty database, the tables hold the nine seed books under ids 1 to 9, with no loans, and the next serial id is 10 |
| BookService.Library.Borrow | book-service/index.js:94-102 | running the lookup, the decrement and the insert in place ends in exactly `Ledger.Borrow`'s tables and reply, and keeps the loan-reference invariant |
| BookService.Library.Return | book-service/index.js:112-117 | running the check, the DELETE and the restock in place ends in exactly `Ledger.Return`'s tables and reply, and keeps the invariant |
| BookService.Library.CreateBook | book-service/index.js:125-133 | an admin insert takes the next serial id; the result is exactly `Ledger.Create`'s, and the invariant is kept |
| BookService.Library.DeleteBook | book-service/index.js:142-157 | deleting the loans, then the book, then checking the row count ends in exactly `Ledger.Delete`'s tables and reply, and keeps the invariant |
| BookService.Library.UpdateBook | book-service/index.js:169-181 | the UPDATE and its row-count check end in exactly `Ledger.Update`'s tables and reply |
| BookService.Library.Handle | book-service/index.js:21-31 | `GET /books` replies with the catalogue and changes nothing; every other route is refused with the middleware's 401/403, changing nothing, unless the token verifies, and then it ends exactly as `Ledger.Apply` for the verified claims |
| AuthService.SelectByUsername | auth-service/index.js:50 | every selected row has the username and comes from the table; the result is empty iff no row has the username |
| AuthService.LookupFindsAtMostOne | auth-service/index.js:30 | under the UNIQUE constraint, a lookup by username yields at most one row |
| AuthService.Login | auth-service/index.js:47-63 | 401 "User tidak ditemukan" iff no row has the username; every failure is 401 "User tidak ditemukan" or "Password salah"; on success "Login Berhasil!", the token is `sign` of the reply's `user`, and that user is the payload of a row whose username and password equal the given ones |
| AuthService.LoginOfKnownUser | auth-service/index.js:50-59 | with unique usernames, a known user's login is "Password salah" exactly when the password differs from the stored one, and is otherwise a token over exactly that row's payload |
| AuthService.SeedLogins | auth-service/index.js:36-38 | the seeded users have unique usernames; `admin`/`admin` logs in as the admin, `budi`/`budi123` as a plain user, and a wrong password or an unknown name is refused |

## Left out

- JWT cryptography and expiry. `jwt.verify` (book service) and `jwt.sign` (auth service) are opaque function arguments, with no clock and no secret. The two services fall back to different default secrets when the environment supplies none, so with both fallbacks in use no token from the login would verify. That depends on deployment and is not modelled.
- Database failures and the 500 replies they cause. Every query is modelled as succeeding. That includes the range of the 32-bit `INTEGER` and `SERIAL` columns (`id`, `stock`, `user_id`, `book_id`), which the model's unbounded integers do not have. Out of range, the database raises an error and the route answers 500. For example, a return at stock 2147483647 has already deleted the loans when the stock increment fails.
- Concurrency. Two requests can interleave between borrow's stock read and its decrement, and no transaction makes a route's statements atomic. The model runs one request at a time.
- The `borrow_date` column and the `borrowings` serial id. A `Loan` holds only the user id, user name and book id.
- The `books` serial column. It is modelled as a counter that starts at 10 after the reset and is never reused. `Ledger.Create` accepts any id not in use.
- JSON body parsing and type coercion. `bookId`, `id` and `stock` are integers, and missing body fields are not modelled.
- Express, cors, the `Pool` configuration, environment variables, ports and `app.listen`.
- The `/init-db` routes themselves: the book service's `CREATE TABLE IF NOT EXISTS` and `TRUNCATE`, and the auth service's `DROP TABLE` and `CREATE TABLE`. Only their seed rows are used, as the initial tables (`BookService.Library.constructor`, `AuthService.SeedUsers`).
- BookService.Library.constructor: models only a first `/init-db` on an empty database. A repeated reset truncates `books` but keeps `borrowings`, because no foreign key links it to `books`. The old loans of ids 1 to 9 then refer to the newly seeded books, and loans of higher ids refer to no book. That breaks the loan-reference invariant, which is why a repeated reset is not part of the model.
- The browser front end.
- AuthService.Login: the claim that login only reads the `users` table holds because `Login` is a pure function of the rows. No separate statement says so.
- BookService.Library: the order of loans in `borrowings` is modelled as insertion order. SQL promises no order, so statements about several loans are given as multiset counts (`Ledger.DeleteWhereCounts`, `LedgerFacts.ReturnRemovesOnlyThatPair`).
