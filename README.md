# Book catalogue: data and business layers in Dafny

This project models the layered core of a small multi-user book catalogue
web application, written in Python over two SQLite stores:

- **Record types.** These are `Book`, `User`, `Review` and `WishlistEntry`, each read from a table row
  by `from_db_row` (modules `BookModel`, `UserModel`, `ReviewModel`,
  `WishlistModel`).
- **Repositories.** Each table becomes a class. Its fields hold the rows in table
  order and the AUTOINCREMENT high-water mark. Its methods run the repositories'
  queries over an in-memory table. The exception is the User insert: SQLite
  enforces the UNIQUE constraint there, and the model stands in for it with a lookup.
  - `BookRepo.BookRepository`: `get_by_id`, `get_all`, and `create`, which
    checks for a duplicate (title, author) before inserting.
  - `UserRepo.UserRepository`: `get_by_username`, `get_by_email`, `user_exists`,
    and `create`. The source's `create` issues only the INSERT and fails when
    the UNIQUE user_name/email columns reject it. The model's `Create` finds the
    same rows that constraint would, by a `user_name = ? OR email = ?` scan.
  - `WishlistRepo.WishlistRepository`: `get_by_user`, and `create`, which checks
    for the (account, book) pair.
  - `ReviewRepo.ReviewRepository`: `get_by_book_id`, `get_user_review`, and
    `create`, which inserts unconditionally.
- **Services.** These are `BookSvc.BookService` (stripping and the blank check),
  `UserSvc.UserService` (a digest in place of the password, and sign-in by
  username, then by email), `ReviewSvc.ReviewService` (the rating range check)
  and `WishlistSvc.WishlistService` (the book must exist, and missing books are skipped
  when the wishlist is listed).
- **Validators.** `InputValidator`'s ordered checks (module `Validators`).

`Store` holds the shared query machinery:
- table rows are sequences of SQLite cells;
- a WHERE clause is a small condition tree, with SQL equality (NULL equals nothing; integers and reals compare by value);
- `fetchall` (`Selected`) and `fetchone` (`FetchOne`, the first matching row) are defined as functions, and loop methods (`Select`, `SelectOne`) are proved against them.

`Text` models Python's `str.strip()`. It uses the whitespace set of
`str.isspace()` and scans inward from both ends, as CPython does.

Each repository operation has three parts:
- a pure function on a table value, such as `BookRepo.CreateResult`, which gives the outcome and the table afterwards;
- a class method, whose `ensures` ties the method to that function;
- lemmas about the function: invariants kept, reading back what was written, and what happens when an operation is repeated.

A storage error (`sqlite3.Error`) while a `create` runs is modelled as the flag `fault`. It makes `create` return False and leave the table unchanged.

The monolithic app.py rejects a review whose content duplicates an
existing one (app.py:313-320). The layered `ReviewService`/`ReviewRepository`
has no such check. `add_review`'s docstring promises a per-user, per-book
check, but its body does not make one either. The model follows the layered
code: it stores every review whose rating is in range
(`ReviewSvc.AddReviewTwice`).

## Model

| member | source | states |
|---|---|---|
| BookModel.FromDbRow | data/models/book.py:22-24 | The book carries the row's id. Storing it again under that id gives the same four cells: the title and author equal, and the rating equal as a number. |
| BookModel.StoredRow | data/database.py:41-46 | The Book row for a stored book has four cells: id, title, author, rating_avg, in column order. `from_db_row` can read it, and its id is the given id. |
| BookModel.ReadStoredRow | data/models/book.py:22-24 | `from_db_row` of a stored book's row gives back the same book, now carrying its id. |
| BookModel.StoreReadRow | data/models/book.py:22-24 | Storing what `from_db_row` read from a four-column row gives back that row. |
| BookModel.FromDbRows | data/repositories/book_repo.py:31 | The list comprehension yields one book per row, in row order, each equal to `from_db_row` of its row. |
| UserModel.FromDbRow | data/models/user.py:24-26 | The account carries the row's id. Storing it again under that id gives back exactly the row's four cells. |
| UserModel.StoredRow | data/database.py:66-71 | The User row has four cells: id, user_name, email, hashed_password, in column order. |
| UserModel.ReadStoredRow | data/models/user.py:24-26 | `from_db_row` of a stored user's row gives back the same user, with its id. |
| UserModel.StoreReadRow | data/models/user.py:24-26 | Writing back what was read reproduces the row. |
| ReviewModel.FromDbRow | data/models/review.py:24-33 | The review carries the row's review_id. Storing it again under that id gives the same six cells, with the rating equal as a number. |
| ReviewModel.StoredRow | data/database.py:51-58 | The Review row has six cells: review_id, account_id, book_id, rating_score, review_title, review_text, in column order. |
| ReviewModel.ReadStoredRow | data/models/review.py:24-33 | `from_db_row` of a stored review's row gives back the same review, with its id. |
| ReviewModel.StoreReadRow | data/models/review.py:24-33 | Writing back what was read reproduces the row. |
| ReviewModel.FromDbRows | data/repositories/review_repo.py:24 | One review per row, in order, each `from_db_row` of its row. |
| ReviewModel.FromDbRowsAppend | data/repositories/review_repo.py:24 | Reading one more row appends its review at the end. |
| WishlistModel.FromDbRow | data/models/wishlist.py:19-21 | Storing the entry that was read gives back the row's first two cells, (account_id, book_id). |
| WishlistModel.StoredRow | data/database.py:76-79 | A Wishlist row is exactly (account_id, book_id), with no generated id. |
| WishlistModel.ReadStoredRow | data/models/wishlist.py:19-21 | `from_db_row` of a stored entry's row is the entry itself. |
| WishlistModel.StoreReadRow | data/models/wishlist.py:19-21 | Writing back what was read reproduces the two-cell row. |
| WishlistModel.FromDbRows | data/repositories/wishlist_repo.py:23 | One entry per row, in order. |
| WishlistModel.FromDbRowsAppend | data/repositories/wishlist_repo.py:23 | Reading one more row appends its entry. |
| Store.ToFloat | data/models/book.py:24 | `float(...)` of a stored number is equal to it under SQL's comparison. So the value is kept, whether the cell holds an INTEGER or a REAL. |
| Store.FirstIndex | data/repositories/book_repo.py:23-24 | The index `fetchone` stops at holds a matching row, and no earlier row matches. None means no row matches. |
| Store.Select | data/repositories/book_repo.py:30-31 | The scanning loop returns exactly `Selected`, the matching rows in table order. |
| Store.SelectOne | data/repositories/user_repo.py:24-25 | The scanning loop returns the first matching row, or None. |
| Store.SelectedMembers | data/repositories/review_repo.py:23-24 | A row is in the result of `fetchall` exactly when it is in the table and satisfies the WHERE clause. |
| Store.SelectedLength | data/repositories/wishlist_repo.py:22-23 | `fetchall` never returns more rows than the table holds. |
| Store.SelectedAppend | data/repositories/review_repo.py:23-24 | After one more row is inserted, `fetchall` returns the old result, followed by the new row if it matches. |
| Store.SelectedConcat | data/repositories/review_repo.py:23-24 | Filtering distributes over concatenation of tables. |
| Store.SelectedAlways | data/repositories/book_repo.py:30 | `SELECT *` without WHERE returns every row in order. |
| Store.FetchOneIsFirstSelected | data/repositories/book_repo.py:23-24 | `fetchone` is the head of what `fetchall` would return, or None when that is empty. |
| Store.FetchOneAppendOther | data/repositories/review_repo.py:29-34 | Appending a non-matching row, or any row once a match exists, leaves `fetchone` unchanged. |
| Store.FetchOneAppendFirst | data/repositories/review_repo.py:29-34 | Appending the first matching row makes `fetchone` return it. |
| Text.SpaceRunEnd | business/book_service.py:29 | The scan stops at the first non-whitespace position from `i`, or at the end. |
| Text.SpaceRunStart | business/book_service.py:29 | The backward scan stops just after the last non-whitespace character before `j`. |
| Text.SpaceRunEndUnique | business/book_service.py:29 | Only one position has the properties of the end of a whitespace run. |
| Text.SpaceRunStartUnique | business/book_service.py:29 | Only one position has the properties of the start of a whitespace run. |
| Text.TrimLeft | business/book_service.py:29 | The result is a suffix, and all it dropped is whitespace. It does not start with whitespace. It is empty exactly when the input is all whitespace. |
| Text.TrimRight | business/book_service.py:29 | The result is a prefix, and all it dropped is whitespace. It does not end with whitespace. It is empty exactly when the input is all whitespace. |
| Text.Strip | business/book_service.py:32 | The stripped string neither starts nor ends with whitespace. `Text.StripIsSlice` completes the specification: the result is the slice between the leading and trailing whitespace. |
| Text.StripIsSlice | business/book_service.py:32 | The stripped string is a contiguous slice of the input with only whitespace on either side. |
| Text.BlankIffAllSpace | business/book_service.py:29 | `not s.strip()` holds exactly when every character is whitespace (the empty string included). |
| Text.StripIdempotent | business/book_service.py:32 | Stripping a stripped string changes nothing. |
| Text.TrimLeftPadding | business/book_service.py:32 | Extra leading whitespace does not change `lstrip`. |
| Text.TrimRightPadding | business/book_service.py:32 | Extra trailing whitespace does not change `rstrip`. |
| Text.TrimLeftKeepsTail | business/book_service.py:32 | Text after a string that is not all whitespace survives `lstrip` as it is. |
| Text.StripIgnoresPadding | business/book_service.py:32 | Whitespace around a string does not change its stripped form. |
| BookRepo.TitleAuthorMatch | data/repositories/book_repo.py:37-40 | The `title = ? AND author = ?` query matches a row exactly when both the title and the author of its book are equal. |
| BookRepo.BookWithId | data/repositories/book_repo.py:20-25 | `get_by_id` is None exactly when no row has that id; otherwise it is the book read from the row with that id, and it carries that id. |
| BookRepo.AllBooks | data/repositories/book_repo.py:27-31 | `get_all` gives one book per row, in table order. |
| BookRepo.CreateResult | data/repositories/book_repo.py:33-50 | `create` returns True exactly when there is no storage error and no stored book has the same title and author. Then exactly the new row is appended under the next id. Otherwise the table is unchanged. The table stays valid. |
| BookRepo.BookRepository.constructor | data/repositories/book_repo.py:17-18 | The repository wraps an existing valid table. |
| BookRepo.BookRepository.GetById | data/repositories/book_repo.py:20-25 | The query method returns `BookWithId` of the current table. |
| BookRepo.BookRepository.GetAll | data/repositories/book_repo.py:27-31 | The query method returns `AllBooks` of the current table. |
| BookRepo.BookRepository.Create | data/repositories/book_repo.py:33-50 | The outcome and the new table are those of `CreateResult`, and validity is kept. |
| BookRepo.CreateThenGet | data/repositories/book_repo.py:44-48 | After a successful `create`, `get_by_id` of the new id returns the book with that id. |
| BookRepo.CreatePreservesDistinct | data/repositories/book_repo.py:37-48 | If no two stored books share a (title, author) pair, none do after `create`. |
| BookRepo.CreateTwice | data/repositories/book_repo.py:37-48 | Creating the same (title, author) twice gives True, then False with the table unchanged. Exactly one matching row exists. |
| UserRepo.UsernameOrEmailMatch | data/repositories/user_repo.py:50-52 | The `user_name = ? OR email = ?` query matches a row exactly when its username or its email is equal. |
| UserRepo.UserWithUsername | data/repositories/user_repo.py:21-26 | `get_by_username` is None exactly when no account has that username; otherwise it is the account read from a row with that username. |
| UserRepo.UserWithEmail | data/repositories/user_repo.py:28-33 | `get_by_email` is None exactly when no account has that email; otherwise it is the account read from a row with that email. |
| UserRepo.AccountExists | data/repositories/user_repo.py:47-53 | `user_exists(u, e)` holds exactly when some account has username `u` or email `e`. |
| UserRepo.CreateResult | data/repositories/user_repo.py:35-45 | `create` returns True exactly when there is no storage error and neither the username nor the email is taken (the UNIQUE columns). It appends the account under the next id; otherwise the table is unchanged. Usernames and emails stay pairwise distinct. |
| UserRepo.AppendKeepsUnique | data/database.py:68-69 | Appending an account whose username and email are both new keeps usernames and emails pairwise distinct. |
| UserRepo.UserRepository.constructor | data/repositories/user_repo.py:18-19 | The repository wraps an existing valid table. |
| UserRepo.UserRepository.GetByUsername | data/repositories/user_repo.py:21-26 | The query method returns `UserWithUsername` of the current table. |
| UserRepo.UserRepository.GetByEmail | data/repositories/user_repo.py:28-33 | The query method returns `UserWithEmail` of the current table. |
| UserRepo.UserRepository.Create | data/repositories/user_repo.py:35-45 | The outcome and the new table are those of `CreateResult`, and validity is kept. |
| UserRepo.UserRepository.UserExists | data/repositories/user_repo.py:47-53 | The method returns `AccountExists` of the current table and changes nothing. |
| UserRepo.CreateThenLookup | data/repositories/user_repo.py:21-45 | After a successful `create`, both `get_by_username` and `get_by_email` return the new account with its id. |
| WishlistRepo.OfAccount | data/repositories/wishlist_repo.py:22 | A reference filter on the entries. It keeps, in order, the entries whose account_id is the given one. Each entry kept is from the input and has that account_id. |
| WishlistRepo.OfAccountSnoc | data/repositories/wishlist_repo.py:22 | One more entry at the end of the input is kept exactly when it belongs to the account. |
| WishlistRepo.OfAccountMembers | data/repositories/wishlist_repo.py:22 | The filter keeps every entry of the account and nothing else. |
| WishlistRepo.SelectByAccount | data/repositories/wishlist_repo.py:22-23 | Reading the rows `WHERE account_id = ?` gives the same list as filtering, with `OfAccount`, the entries read from all rows. |
| WishlistRepo.EntriesOf | data/repositories/wishlist_repo.py:19-23 | `get_by_user(a)` is exactly the stored entries of account `a`, in table order (`OfAccount` of all entries). An entry is in it exactly when it is stored with account `a`. |
| WishlistRepo.CreateResult | data/repositories/wishlist_repo.py:25-42 | `create` returns True exactly when there is no storage error and the (account, book) pair is not stored. Then exactly that entry is appended; otherwise the table is unchanged. |
| WishlistRepo.WishlistRepository.constructor | data/repositories/wishlist_repo.py:16-17 | The repository wraps an existing valid table. |
| WishlistRepo.WishlistRepository.GetByUser | data/repositories/wishlist_repo.py:19-23 | The query method returns `EntriesOf` of the current table. |
| WishlistRepo.WishlistRepository.Create | data/repositories/wishlist_repo.py:25-42 | The outcome and the new table are those of `CreateResult`. |
| WishlistRepo.CreatePreservesNoDuplicates | data/repositories/wishlist_repo.py:29-40 | If no entry is stored twice, none is after `create`. |
| WishlistRepo.CountDistinct | data/repositories/wishlist_repo.py:29-40 | In a list without repeats, each entry occurs once or not at all. |
| WishlistRepo.CountInEntriesOf | data/repositories/wishlist_repo.py:19-23 | `get_by_user(a)` holds each entry of `a` as often as the table does. |
| WishlistRepo.CountInSelection | data/repositories/wishlist_repo.py:22-23 | Filtering by account keeps the number of copies of an entry of that account. |
| WishlistRepo.AddTwice | data/repositories/wishlist_repo.py:19-40 | Adding the same pair twice makes the second call False with the table unchanged. `get_by_user` then lists the pair exactly once. |
| ReviewRepo.AccountBookMatch | data/repositories/review_repo.py:29-31 | The `account_id = ? AND book_id = ?` query matches a row exactly when both ids of its review are equal. |
| ReviewRepo.OfBook | data/repositories/review_repo.py:23 | A reference filter on the review records. It keeps, in order, the reviews whose book_id is the given one. Each review kept is from the input and has that book_id. |
| ReviewRepo.OfBookSnoc | data/repositories/review_repo.py:23 | One more review at the end of the input is kept exactly when it is about the book. |
| ReviewRepo.SelectByBook | data/repositories/review_repo.py:23-24 | Reading the rows `WHERE book_id = ?` gives the same list as filtering, with `OfBook`, the reviews read from all rows. |
| ReviewRepo.ReviewsForBook | data/repositories/review_repo.py:20-24 | `get_by_book_id(b)` is exactly the stored reviews of book `b`, in table order (`OfBook` of all reviews). Each one is a stored review with book_id `b`. |
| ReviewRepo.ReviewsForBookComplete | data/repositories/review_repo.py:20-24 | Every stored review of book `b` is in `get_by_book_id(b)`. |
| ReviewRepo.UserReview | data/repositories/review_repo.py:26-34 | `get_user_review(a, b)` is None exactly when no review has both ids; otherwise it is a review with both ids. |
| ReviewRepo.UserReviewIsFirst | data/repositories/review_repo.py:26-34 | `get_user_review(a, b)` is the first matching review in table order. |
| ReviewRepo.CreateResult | data/repositories/review_repo.py:36-54 | `create` returns True exactly when there is no storage error, whatever reviews exist. It then appends the review under the next id; otherwise the table is unchanged. |
| ReviewRepo.ReviewRepository.constructor | data/repositories/review_repo.py:17-18 | The repository wraps an existing valid table. |
| ReviewRepo.ReviewRepository.GetByBookId | data/repositories/review_repo.py:20-24 | The query method returns `ReviewsForBook` of the current table. |
| ReviewRepo.ReviewRepository.GetUserReview | data/repositories/review_repo.py:26-34 | The query method returns `UserReview` of the current table. |
| ReviewRepo.ReviewRepository.Create | data/repositories/review_repo.py:36-54 | The outcome and the new table are those of `CreateResult`. |
| ReviewRepo.CreateThenRead | data/repositories/review_repo.py:20-52 | After `create(r)`, `get_by_book_id(r.book_id)` is the old list followed by `r` with its new id. |
| ReviewRepo.LaterReviewKeepsFirst | data/repositories/review_repo.py:29-34 | Once the account has reviewed the book, a further review is stored but `get_user_review` is unchanged. |
| ReviewRepo.TwoReviewsSameBook | data/repositories/review_repo.py:36-52 | Two reviews by one account for one book are both accepted, and the first is the one returned. |
| BookSvc.AddBookResult | business/book_service.py:27-33 | A blank title or author gives False with the table unchanged. Otherwise the book is created with the stripped title and author and rating 0, and True means there was no duplicate and no storage error. |
| BookSvc.AddBookStoresStripped | business/book_service.py:32-33 | A successful `add_book` appends the stripped, non-blank title and author with rating 0 under the next id. |
| BookSvc.AddBookPreservesNormalised | business/book_service.py:29-33 | If every stored book has a non-blank, stripped title and author and rating 0, `add_book` keeps it so. |
| BookSvc.AddBookIgnoresPadding | business/book_service.py:32 | Title and author padded with whitespace give the same outcome and table as the unpadded ones. |
| BookSvc.BookService.constructor | business/book_service.py:16-17 | The service holds the given repository. |
| BookSvc.BookService.GetBook | business/book_service.py:19-21 | `get_book` returns `get_by_id` unchanged. |
| BookSvc.BookService.GetAllBooks | business/book_service.py:23-25 | `get_all_books` returns `get_all` unchanged. |
| BookSvc.BookService.AddBook | business/book_service.py:27-33 | The outcome and the new table are those of `AddBookResult`. |
| UserSvc.CreateUserResult | business/user_service.py:29-36 | `create_user` returns True exactly when there is no storage error and neither the username nor the email is taken. The account is then appended under the next id, with the digest of the password stored in place of the password, and the AUTOINCREMENT mark moves to that id. Otherwise the table is unchanged. |
| UserSvc.VerifyResult | business/user_service.py:38-50 | A user is returned only if it is a stored account, its stored digest equals the digest of the password, and its username or email equals the identifier. When no account has the identifier as its username or its email, the result is None. |
| UserSvc.UsernameMatchDecides | business/user_service.py:43-50 | When a username matches, that account alone decides, even if another account has the string as its email. |
| UserSvc.EmailFallback | business/user_service.py:44-50 | The email is tried only when no username matches, and then the digest decides. |
| UserSvc.SignUpThenSignIn | business/user_service.py:29-50 | After a successful `create_user(u, e, p)`, `verify_user(u, p)` returns the new account. A password with another digest gives None. |
| UserSvc.SignUpThenSignInByEmail | business/user_service.py:29-50 | After a successful `create_user(u, e, p)`, `verify_user(e, p)` returns the new account, unless an older account has `e` as its username. |
| UserSvc.UserService.constructor | business/user_service.py:20-21 | The service holds the repository and the digest function. |
| UserSvc.UserService.EncryptPassword | business/user_service.py:23-27 | The digest is written as `hexdigest()` writes SHA-256: 64 lower-case hexadecimal digits. The same password always gives the same digest. |
| UserSvc.UserService.CreateUser | business/user_service.py:29-36 | The outcome and the new table are those of `CreateUserResult`. |
| UserSvc.UserService.VerifyUser | business/user_service.py:38-50 | The method returns `VerifyResult` of the current table and changes nothing. |
| ReviewSvc.AddReviewResult | business/review_service.py:31-52 | `add_review` returns True exactly when the rating parses to a number in [1, 5], bounds included, and there is no storage error. It then appends the review with the parsed rating; otherwise the table is unchanged. |
| ReviewSvc.RatingBoundaries | business/review_service.py:41-46 | Ratings 1 and 5 are accepted; 0.99, 5.01, nan/infinity and unparsable text are rejected. |
| ReviewSvc.AddThenList | business/review_service.py:49-52 | An accepted review is the last one `get_book_reviews` lists for its book. |
| ReviewSvc.AddReviewTwice | business/review_service.py:39-52 | There is no per-user, per-book check: a second review is accepted, and `get_user_review` returns the first. |
| ReviewSvc.ReviewService.constructor | business/review_service.py:17-21 | The service holds both repositories. |
| ReviewSvc.ReviewService.GetBookReviews | business/review_service.py:23-25 | `get_book_reviews` returns `get_by_book_id` unchanged. |
| ReviewSvc.ReviewService.GetUserReview | business/review_service.py:27-29 | `get_user_review` returns the repository's answer unchanged. |
| ReviewSvc.ReviewService.AddReview | business/review_service.py:31-52 | The outcome and the new table are those of `AddReviewResult`, and the Book table is not touched. |
| WishlistSvc.WishlistBooks | business/wishlist_service.py:26-32 | The collected list is no longer than the entry list. |
| WishlistSvc.WishlistBooksStep | business/wishlist_service.py:28-31 | One loop step appends the entry's book when `get_by_id` finds it, and nothing otherwise. |
| WishlistSvc.WishlistBooksSnoc | business/wishlist_service.py:28-31 | One more entry adds its book at the end, if the book exists. |
| WishlistSvc.WishlistBooksInCatalogue | business/wishlist_service.py:28-31 | Every collected book is a book of the catalogue. |
| WishlistSvc.WishlistBooksFromEntries | business/wishlist_service.py:28-31 | Every collected book's id is the book id of one of the entries. |
| WishlistSvc.WishlistBooksAllPresent | business/wishlist_service.py:28-31 | When every entry's book exists, nothing is skipped: the k-th book is the k-th entry's book. |
| WishlistSvc.WishlistBooksComplete | business/wishlist_service.py:28-31 | No entry whose book exists is skipped. |
| WishlistSvc.UserWishlist | business/wishlist_service.py:24-32 | An account's wishlist holds at most one book per entry, and every book on it is a catalogue book. |
| WishlistSvc.UserWishlistSound | business/wishlist_service.py:24-32 | Every book on an account's wishlist is a catalogue book that the account has an entry for. |
| WishlistSvc.AddToWishlistResult | business/wishlist_service.py:34-42 | `add_to_wishlist` returns True exactly when the book exists, the pair is new and there is no storage error. It then appends the entry; otherwise the table is unchanged. |
| WishlistSvc.AddThenShown | business/wishlist_service.py:24-42 | After a successful `add_to_wishlist`, the book appears on the account's wishlist. |
| WishlistSvc.AddExistingTwice | business/wishlist_service.py:34-42 | Adding an existing book twice gives the second call False, with the table unchanged and exactly one entry for the pair. |
| WishlistSvc.WishlistService.constructor | business/wishlist_service.py:17-22 | The service holds both repositories. |
| WishlistSvc.WishlistService.GetUserWishlist | business/wishlist_service.py:24-32 | The loop returns the books of the account's entries, in entry order, skipping missing books. It modifies nothing. |
| WishlistSvc.WishlistService.AddToWishlist | business/wishlist_service.py:34-42 | The outcome and the new Wishlist table are those of `AddToWishlistResult`. Only the Wishlist repository changes. |
| Validators.FirstFailure | presentation/validators.py:19-28 | The reference reading of an ordered list of checks: None exactly when all pass. Otherwise it is the message of a failing check with every earlier check passing. |
| Validators.FirstFailureCons | presentation/validators.py:19-28 | The first failure of a list is its head's message when the head fails; otherwise it is the first failure of the rest. |
| Validators.ValidateRegistration | presentation/validators.py:14-28 | The input is accepted exactly when the username is not blank, the email contains "@" and the password is not empty. A message is present exactly when it is rejected. |
| Validators.RegistrationIsFirstFailure | presentation/validators.py:19-28 | The result is the first failure of the checks username, email, password, in that order. |
| Validators.ValidateSignin | presentation/validators.py:30-41 | The input is accepted exactly when the identifier is not blank and the password is not empty. |
| Validators.SigninIsFirstFailure | presentation/validators.py:35-41 | The blank identifier is reported before the empty password. |
| Validators.ValidateReview | presentation/validators.py:43-61 | The input is accepted exactly when the rating is in [1, 5] and neither the title nor the text is blank. An unparsable rating gets "Invalid rating value". |
| Validators.ReviewIsFirstFailure | presentation/validators.py:48-61 | The checks run in this order: rating parse, rating range, title, text. |
| Validators.WhitespaceFields | presentation/validators.py:19-26 | A whitespace-only password passes, but a whitespace-only username or identifier does not. |
| Validators.NonFiniteRatingMessage | presentation/validators.py:48-53 | `nan` and the infinities parse, so they get the range message, not the parse message. |

## Left out

- Connections, the two database files, directory creation and schema creation in data/database.py are I/O. They are replaced by in-memory tables whose shape follows the schema. The UNIQUE user_name/email columns are kept, as part of `UserRepo.UserTable.Valid`.
- Storage errors are modelled only during `create`, as the `fault` flag. Reads are assumed not to fail, and the model does not say when SQLite raises.
- SHA-256 is not modelled. `_encrypt_password` is the function value `hash` the service is given, whose results have the form of a SHA-256 hex digest (`UserSvc.HexDigest`). That every function is deterministic gives the "same password, same digest" property. The model does not prove that the digest differs from the plaintext.
- `float(...)` parsing is abstract (`Rating.FloatInput`). Ratings are real numbers, so floating-point rounding is not modelled.
- The race between the check and the insert under concurrent requests is not modelled: the model is single-threaded.
- Integer widths are not modelled: SQLite's 64-bit ids and the AUTOINCREMENT limit are unbounded here.
- Python's dynamic typing in `from_db_row` is not modelled. Each reader requires the cell kinds the schema declares, and rows of other shapes are outside the model.
- app.py, app/, application/, main.py, presentation/view_handlers.py, presentation/forms.py, business/exceptions.py and the JavaScript files are not part of this model. They are web routing, rendering and browser code.
- `Store` supports only the WHERE forms the repositories use: equality, AND, OR and no clause.
