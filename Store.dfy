/**
 * The five tables of the library database (src/Librarydb.cpp:28-131) as values, and the
 * effect of every SQL statement the store issues as a function on them.
 *
 * A statement first produces a candidate state: the rows it inserts, deletes or updates,
 * plus everything its triggers and ON DELETE CASCADE actions do. SQLite then checks the
 * schema's constraints; if one fails, the whole statement is rolled back and the tables
 * are left as they were. `Commit` is that check, and `None` is a rolled-back statement.
 */
module Store {
  import opened Records

  /** A row of the favourites or the borrows table; its primary key is the whole row. */
  datatype Link = Link(username: string, bookId: int)

  /** A row of the users table, keyed by username. `kind` is the text column `type`. */
  datatype UserRow = UserRow(email: string, password: string, kind: string)

  /** A row of the books table, keyed by book_id. A NULL column is `None`. */
  datatype BookRow = BookRow(
    title: string,
    author: string,
    quantity: int,
    publisher: Option<string>,
    pubYear: Option<int>,
    description: Option<string>,
    edition: Option<int>,
    rating: real,
    raters: nat)

  /** users, books, favourites, borrows and sessions (username -> session token). */
  datatype Tables = Tables(
    users: map<string, UserRow>,
    books: map<int, BookRow>,
    favourites: set<Link>,
    borrows: set<Link>,
    sessions: map<string, int>)

  const Regular: string := "Regular"
  const AdminKind: string := "Admin"
  const RootName: string := "root"

  // ---------------------------------------------------------------------------------------
  // Schema constraints
  // ---------------------------------------------------------------------------------------

  /** CHECK ([type] IN ('Admin', 'Regular')) */
  predicate KindsChecked(users: map<string, UserRow>) {
    forall u :: u in users ==> users[u].kind == AdminKind || users[u].kind == Regular
  }

  /** email is NOT NULL UNIQUE */
  predicate EmailsUnique(users: map<string, UserRow>) {
    forall u, v :: u in users && v in users && u != v ==> users[u].email != users[v].email
  }

  /** CHECK (quantity >= 0) */
  predicate QuantitiesChecked(books: map<int, BookRow>) {
    forall b :: b in books ==> books[b].quantity >= 0
  }

  /** The two foreign keys of favourites and of borrows. */
  predicate LinksReferenced(links: set<Link>, users: map<string, UserRow>, books: map<int, BookRow>) {
    forall l :: l in links ==> l.username in users && l.bookId in books
  }

  /** sessions.username references users; sessions.session is UNIQUE. */
  predicate SessionsChecked(sessions: map<string, int>, users: map<string, UserRow>) {
    && sessions.Keys <= users.Keys
    && forall u, v :: u in sessions && v in sessions && u != v ==> sessions[u] != sessions[v]
  }

  /** Every constraint of the schema. Primary keys are unique by construction (map keys, set rows). */
  predicate Consistent(t: Tables) {
    && KindsChecked(t.users)
    && EmailsUnique(t.users)
    && QuantitiesChecked(t.books)
    && LinksReferenced(t.favourites, t.users, t.books)
    && LinksReferenced(t.borrows, t.users, t.books)
    && SessionsChecked(t.sessions, t.users)
  }

  /** Statement-level rollback: the candidate state survives only if every constraint holds. */
  function Commit(after: Tables): (r: Option<Tables>)
    ensures r.Some? <==> Consistent(after)
    ensures r.Some? ==> r.value == after
  {
    if Consistent(after) then Some(after) else None
  }

  /** The database makeSchema creates: empty tables and the default account root/root, an Admin. */
  function Seeded(): (t: Tables)
    ensures Consistent(t)
    ensures t.users.Keys == {RootName} && t.users[RootName].kind == AdminKind
    ensures t.books == map[] && t.favourites == {} && t.borrows == {} && t.sessions == map[]
  {
    Tables(map[RootName := UserRow("root@library.me", "root", AdminKind)], map[], {}, {}, map[])
  }

  /** `k` is a key of `m`. Coverage statements quantify over this named test rather than
      over `in`, so that they are used only where a proof names a key. */
  predicate HasKey<K, V>(m: map<K, V>, k: K) {
    k in m
  }

  // ---------------------------------------------------------------------------------------
  // Column mapping
  // ---------------------------------------------------------------------------------------

  /** The text stored in the `type` column for a user class. */
  function KindColumn(k: UserClass): string {
    match k
    case Admin => AdminKind
    case Normal => Regular
  }

  /** extractUserInfo: "Regular" is a NORMAL user, any other text an ADMIN. */
  function ExtractUserInfo(username: string, row: UserRow): (u: User)
    ensures u.username == username && u.email == row.email
    ensures u.kind == Normal <==> row.kind == Regular
  {
    User(row.email, username, if row.kind == Regular then Normal else Admin)
  }

  /** The columns addBook and updateBook bind: "" and negative numbers become NULL. */
  function BindColumns(b: Book, rating: real, raters: nat): (row: BookRow)
    ensures row.publisher == None <==> b.publisher == ""
    ensures row.pubYear == None <==> b.pubYear < 0
    ensures row.description == None <==> b.description == ""
    ensures row.edition == None <==> b.edition < 0
  {
    BookRow(
      b.title, b.author, b.quantity,
      if b.publisher == "" then None else Some(b.publisher),
      if b.pubYear < 0 then None else Some(b.pubYear),
      if b.description == "" then None else Some(b.description),
      if b.edition < 0 then None else Some(b.edition),
      rating, raters)
  }

  /** extractBookInfo: NULL reads back as "" for text and -1 for numbers. */
  function ExtractBookInfo(id: int, row: BookRow): (b: Book)
    ensures b.bookId == id && b.quantity == row.quantity && b.rating == row.rating
    ensures row.pubYear == None ==> b.pubYear == -1
    ensures row.edition == None ==> b.edition == -1
  {
    Book(id, row.title, row.author, row.quantity,
      row.publisher.GetOr(""), row.pubYear.GetOr(-1), row.description.GetOr(""),
      row.edition.GetOr(-1), row.rating)
  }

  /** A book written by addBook (rating 0.0) reads back unchanged exactly when its year and
      edition are not below -1 and its rating is 0. */
  lemma ColumnRoundTrip(b: Book)
    ensures ExtractBookInfo(b.bookId, BindColumns(b, 0.0, 0)) == b
        <==> b.pubYear >= -1 && b.edition >= -1 && b.rating == 0.0
  {
    var r := ExtractBookInfo(b.bookId, BindColumns(b, 0.0, 0));
    if r == b {
      assert b.pubYear == r.pubYear && b.edition == r.edition;
    }
  }

  /** A stored row read back and stored again gives the same row (for a book's own rating). */
  lemma RowRoundTrip(id: int, row: BookRow)
    requires row.pubYear.Some? ==> row.pubYear.value >= 0
    requires row.edition.Some? ==> row.edition.value >= 0
    requires row.publisher != Some("") && row.description != Some("")
    ensures BindColumns(ExtractBookInfo(id, row), row.rating, row.raters) == row
  {
  }

  // ---------------------------------------------------------------------------------------
  // Triggers and the quantity bookkeeping
  // ---------------------------------------------------------------------------------------

  /** The rows of `rows` that concern book `b`. */
  function RowsOf(rows: set<Link>, b: int): set<Link> {
    set l | l in rows && l.bookId == b
  }

  /** Trigger decrease_book_number, AFTER INSERT ON borrows. */
  function DecreaseBookNumber(books: map<int, BookRow>, b: int): (r: map<int, BookRow>)
    ensures r.Keys == books.Keys
    ensures b in books ==> r[b].quantity == books[b].quantity - 1 && r[b] == books[b].(quantity := r[b].quantity)
    ensures forall x :: x in books && x != b ==> r[x] == books[x]
  {
    if b in books then books[b := books[b].(quantity := books[b].quantity - 1)] else books
  }

  /** Trigger increase_book_number, AFTER DELETE ON borrows, fired once for each deleted row. */
  function IncreaseBookNumber(books: map<int, BookRow>, deleted: set<Link>): (r: map<int, BookRow>)
    ensures r.Keys == books.Keys
    ensures forall x :: x in books ==> r[x] == books[x].(quantity := r[x].quantity) && r[x].quantity >= books[x].quantity
    ensures forall x :: x in books && RowsOf(deleted, x) == {} ==> r[x] == books[x]
  {
    map b | b in books :: books[b].(quantity := books[b].quantity + |RowsOf(deleted, b)|)
  }

  /** DELETE of the borrows rows in `rows`, with its trigger. */
  function DeleteBorrows(t: Tables, rows: set<Link>): (r: Tables)
    ensures r.borrows == t.borrows - rows && r.books.Keys == t.books.Keys
    ensures r == t.(borrows := r.borrows, books := r.books)
  {
    t.(borrows := t.borrows - rows, books := IncreaseBookNumber(t.books, rows * t.borrows))
  }

  /** The copies of a book that exist: those on the shelf plus those borrowed. */
  function Stock(t: Tables, b: int): int
    requires b in t.books
  {
    t.books[b].quantity + |RowsOf(t.borrows, b)|
  }

  /** No book that is still there gained or lost a copy. */
  ghost predicate StockKept(t: Tables, t': Tables) {
    && t'.books.Keys <= t.books.Keys
    && forall b :: b in t'.books ==> Stock(t', b) == Stock(t, b)
  }

  /** The same books with the same columns, except that copies may have come back. */
  ghost predicate Restocked(books: map<int, BookRow>, books': map<int, BookRow>) {
    && books'.Keys == books.Keys
    && forall b :: b in books ==>
         books'[b] == books[b].(quantity := books'[b].quantity) && books'[b].quantity >= books[b].quantity
  }

  lemma CardDifference(a: set<Link>, b: set<Link>)
    requires b <= a
    ensures |a - b| == |a| - |b|
  {
    assert a == (a - b) + b;
    assert (a - b) * b == {};
  }

  /** Deleting borrows rows returns every copy through the trigger. */
  lemma DeleteBorrowsKeepsStock(t: Tables, rows: set<Link>)
    ensures StockKept(t, DeleteBorrows(t, rows))
    ensures DeleteBorrows(t, rows).books.Keys == t.books.Keys
  {
    var t' := DeleteBorrows(t, rows);
    forall b | b in t'.books
      ensures Stock(t', b) == Stock(t, b)
    {
      var gone := RowsOf(rows * t.borrows, b);
      assert RowsOf(t'.borrows, b) == RowsOf(t.borrows, b) - gone;
      CardDifference(RowsOf(t.borrows, b), gone);
    }
  }

  /** Deleting borrows rows changes no row of the other tables and keeps the constraints. */
  lemma DeleteBorrowsConsistent(t: Tables, rows: set<Link>)
    requires Consistent(t)
    ensures Consistent(DeleteBorrows(t, rows))
  {
    var t' := DeleteBorrows(t, rows);
    forall b | b in t'.books ensures t'.books[b].quantity >= 0 {
      assert t.books[b].quantity >= 0;
    }
  }

  /** Deleting rows that do not exist changes nothing. */
  lemma DeleteNoBorrows(t: Tables, rows: set<Link>)
    requires rows * t.borrows == {}
    ensures DeleteBorrows(t, rows) == t
  {
    var t' := DeleteBorrows(t, rows);
    forall b | b in t.books ensures t'.books[b] == t.books[b] {
      assert RowsOf(rows * t.borrows, b) == {};
    }
    assert t'.books == t.books;
    forall l | l in t.borrows ensures l !in rows {
      assert l !in rows * t.borrows;
    }
    assert t'.borrows == t.borrows;
  }

  // ---------------------------------------------------------------------------------------
  // Borrowing (src/Librarydb.cpp:311-327)
  // ---------------------------------------------------------------------------------------

  /** INSERT INTO borrows: fails on a duplicate row, a missing user or book, or when the
      trigger would take the quantity below zero. */
  function Borrow(t: Tables, u: string, b: int): (r: Option<Tables>)
    requires Consistent(t)
    ensures r.Some? <==>
      u in t.users && b in t.books && Link(u, b) !in t.borrows && t.books[b].quantity >= 1
    ensures r.Some? ==> Consistent(r.value)
    ensures r.Some? ==>
      && r.value.borrows == t.borrows + {Link(u, b)}
      && r.value.books == t.books[b := t.books[b].(quantity := t.books[b].quantity - 1)]
      && r.value.users == t.users && r.value.favourites == t.favourites
      && r.value.sessions == t.sessions
  {
    if Link(u, b) in t.borrows then None  // PRIMARY KEY (username, book_id)
    else Commit(t.(borrows := t.borrows + {Link(u, b)}, books := DecreaseBookNumber(t.books, b)))
  }

  /** DELETE FROM borrows: never fails; a missing row changes nothing. */
  function Unborrow(t: Tables, u: string, b: int): (r: Tables)
    requires Consistent(t)
    ensures Consistent(r)
    ensures Link(u, b) !in t.borrows ==> r == t
    ensures Link(u, b) in t.borrows ==>
      && r.borrows == t.borrows - {Link(u, b)}
      && b in t.books
      && r.books == t.books[b := t.books[b].(quantity := t.books[b].quantity + 1)]
      && r.users == t.users && r.favourites == t.favourites && r.sessions == t.sessions
  {
    DeleteOneBorrow(t, Link(u, b));
    DeleteBorrows(t, {Link(u, b)})
  }

  /** Deleting one borrows row returns one copy of its book, if the row exists. */
  lemma DeleteOneBorrow(t: Tables, l: Link)
    requires Consistent(t)
    ensures Consistent(DeleteBorrows(t, {l}))
    ensures l !in t.borrows ==> DeleteBorrows(t, {l}) == t
    ensures l in t.borrows ==>
      && l.bookId in t.books
      && DeleteBorrows(t, {l}).books
         == t.books[l.bookId := t.books[l.bookId].(quantity := t.books[l.bookId].quantity + 1)]
  {
    DeleteBorrowsConsistent(t, {l});
    if l !in t.borrows {
      DeleteNoBorrows(t, {l});
    } else {
      var r := DeleteBorrows(t, {l});
      forall x | x in t.books
        ensures RowsOf({l} * t.borrows, x) == if x == l.bookId then {l} else {}
      {
      }
      assert r.books == t.books[l.bookId := t.books[l.bookId].(quantity := t.books[l.bookId].quantity + 1)];
    }
  }

  /** A borrow followed by the return of the same book restores every table exactly. */
  lemma BorrowThenUnborrow(t: Tables, u: string, b: int)
    requires Consistent(t) && Borrow(t, u, b).Some?
    ensures Unborrow(Borrow(t, u, b).value, u, b) == t
  {
    var t' := Borrow(t, u, b).value;
    var t'' := Unborrow(t', u, b);
    assert t'.borrows - {Link(u, b)} == t.borrows;
    assert t''.books == t.books;
  }

  /** Borrowing moves a copy from the shelf to a borrower: no book's stock changes. */
  lemma BorrowKeepsStock(t: Tables, u: string, b: int)
    requires Consistent(t) && Borrow(t, u, b).Some?
    ensures StockKept(t, Borrow(t, u, b).value)
    ensures Borrow(t, u, b).value.books.Keys == t.books.Keys
  {
    var t' := Borrow(t, u, b).value;
    forall x | x in t'.books
      ensures Stock(t', x) == Stock(t, x)
    {
      if x == b {
        assert RowsOf(t'.borrows, x) == RowsOf(t.borrows, x) + {Link(u, b)};
        assert Link(u, b) !in RowsOf(t.borrows, x);
      } else {
        assert RowsOf(t'.borrows, x) == RowsOf(t.borrows, x);
      }
    }
  }

  /** Returning a book moves a copy back to the shelf: no book's stock changes. */
  lemma UnborrowKeepsStock(t: Tables, u: string, b: int)
    requires Consistent(t)
    ensures StockKept(t, Unborrow(t, u, b))
    ensures Unborrow(t, u, b).books.Keys == t.books.Keys
  {
    DeleteBorrowsKeepsStock(t, {Link(u, b)});
  }

  // ---------------------------------------------------------------------------------------
  // Favourites (src/Librarydb.cpp:288-309)
  // ---------------------------------------------------------------------------------------

  /** INSERT INTO favourites: fails on a duplicate row or a missing user or book. */
  function AddFavourite(t: Tables, u: string, b: int): (r: Option<Tables>)
    requires Consistent(t)
    ensures r.Some? <==> u in t.users && b in t.books && Link(u, b) !in t.favourites
    ensures r.Some? ==> Consistent(r.value)
    ensures r.Some? ==> r.value == t.(favourites := t.favourites + {Link(u, b)})
  {
    if Link(u, b) in t.favourites then None  // PRIMARY KEY (username, book_id)
    else Commit(t.(favourites := t.favourites + {Link(u, b)}))
  }

  /** DELETE FROM favourites: never fails. */
  function RemoveFavourite(t: Tables, u: string, b: int): (r: Tables)
    requires Consistent(t)
    ensures Consistent(r)
    ensures Link(u, b) !in r.favourites && r.favourites + {Link(u, b)} >= t.favourites
    ensures r == t.(favourites := r.favourites) && r.favourites <= t.favourites
  {
    t.(favourites := t.favourites - {Link(u, b)})
  }

  /** Liking and then unliking a book that was not a favourite restores every table. */
  lemma AddThenRemoveFavourite(t: Tables, u: string, b: int)
    requires Consistent(t) && AddFavourite(t, u, b).Some?
    ensures RemoveFavourite(AddFavourite(t, u, b).value, u, b) == t
  {
    assert (t.favourites + {Link(u, b)}) - {Link(u, b)} == t.favourites;
  }

  // ---------------------------------------------------------------------------------------
  // Users (src/Librarydb.cpp:238-255, 377-387, 408-428)
  // ---------------------------------------------------------------------------------------

  /** emailIsUsed: some user row has this email. */
  predicate EmailUsed(t: Tables, email: string) {
    exists v :: v in t.users && t.users[v].email == email
  }

  /** INSERT INTO users (email, username, password): the type column takes its default
      'Regular', whatever class `user` carries. Fails on a taken username or email. */
  function AddUser(t: Tables, user: User, password: string): (r: Option<Tables>)
    requires Consistent(t)
    ensures r.Some? <==> user.username !in t.users && !EmailUsed(t, user.email)
    ensures r.Some? ==> Consistent(r.value)
    ensures r.Some? ==>
      && r.value.users == t.users[user.username := UserRow(user.email, password, Regular)]
      && r.value == t.(users := r.value.users)
  {
    if user.username in t.users then None  // PRIMARY KEY (username)
    else
      var after := t.(users := t.users[user.username := UserRow(user.email, password, Regular)]);
      AddUserChecked(t, after, user, password);
      Commit(after)
  }

  /** Inserting a new username keeps every constraint unless the email is taken. */
  lemma AddUserChecked(t: Tables, after: Tables, user: User, password: string)
    requires Consistent(t) && user.username !in t.users
    requires after == t.(users := t.users[user.username := UserRow(user.email, password, Regular)])
    ensures Consistent(after) <==> !EmailUsed(t, user.email)
  {
    if EmailUsed(t, user.email) {
      var v :| v in t.users && t.users[v].email == user.email;
      assert after.users[v].email == after.users[user.username].email;
    }
  }

  /** After a successful sign-up the new user is there, a NORMAL user, and the chosen
      password authenticates them. */
  lemma SignupCanAuthenticate(t: Tables, user: User, password: string)
    requires Consistent(t) && AddUser(t, user, password).Some?
    ensures var t' := AddUser(t, user, password).value;
      && user.username in t'.users
      && t'.users[user.username].password == password
      && ExtractUserInfo(user.username, t'.users[user.username])
         == User(user.email, user.username, Normal)
  {
  }

  /** The rows of `links` that belong to user `u`. */
  function RowsOfUser(links: set<Link>, u: string): set<Link> {
    set l | l in links && l.username == u
  }

  /** DELETE FROM users: ON DELETE CASCADE removes the user's favourites, borrows and session
      (the borrows deletions fire the increase trigger). Never fails. */
  function RemoveUser(t: Tables, u: string): (r: Tables)
    requires Consistent(t)
    ensures Consistent(r)
    ensures r.users == t.users - {u}
    ensures r.sessions == t.sessions - {u}
    ensures r.favourites == t.favourites - RowsOfUser(t.favourites, u)
    ensures r.borrows == t.borrows - RowsOfUser(t.borrows, u)
    ensures forall l :: l in r.favourites + r.borrows ==> l.username != u
    ensures r.books.Keys == t.books.Keys && StockKept(t, r) && Restocked(t.books, r.books)
  {
    var cascaded := t.(
      users := t.users - {u},
      favourites := t.favourites - RowsOfUser(t.favourites, u),
      sessions := t.sessions - {u});
    var r := DeleteBorrows(cascaded, RowsOfUser(t.borrows, u));
    DeleteBorrowsKeepsStock(cascaded, RowsOfUser(t.borrows, u));
    assert forall b :: b in t.books ==> Stock(cascaded, b) == Stock(t, b);
    forall b | b in r.books ensures r.books[b].quantity >= 0 {
      assert t.books[b].quantity >= 0;
    }
    r
  }

  /** After an account is deleted, its old session token restores nobody. */
  lemma RemovedUserTokenExpires(t: Tables, u: string)
    requires Consistent(t) && u in t.sessions
    ensures forall v :: v in RemoveUser(t, u).sessions ==> RemoveUser(t, u).sessions[v] != t.sessions[u]
  {
    var r := RemoveUser(t, u);
    forall v | v in r.sessions ensures r.sessions[v] != t.sessions[u] {
      assert v != u && v in t.sessions;
    }
  }

  /** UPDATE users SET type = 'Admin'. Trigger remove_admin_borrows deletes the borrows of a
      user who was 'Regular' (returning the copies); favourites are not touched. */
  function MakeAdmin(t: Tables, u: string): (r: Tables)
    requires Consistent(t)
    ensures Consistent(r)
    ensures u !in t.users ==> r == t
    ensures u in t.users ==> r.users == t.users[u := t.users[u].(kind := AdminKind)]
    ensures u in t.users && t.users[u].kind == Regular ==>
      r.borrows == t.borrows - RowsOfUser(t.borrows, u)
    ensures u in t.users && t.users[u].kind != Regular ==> r.borrows == t.borrows && r.books == t.books
    ensures r.favourites == t.favourites && r.sessions == t.sessions
    ensures r.books.Keys == t.books.Keys && StockKept(t, r) && Restocked(t.books, r.books)
  {
    if u !in t.users then t  // the WHERE clause matches no row
    else
      var updated := t.(users := t.users[u := t.users[u].(kind := AdminKind)]);
      if t.users[u].kind == Regular then
        DeleteBorrowsKeepsStock(updated, RowsOfUser(t.borrows, u));
        DeleteBorrowsConsistent(updated, RowsOfUser(t.borrows, u));
        DeleteBorrows(updated, RowsOfUser(t.borrows, u))
      else
        updated
  }

  /** UPDATE users SET type = 'Regular': no trigger, nothing else changes. */
  function DemoteAdmin(t: Tables, u: string): (r: Tables)
    requires Consistent(t)
    ensures Consistent(r)
    ensures u in t.users ==> r.users == t.users[u := t.users[u].(kind := Regular)]
    ensures u !in t.users ==> r == t
    ensures r == t.(users := r.users) && r.users.Keys == t.users.Keys
  {
    if u !in t.users then t
    else t.(users := t.users[u := t.users[u].(kind := Regular)])
  }

  /** A Regular user promoted and demoted again keeps their favourites, has no borrows left
      and is Regular again. */
  lemma PromoteThenDemote(t: Tables, u: string)
    requires Consistent(t) && u in t.users && t.users[u].kind == Regular
    ensures var r := DemoteAdmin(MakeAdmin(t, u), u);
      && r.users == t.users
      && r.favourites == t.favourites
      && RowsOfUser(r.borrows, u) == {}
  {
    var r := DemoteAdmin(MakeAdmin(t, u), u);
    assert r.users[u] == t.users[u];
  }

  /** UPDATE users SET password: nothing else changes. */
  function ChangePassword(t: Tables, u: string, password: string): (r: Tables)
    requires Consistent(t)
    ensures Consistent(r)
    ensures u in t.users ==> r.users == t.users[u := t.users[u].(password := password)]
    ensures u !in t.users ==> r == t
    ensures r == t.(users := r.users) && r.users.Keys == t.users.Keys
  {
    if u !in t.users then t
    else t.(users := t.users[u := t.users[u].(password := password)])
  }

  // ---------------------------------------------------------------------------------------
  // Books (src/Librarydb.cpp:257-286, 446-463)
  // ---------------------------------------------------------------------------------------

  /** INSERT INTO books with rating 0.0: fails on a taken id or a negative quantity. */
  function AddBook(t: Tables, book: Book): (r: Option<Tables>)
    requires Consistent(t)
    ensures r.Some? <==> book.bookId !in t.books && book.quantity >= 0
    ensures r.Some? ==> Consistent(r.value)
    ensures r.Some? ==> r.value == t.(books := t.books[book.bookId := BindColumns(book, 0.0, 0)])
  {
    if book.bookId in t.books then None  // PRIMARY KEY (book_id)
    else
      var after := t.(books := t.books[book.bookId := BindColumns(book, 0.0, 0)]);
      assert book.quantity < 0 ==> !QuantitiesChecked(after.books) by {
        assert after.books[book.bookId].quantity == book.quantity;
      }
      Commit(after)
  }

  /** UPDATE books SET every column but rating and raters: fails only on a negative quantity;
      an unknown id changes nothing. */
  function UpdateBook(t: Tables, book: Book): (r: Option<Tables>)
    requires Consistent(t)
    ensures r.Some? <==> book.bookId !in t.books || book.quantity >= 0
    ensures r.Some? ==> Consistent(r.value)
    ensures r.Some? && book.bookId !in t.books ==> r.value == t
    ensures r.Some? && book.bookId in t.books ==>
      var old_ := t.books[book.bookId];
      r.value == t.(books := t.books[book.bookId := BindColumns(book, old_.rating, old_.raters)])
  {
    if book.bookId !in t.books then Some(t)
    else
      var old_ := t.books[book.bookId];
      var after := t.(books := t.books[book.bookId := BindColumns(book, old_.rating, old_.raters)]);
      assert book.quantity < 0 ==> !QuantitiesChecked(after.books) by {
        assert after.books[book.bookId].quantity == book.quantity;
      }
      Commit(after)
  }

  /** DELETE FROM books: ON DELETE CASCADE removes the book's favourites and borrows. */
  function RemoveBook(t: Tables, b: int): (r: Tables)
    requires Consistent(t)
    ensures Consistent(r)
    ensures r.books == t.books - {b}
    ensures r.favourites == t.favourites - RowsOf(t.favourites, b)
    ensures r.borrows == t.borrows - RowsOf(t.borrows, b)
    ensures r.users == t.users && r.sessions == t.sessions
    ensures StockKept(t, r)
  {
    var cascaded := t.(books := t.books - {b}, favourites := t.favourites - RowsOf(t.favourites, b));
    var r := DeleteBorrows(cascaded, RowsOf(t.borrows, b));
    forall x | x in cascaded.books
      ensures RowsOf(RowsOf(t.borrows, b) * cascaded.borrows, x) == {}
    {
    }
    assert r.books == cascaded.books;
    forall x | x in r.books ensures Stock(r, x) == Stock(t, x) {
      assert RowsOf(r.borrows, x) == RowsOf(t.borrows, x);
    }
    r
  }

  // ---------------------------------------------------------------------------------------
  // Ratings (src/Librarydb.cpp:430-444)
  // ---------------------------------------------------------------------------------------

  /** The new running average after one more score. */
  function NewRating(rating: real, raters: nat, n: int): (r: real)
    ensures raters == 0 ==> r == n as real
    ensures n as real == rating ==> r == rating
    ensures rating <= n as real ==> rating <= r <= n as real
    ensures n as real <= rating ==> n as real <= r <= rating
  {
    (rating * raters as real + n as real) / (raters as real + 1.0)
  }

  /** rateBook: fails (no row to read) for an unknown book; otherwise replaces the rating by
      the running average including `n` and counts one more rater. */
  function RateBook(t: Tables, b: int, n: int): (r: Option<Tables>)
    requires Consistent(t)
    ensures r.Some? <==> b in t.books
    ensures r.Some? ==> Consistent(r.value)
    ensures r.Some? ==>
      && r.value.books.Keys == t.books.Keys
      && r.value.books[b].raters == t.books[b].raters + 1
      && r.value.books[b].rating == NewRating(t.books[b].rating, t.books[b].raters, n)
      && r.value.books[b].quantity == t.books[b].quantity
      && r.value.books[b] == t.books[b].(rating := r.value.books[b].rating, raters := t.books[b].raters + 1)
      && r.value == t.(books := r.value.books)
      && forall x :: x in t.books && x != b ==> r.value.books[x] == t.books[x]
  {
    if b !in t.books then None
    else
      var row := t.books[b];
      Some(t.(books := t.books[b := row.(rating := NewRating(row.rating, row.raters, n), raters := row.raters + 1)]))
  }

  function Sum(scores: seq<int>): int {
    if scores == [] then 0 else Sum(scores[..|scores| - 1]) + scores[|scores| - 1]
  }

  /** The mean of a list of scores, 0 for none (a new book's rating). */
  function Mean(scores: seq<int>): real {
    if scores == [] then 0.0 else Sum(scores) as real / |scores| as real
  }

  /** The rating formula keeps the rating equal to the mean of all scores given so far. */
  lemma NewRatingIsMean(scores: seq<int>, n: int)
    ensures NewRating(Mean(scores), |scores|, n) == Mean(scores + [n])
  {
    var s := scores + [n];
    assert s[..|s| - 1] == scores;
    assert Sum(s) == Sum(scores) + n;
    if scores != [] {
      var k := |scores| as real;
      assert Mean(scores) * k == Sum(scores) as real;
    }
  }

  // ---------------------------------------------------------------------------------------
  // Sessions (src/Librarydb.cpp:133-170)
  // ---------------------------------------------------------------------------------------

  /** DELETE FROM sessions WHERE username: never fails. */
  function ClearSession(t: Tables, u: string): (r: Tables)
    requires Consistent(t)
    ensures Consistent(r)
    ensures u !in r.sessions
    ensures forall v :: v != u ==> (v in r.sessions <==> v in t.sessions)
    ensures forall v :: v in r.sessions ==> r.sessions[v] == t.sessions[v]
    ensures r == t.(sessions := r.sessions)
  {
    t.(sessions := t.sessions - {u})
  }

  /** newSession: clearSession, then INSERT INTO sessions. The insert fails when the user is
      missing or another user's row already holds the token; the clear is kept either way. */
  function NewSession(t: Tables, u: string, s: int): (r: Option<Tables>)
    requires Consistent(t)
    ensures r.Some? <==> u in t.users && forall v :: v in t.sessions && v != u ==> t.sessions[v] != s
    ensures r.Some? ==> Consistent(r.value)
    ensures r.Some? ==> r.value == t.(sessions := t.sessions[u := s])
  {
    var cleared := ClearSession(t, u);
    var after := cleared.(sessions := cleared.sessions[u := s]);
    assert (exists v :: v in t.sessions && v != u && t.sessions[v] == s) ==> !Consistent(after) by {
      if exists v :: v in t.sessions && v != u && t.sessions[v] == s {
        var v :| v in t.sessions && v != u && t.sessions[v] == s;
        assert after.sessions[v] == after.sessions[u];
      }
    }
    Commit(after)
  }

  /** After a successful newSession, u's row is the only one holding the token. */
  lemma NewSessionOwnsToken(t: Tables, u: string, s: int)
    requires Consistent(t) && NewSession(t, u, s).Some?
    ensures var r := NewSession(t, u, s).value;
      forall v :: v in r.sessions && r.sessions[v] == s <==> v == u
  {
  }
}
