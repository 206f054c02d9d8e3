/**
 * The database handle of src/Librarydb.cpp as a class over the five tables. Each mutator
 * runs one statement (two for newSession): on success it changes exactly what the statement
 * and its triggers change; on a constraint violation it reports failure and leaves every
 * table as it was. The readers collect rows one at a time, as the `executeStep` loops do.
 */
module Librarydb {
  import opened Records
  import opened Store

  /** `r` holds each row of `rows` once, in some order, as extractBookInfo reads it. */
  ghost predicate ListsBooks(r: seq<Book>, rows: map<int, BookRow>) {
    && (forall i :: 0 <= i < |r| ==> r[i].bookId in rows && r[i] == ExtractBookInfo(r[i].bookId, rows[r[i].bookId]))
    && (forall i, j :: 0 <= i < j < |r| ==> r[i].bookId != r[j].bookId)
    && (forall id :: HasKey(rows, id) ==> exists i :: 0 <= i < |r| && r[i].bookId == id)
  }

  /** `r` holds each row of `rows` once, in some order, as extractUserInfo reads it. */
  ghost predicate ListsUsers(r: seq<User>, rows: map<string, UserRow>) {
    && (forall i :: 0 <= i < |r| ==> r[i].username in rows && r[i] == ExtractUserInfo(r[i].username, rows[r[i].username]))
    && (forall i, j :: 0 <= i < j < |r| ==> r[i].username != r[j].username)
    && (forall name :: HasKey(rows, name) ==> exists i :: 0 <= i < |r| && r[i].username == name)
  }

  /** The result loop of a books query: one Book per selected row. SQL leaves the row order
      unspecified, so the next row is any row not yet read. */
  method CollectBooks(rows: map<int, BookRow>) returns (r: seq<Book>)
    ensures ListsBooks(r, rows)
    ensures |r| == |rows|
  {
    r := [];
    var unread := rows.Keys;
    while unread != {}
      invariant unread <= rows.Keys
      invariant |r| + |unread| == |rows|
      invariant forall i :: 0 <= i < |r| ==> r[i].bookId in rows && r[i].bookId !in unread
      invariant forall i :: 0 <= i < |r| ==> r[i] == ExtractBookInfo(r[i].bookId, rows[r[i].bookId])
      invariant forall i, j :: 0 <= i < j < |r| ==> r[i].bookId != r[j].bookId
      invariant forall id :: id in rows && id !in unread ==> exists i :: 0 <= i < |r| && r[i].bookId == id
      decreases unread
    {
      assert exists id :: id in unread by {
        if forall id :: id !in unread {
          assert false;
        }
      }
      var id :| id in unread;
      ghost var before := r;
      r := r + [ExtractBookInfo(id, rows[id])];
      unread := unread - {id};
      assert forall k :: 0 <= k < |before| ==> r[k] == before[k];
      assert r[|before|].bookId == id;
    }
  }

  /** The result loop of a users query. */
  method CollectUsers(rows: map<string, UserRow>) returns (r: seq<User>)
    ensures ListsUsers(r, rows)
    ensures |r| == |rows|
  {
    r := [];
    var unread := rows.Keys;
    while unread != {}
      invariant unread <= rows.Keys
      invariant |r| + |unread| == |rows|
      invariant forall i :: 0 <= i < |r| ==> r[i].username in rows && r[i].username !in unread
      invariant forall i :: 0 <= i < |r| ==> r[i] == ExtractUserInfo(r[i].username, rows[r[i].username])
      invariant forall i, j :: 0 <= i < j < |r| ==> r[i].username != r[j].username
      invariant forall name :: name in rows && name !in unread ==> exists i :: 0 <= i < |r| && r[i].username == name
      decreases unread
    {
      var name :| name in unread;
      ghost var before := r;
      r := r + [ExtractUserInfo(name, rows[name])];
      unread := unread - {name};
      assert forall k :: 0 <= k < |before| ==> r[k] == before[k];
      assert r[|before|].username == name;
    }
  }

  /** The books that `links` connects to user `u` (a join of a link table with books). */
  function LinkedBooks(t: Tables, links: set<Link>, u: string): (rows: map<int, BookRow>)
    ensures forall id :: id in rows <==> id in t.books && Link(u, id) in links
    ensures forall id :: id in rows ==> rows[id] == t.books[id]
  {
    map id | id in t.books && Link(u, id) in links :: t.books[id]
  }

  class Librarydb {
    /** db_path: the file the tables live in. */
    const dbPath: string
    var users: map<string, UserRow>
    var books: map<int, BookRow>
    var favourites: set<Link>
    var borrows: set<Link>
    var sessions: map<string, int>

    /** The tables as one value. */
    function Snapshot(): Tables
      reads this
    {
      Tables(users, books, favourites, borrows, sessions)
    }

    ghost predicate Valid()
      reads this
    {
      Consistent(Snapshot())
    }

    /** init: opens the file; a database without a users table gets makeSchema's tables.
        `existing` stands for the contents of the file, None when it has no tables yet. */
    constructor Init(dbPath: string, existing: Option<Tables>)
      requires dbPath != ""
      requires existing.Some? ==> Consistent(existing.value)
      ensures Valid()
      ensures this.dbPath == dbPath && Snapshot() == existing.GetOr(Seeded())
    {
      this.dbPath := dbPath;
      var t := existing.GetOr(Seeded());
      users, books, favourites, borrows, sessions := t.users, t.books, t.favourites, t.borrows, t.sessions;
    }

    // ---- borrows -------------------------------------------------------------------------

    method Borrow(u: string, b: int) returns (ok: bool)
      requires Valid()
      modifies this
      ensures Valid()
      ensures ok == Store.Borrow(old(Snapshot()), u, b).Some?
      ensures Snapshot() == Store.Borrow(old(Snapshot()), u, b).GetOr(old(Snapshot()))
    {
      if Link(u, b) in borrows || u !in users || b !in books || books[b].quantity < 1 {
        return false;
      }
      borrows := borrows + {Link(u, b)};
      books := books[b := books[b].(quantity := books[b].quantity - 1)];
      ok := true;
    }

    method Unborrow(u: string, b: int)
      requires Valid()
      modifies this
      ensures Valid()
      ensures Snapshot() == Store.Unborrow(old(Snapshot()), u, b)
    {
      if Link(u, b) in borrows {
        borrows := borrows - {Link(u, b)};
        books := books[b := books[b].(quantity := books[b].quantity + 1)];
      }
    }

    // ---- favourites ----------------------------------------------------------------------

    method AddFavourite(u: string, b: int) returns (ok: bool)
      requires Valid()
      modifies this
      ensures Valid()
      ensures ok == Store.AddFavourite(old(Snapshot()), u, b).Some?
      ensures Snapshot() == Store.AddFavourite(old(Snapshot()), u, b).GetOr(old(Snapshot()))
    {
      if Link(u, b) in favourites || u !in users || b !in books {
        return false;
      }
      favourites := favourites + {Link(u, b)};
      ok := true;
    }

    method RemoveFavourite(u: string, b: int)
      requires Valid()
      modifies this
      ensures Valid()
      ensures Snapshot() == Store.RemoveFavourite(old(Snapshot()), u, b)
    {
      favourites := favourites - {Link(u, b)};
    }

    // ---- users ---------------------------------------------------------------------------

    method AddUser(user: User, password: string) returns (ok: bool)
      requires Valid()
      modifies this
      ensures Valid()
      ensures ok == Store.AddUser(old(Snapshot()), user, password).Some?
      ensures Snapshot() == Store.AddUser(old(Snapshot()), user, password).GetOr(old(Snapshot()))
    {
      var taken := EmailIsUsed(user.email);
      if user.username in users || taken {
        return false;
      }
      users := users[user.username := UserRow(user.email, password, Regular)];
      ok := true;
    }

    method RemoveUser(u: string)
      requires Valid()
      modifies this
      ensures Valid()
      ensures Snapshot() == Store.RemoveUser(old(Snapshot()), u)
    {
      ghost var t := Snapshot();
      var returned := RowsOfUser(borrows, u);
      users := users - {u};
      favourites := favourites - RowsOfUser(favourites, u);
      sessions := sessions - {u};
      borrows := borrows - returned;
      books := IncreaseBookNumber(books, returned);
      assert returned * t.borrows == returned;
      assert Snapshot() == Store.RemoveUser(t, u);
    }

    method MakeAdmin(u: string)
      requires Valid()
      modifies this
      ensures Valid()
      ensures Snapshot() == Store.MakeAdmin(old(Snapshot()), u)
    {
      if u in users {
        var wasRegular := users[u].kind == Regular;
        users := users[u := users[u].(kind := AdminKind)];
        if wasRegular {
          var returned := RowsOfUser(borrows, u);
          assert returned * borrows == returned;
          borrows := borrows - returned;
          books := IncreaseBookNumber(books, returned);
        }
      }
    }

    method DemoteAdmin(u: string)
      requires Valid()
      modifies this
      ensures Valid()
      ensures Snapshot() == Store.DemoteAdmin(old(Snapshot()), u)
    {
      if u in users {
        users := users[u := users[u].(kind := Regular)];
      }
    }

    method ChangePassword(u: string, password: string)
      requires Valid()
      modifies this
      ensures Valid()
      ensures Snapshot() == Store.ChangePassword(old(Snapshot()), u, password)
    {
      if u in users {
        users := users[u := users[u].(password := password)];
      }
    }

    // ---- books ---------------------------------------------------------------------------

    method AddBook(book: Book) returns (ok: bool)
      requires Valid()
      modifies this
      ensures Valid()
      ensures ok == Store.AddBook(old(Snapshot()), book).Some?
      ensures Snapshot() == Store.AddBook(old(Snapshot()), book).GetOr(old(Snapshot()))
    {
      if book.bookId in books || book.quantity < 0 {
        return false;
      }
      books := books[book.bookId := BindColumns(book, 0.0, 0)];
      ok := true;
    }

    method UpdateBook(book: Book) returns (ok: bool)
      requires Valid()
      modifies this
      ensures Valid()
      ensures ok == Store.UpdateBook(old(Snapshot()), book).Some?
      ensures Snapshot() == Store.UpdateBook(old(Snapshot()), book).GetOr(old(Snapshot()))
    {
      if book.bookId !in books {
        return true;
      }
      if book.quantity < 0 {
        return false;
      }
      var row := books[book.bookId];
      books := books[book.bookId := BindColumns(book, row.rating, row.raters)];
      ok := true;
    }

    method RemoveBook(b: int)
      requires Valid()
      modifies this
      ensures Valid()
      ensures Snapshot() == Store.RemoveBook(old(Snapshot()), b)
    {
      ghost var t := Snapshot();
      var returned := RowsOf(borrows, b);
      books := books - {b};
      favourites := favourites - RowsOf(favourites, b);
      borrows := borrows - returned;
      books := IncreaseBookNumber(books, returned);
      assert returned * t.borrows == returned;
    }

    /** rateBook: the new rating, or None when the book has no row (the read throws). */
    method RateBook(b: int, n: int) returns (rating: Option<real>)
      requires Valid()
      modifies this
      ensures Valid()
      ensures rating.Some? <==> Store.RateBook(old(Snapshot()), b, n).Some?
      ensures Snapshot() == Store.RateBook(old(Snapshot()), b, n).GetOr(old(Snapshot()))
      ensures rating.Some? ==> b in books && rating.value == books[b].rating
    {
      if b !in books {
        return None;
      }
      var row := books[b];
      var r := NewRating(row.rating, row.raters, n);
      books := books[b := row.(rating := r, raters := row.raters + 1)];
      rating := Some(r);
    }

    // ---- sessions ------------------------------------------------------------------------

    method ClearSession(u: string)
      requires Valid()
      modifies this
      ensures Valid()
      ensures Snapshot() == Store.ClearSession(old(Snapshot()), u)
    {
      sessions := sessions - {u};
    }

    /** newSession: clearSession, then the INSERT; a failed INSERT keeps the clear. */
    method NewSession(u: string, s: int) returns (ok: bool)
      requires Valid()
      modifies this
      ensures Valid()
      ensures ok == Store.NewSession(old(Snapshot()), u, s).Some?
      ensures Snapshot() == Store.NewSession(old(Snapshot()), u, s).GetOr(Store.ClearSession(old(Snapshot()), u))
    {
      ClearSession(u);
      if u !in users || s in sessions.Values {
        return false;
      }
      sessions := sessions[u := s];
      ok := true;
    }

    /** restoreSession: the user whose session row holds token `s`, if any. */
    method RestoreSession(s: int) returns (r: Option<User>)
      requires Valid()
      ensures r.Some? <==> exists u :: u in sessions && sessions[u] == s
      ensures r.Some? ==> var name := r.value.username;
        name in sessions && sessions[name] == s && r.value == ExtractUserInfo(name, users[name])
    {
      if s in sessions.Values {
        var name :| name in sessions && sessions[name] == s;
        r := Some(ExtractUserInfo(name, users[name]));
      } else {
        r := None;
      }
    }

    // ---- queries -------------------------------------------------------------------------

    /** authenticate: the user whose username and password both match, if any. */
    method Authenticate(u: string, password: string) returns (r: Option<User>)
      requires Valid()
      ensures r.Some? <==> u in users && users[u].password == password
      ensures r.Some? ==> r.value == ExtractUserInfo(u, users[u]) && r.value.username == u
    {
      if u in users && users[u].password == password {
        r := Some(ExtractUserInfo(u, users[u]));
      } else {
        r := None;
      }
    }

    method UsernameExists(u: string) returns (r: bool)
      ensures r <==> u in users
    {
      r := u in users;
    }

    method EmailIsUsed(email: string) returns (r: bool)
      ensures r <==> EmailUsed(Snapshot(), email)
      ensures r <==> exists u :: u in users && users[u].email == email
    {
      r := exists u :: u in users && users[u].email == email;
    }

    /** getAllUsers: every user except root. */
    method GetAllUsers() returns (r: seq<User>)
      ensures ListsUsers(r, users - {RootName})
      ensures forall i :: 0 <= i < |r| ==> r[i].username != RootName
    {
      r := CollectUsers(users - {RootName});
    }

    method GetAllBooks() returns (r: seq<Book>)
      ensures ListsBooks(r, books)
    {
      r := CollectBooks(books);
    }

    /** getBorrowed: the books user `u` has borrowed. */
    method GetBorrowed(u: string) returns (r: seq<Book>)
      ensures ListsBooks(r, LinkedBooks(Snapshot(), borrows, u))
    {
      r := CollectBooks(LinkedBooks(Snapshot(), borrows, u));
    }

    /** getFavourites: the books user `u` has liked. */
    method GetFavourites(u: string) returns (r: seq<Book>)
      ensures ListsBooks(r, LinkedBooks(Snapshot(), favourites, u))
    {
      r := CollectBooks(LinkedBooks(Snapshot(), favourites, u));
    }

    method GetBook(b: int) returns (r: Option<Book>)
      ensures r.Some? <==> b in books
      ensures r.Some? ==> r.value == ExtractBookInfo(b, books[b])
    {
      if b in books {
        r := Some(ExtractBookInfo(b, books[b]));
      } else {
        r := None;
      }
    }
  }
}
