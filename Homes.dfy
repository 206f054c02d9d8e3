/**
 * The two home screens of src/App.cpp (adminHome and normalHome) as the state they keep:
 * working copies of the database's lists, the menus drawn from them, and the button actions
 * that change the database and the working copies together.
 */
module Homes {
  import opened Records
  import opened Store
  import opened Librarydb
  import opened App

  // ---------------------------------------------------------------------------------------
  // Working copies
  // ---------------------------------------------------------------------------------------

  /** vector::erase of the element at position i. */
  function Erase<T>(s: seq<T>, i: int): (r: seq<T>)
    requires 0 <= i < |s|
    ensures |r| == |s| - 1
    ensures forall k :: 0 <= k < |r| ==> r[k] == if k < i then s[k] else s[k + 1]
  {
    s[..i] + s[i + 1..]
  }

  /** The ids of `s` are the keys of `rows`, each exactly once. */
  ghost predicate SameIds(s: seq<Book>, rows: map<int, BookRow>) {
    && (forall i :: 0 <= i < |s| ==> s[i].bookId in rows)
    && (forall i, j :: 0 <= i < j < |s| ==> s[i].bookId != s[j].bookId)
    && (forall id :: HasKey(rows, id) ==> exists i :: 0 <= i < |s| && s[i].bookId == id)
  }

  /** The admin's list of books: every column as stored except the quantity, which may lag
      behind copies that came back through a cascade (the list is never re-read). */
  ghost predicate ListsStaleBooks(s: seq<Book>, rows: map<int, BookRow>) {
    && SameIds(s, rows)
    && forall i :: 0 <= i < |s| ==>
         && s[i] == ExtractBookInfo(s[i].bookId, rows[s[i].bookId]).(quantity := s[i].quantity)
         && s[i].quantity <= rows[s[i].bookId].quantity
  }

  /** A freshly read list is a stale list too. */
  lemma FreshIsStale(s: seq<Book>, rows: map<int, BookRow>)
    requires ListsBooks(s, rows)
    ensures ListsStaleBooks(s, rows)
  {
    forall i | 0 <= i < |s|
      ensures s[i] == ExtractBookInfo(s[i].bookId, rows[s[i].bookId]).(quantity := s[i].quantity)
    {
    }
  }

  /** push_back of a book whose row was just inserted keeps the admin's list in step. */
  lemma StaleAppend(s: seq<Book>, rows: map<int, BookRow>, id: int, row: BookRow)
    requires ListsStaleBooks(s, rows) && id !in rows
    ensures ListsStaleBooks(s + [ExtractBookInfo(id, row)], rows[id := row])
  {
    var s' := s + [ExtractBookInfo(id, row)];
    var rows' := rows[id := row];
    forall x | HasKey(rows', x) ensures exists i :: 0 <= i < |s'| && s'[i].bookId == x {
      if x == id {
        assert s'[|s|].bookId == x;
      } else {
        assert HasKey(rows, x);
        var i :| 0 <= i < |s| && s[i].bookId == x;
        assert s'[i].bookId == x;
      }
    }
  }

  /** erase of a book whose row was just deleted keeps the admin's list in step. */
  lemma StaleErase(s: seq<Book>, rows: map<int, BookRow>, i: int)
    requires ListsStaleBooks(s, rows) && 0 <= i < |s|
    ensures ListsStaleBooks(Erase(s, i), rows - {s[i].bookId})
  {
    var s' := Erase(s, i);
    forall x | HasKey(rows - {s[i].bookId}, x) ensures exists k :: 0 <= k < |s'| && s'[k].bookId == x {
      assert HasKey(rows, x);
      var k :| 0 <= k < |s| && s[k].bookId == x;
      if k < i {
        assert s'[k].bookId == x;
      } else {
        assert s'[k - 1].bookId == x;
      }
    }
  }

  /** Copies coming back (removeUser, makeAdmin) leave the admin's list in step. */
  lemma StaleRestocked(s: seq<Book>, rows: map<int, BookRow>, rows': map<int, BookRow>)
    requires ListsStaleBooks(s, rows) && Restocked(rows, rows')
    ensures ListsStaleBooks(s, rows')
  {
    forall id | HasKey(rows', id) ensures exists i :: 0 <= i < |s| && s[i].bookId == id {
      assert HasKey(rows, id);
    }
  }

  /** Replacing the row of the i-th listed book, and the book by the new row's reading,
      keeps a list in step. */
  lemma ListedUpdate(s: seq<Book>, rows: map<int, BookRow>, i: int, row: BookRow)
    requires ListsBooks(s, rows) && 0 <= i < |s|
    ensures ListsBooks(s[i := ExtractBookInfo(s[i].bookId, row)], rows[s[i].bookId := row])
  {
    var s' := s[i := ExtractBookInfo(s[i].bookId, row)];
    var rows' := rows[s[i].bookId := row];
    forall x | HasKey(rows', x) ensures exists k :: 0 <= k < |s'| && s'[k].bookId == x {
      assert HasKey(rows, x);
      var k :| 0 <= k < |s| && s[k].bookId == x;
      assert s'[k].bookId == x;
    }
  }

  /** The same for a users list: erase of a removed user. */
  lemma UsersErase(s: seq<User>, rows: map<string, UserRow>, i: int)
    requires ListsUsers(s, rows) && 0 <= i < |s|
    ensures ListsUsers(Erase(s, i), rows - {s[i].username})
  {
    var s' := Erase(s, i);
    forall a | 0 <= a < |s'|
      ensures s'[a].username in rows - {s[i].username}
      ensures s'[a] == ExtractUserInfo(s'[a].username, rows[s'[a].username])
    {
      var a' := if a < i then a else a + 1;
      assert s'[a] == s[a'] && a' != i;
    }
    forall a, b | 0 <= a < b < |s'| ensures s'[a].username != s'[b].username {
      var a', b' := if a < i then a else a + 1, if b < i then b else b + 1;
      assert s'[a] == s[a'] && s'[b] == s[b'] && a' < b';
    }
    forall x | HasKey(rows - {s[i].username}, x) ensures exists k :: 0 <= k < |s'| && s'[k].username == x {
      assert HasKey(rows, x);
      var k :| 0 <= k < |s| && s[k].username == x;
      if k < i {
        assert s'[k].username == x;
      } else {
        assert s'[k - 1].username == x;
      }
    }
  }

  /** The same for a users list: a changed row of a listed user. */
  lemma UsersUpdate(s: seq<User>, rows: map<string, UserRow>, i: int, row: UserRow)
    requires ListsUsers(s, rows) && 0 <= i < |s|
    ensures ListsUsers(s[i := ExtractUserInfo(s[i].username, row)], rows[s[i].username := row])
  {
    var s' := s[i := ExtractUserInfo(s[i].username, row)];
    var rows' := rows[s[i].username := row];
    forall x | HasKey(rows', x) ensures exists k :: 0 <= k < |s'| && s'[k].username == x {
      assert HasKey(rows, x);
      var k :| 0 <= k < |s| && s[k].username == x;
      assert s'[k].username == x;
    }
  }

  // ---------------------------------------------------------------------------------------
  // Book pointers of the normal home: `borrowed` and `favourites` hold pointers into
  // all_books, modelled as positions in it.
  // ---------------------------------------------------------------------------------------

  /** The books at positions `idx`. */
  function Pick(s: seq<Book>, idx: seq<int>): (r: seq<Book>)
    requires forall k :: 0 <= k < |idx| ==> 0 <= idx[k] < |s|
    ensures |r| == |idx| && forall k :: 0 <= k < |idx| ==> r[k] == s[idx[k]]
  {
    seq(|idx|, k requires 0 <= k < |idx| => s[idx[k]])
  }

  /** The positions `idx` point at the books user `u` has a row for in `links`: each
      position once, and every such book pointed at. */
  ghost predicate Picks(s: seq<Book>, idx: seq<int>, links: set<Link>, u: string) {
    && (forall k :: 0 <= k < |idx| ==> 0 <= idx[k] < |s| && Link(u, s[idx[k]].bookId) in links)
    && (forall k, m :: 0 <= k < m < |idx| ==> idx[k] != idx[m])
    && (forall id :: Linked(links, u, id) ==> exists k :: 0 <= k < |idx| && 0 <= idx[k] < |s| && s[idx[k]].bookId == id)
  }

  /** User `u` has a row for book `id` in `links`. */
  predicate Linked(links: set<Link>, u: string, id: int) {
    Link(u, id) in links
  }

  /** Book ids are distinct in `s`. */
  ghost predicate DistinctIds(s: seq<Book>) {
    forall i, j :: 0 <= i < j < |s| ==> s[i].bookId != s[j].bookId
  }

  /** isBorrowed and isFavourite: a book of the list is pointed at exactly when the database
      holds the user's row for it. */
  lemma PickedIffLinked(s: seq<Book>, idx: seq<int>, links: set<Link>, u: string, i: int)
    requires Picks(s, idx, links, u) && DistinctIds(s) && 0 <= i < |s|
    ensures i in idx <==> Link(u, s[i].bookId) in links
  {
    if Link(u, s[i].bookId) in links {
      assert Linked(links, u, s[i].bookId);
      var k :| 0 <= k < |idx| && 0 <= idx[k] < |s| && s[idx[k]].bookId == s[i].bookId;
      assert idx[k] == i;
    }
  }

  /** Both lists keep their ids and menu labels: only quantities and ratings change. */
  ghost predicate SameEntries(s: seq<Book>, s': seq<Book>) {
    |s'| == |s| && forall i :: 0 <= i < |s| ==> s'[i].bookId == s[i].bookId && BookLabel(s'[i]) == BookLabel(s[i])
  }

  lemma PicksSameEntries(s: seq<Book>, s': seq<Book>, idx: seq<int>, links: set<Link>, u: string)
    requires Picks(s, idx, links, u) && SameEntries(s, s')
    ensures Picks(s', idx, links, u)
  {
    forall id | Linked(links, u, id)
      ensures exists k :: 0 <= k < |idx| && 0 <= idx[k] < |s'| && s'[idx[k]].bookId == id
    {
      var k :| 0 <= k < |idx| && 0 <= idx[k] < |s| && s[idx[k]].bookId == id;
      assert s'[idx[k]].bookId == id;
    }
  }

  /** push_back of a pointer to a book the user just got a row for. */
  lemma PicksAppend(s: seq<Book>, idx: seq<int>, links: set<Link>, u: string, i: int)
    requires Picks(s, idx, links, u) && DistinctIds(s) && 0 <= i < |s|
    requires Link(u, s[i].bookId) !in links
    ensures Picks(s, idx + [i], links + {Link(u, s[i].bookId)}, u)
  {
    var idx' := idx + [i];
    forall k | 0 <= k < |idx| ensures idx'[k] != i {
      PickedIffLinked(s, idx, links, u, i);
      assert idx[k] in idx;
    }
    forall id | Linked(links + {Link(u, s[i].bookId)}, u, id)
      ensures exists k :: 0 <= k < |idx'| && 0 <= idx'[k] < |s| && s[idx'[k]].bookId == id
    {
      if id == s[i].bookId {
        assert idx'[|idx|] == i;
      } else {
        assert Linked(links, u, id);
        var k :| 0 <= k < |idx| && 0 <= idx[k] < |s| && s[idx[k]].bookId == id;
        assert idx'[k] == idx[k];
      }
    }
  }

  /** erase keeps the elements of a list distinct. */
  lemma EraseDistinct(s: seq<int>, k: int)
    requires 0 <= k < |s| && forall a, b :: 0 <= a < b < |s| ==> s[a] != s[b]
    ensures forall a, b :: 0 <= a < b < |Erase(s, k)| ==> Erase(s, k)[a] != Erase(s, k)[b]
  {
    var r := Erase(s, k);
    forall a, b | 0 <= a < b < |r| ensures r[a] != r[b] {
      var a', b' := if a < k then a else a + 1, if b < k then b else b + 1;
      assert r[a] == s[a'] && r[b] == s[b'] && a' < b';
    }
  }

  /** erase of the k-th pointer after the user's row for its book was deleted. */
  lemma PicksErase(s: seq<Book>, idx: seq<int>, links: set<Link>, u: string, k: int)
    requires Picks(s, idx, links, u) && DistinctIds(s) && 0 <= k < |idx|
    ensures Picks(s, Erase(idx, k), links - {Link(u, s[idx[k]].bookId)}, u)
  {
    var idx' := Erase(idx, k);
    var gone := s[idx[k]].bookId;
    forall m | 0 <= m < |idx'|
      ensures 0 <= idx'[m] < |s| && Link(u, s[idx'[m]].bookId) in links - {Link(u, gone)}
    {
      var m' := if m < k then m else m + 1;
      assert idx'[m] == idx[m'] && idx[m'] != idx[k];
    }
    EraseDistinct(idx, k);
    forall id | Linked(links - {Link(u, gone)}, u, id)
      ensures exists m :: 0 <= m < |idx'| && 0 <= idx'[m] < |s| && s[idx'[m]].bookId == id
    {
      assert Linked(links, u, id);
      var m :| 0 <= m < |idx| && 0 <= idx[m] < |s| && s[idx[m]].bookId == id;
      assert m != k;
      if m < k {
        assert idx'[m] == idx[m];
      } else {
        assert idx'[m - 1] == idx[m];
      }
    }
  }

  /** The other user's rows and other link tables do not matter: a change to `links` that
      keeps u's rows keeps the pointers valid. */
  lemma PicksSameRows(s: seq<Book>, idx: seq<int>, links: set<Link>, links': set<Link>, u: string)
    requires Picks(s, idx, links, u)
    requires forall id :: Link(u, id) in links' <==> Link(u, id) in links
    ensures Picks(s, idx, links', u)
  {
    forall id | Linked(links', u, id)
      ensures exists k :: 0 <= k < |idx| && 0 <= idx[k] < |s| && s[idx[k]].bookId == id
    {
      assert Linked(links, u, id);
    }
  }

  /** Some book of `s` has the id. */
  predicate HasBook(s: seq<Book>, id: int) {
    exists k :: 0 <= k < |s| && s[k].bookId == id
  }

  /** find_if over all_books: the first book with the id. The id is always there (the rows
      came from the same tables); dereferencing end() otherwise is undefined. */
  method FindBook(s: seq<Book>, id: int) returns (i: int)
    requires HasBook(s, id)
    ensures 0 <= i < |s| && s[i].bookId == id
    ensures forall k :: 0 <= k < i ==> s[k].bookId != id
  {
    i := 0;
    while s[i].bookId != id
      invariant 0 <= i < |s|
      invariant forall k :: 0 <= k < i ==> s[k].bookId != id
      invariant exists k :: i <= k < |s| && s[k].bookId == id
      decreases |s| - i
    {
      i := i + 1;
    }
  }

  /** The loops that turn getBorrowed's and getFavourites's books into pointers. */
  method Resolve(s: seq<Book>, found: seq<Book>) returns (idx: seq<int>)
    requires forall j :: 0 <= j < |found| ==> HasBook(s, found[j].bookId)
    ensures |idx| == |found|
    ensures forall j :: 0 <= j < |idx| ==> 0 <= idx[j] < |s| && s[idx[j]].bookId == found[j].bookId
  {
    idx := [];
    var j := 0;
    while j < |found|
      invariant 0 <= j <= |found| && |idx| == j
      invariant forall m :: 0 <= m < j ==> 0 <= idx[m] < |s| && s[idx[m]].bookId == found[m].bookId
    {
      var i := FindBook(s, found[j].bookId);
      idx := idx + [i];
      j := j + 1;
    }
  }

  /** Every book of a join is in the list of all books. */
  lemma LinkedAreListed(t: Tables, s: seq<Book>, found: seq<Book>, links: set<Link>, u: string)
    requires ListsBooks(s, t.books)
    requires ListsBooks(found, LinkedBooks(t, links, u))
    ensures forall j :: 0 <= j < |found| ==> HasBook(s, found[j].bookId)
  {
    forall j | 0 <= j < |found| ensures HasBook(s, found[j].bookId) {
      assert HasKey(t.books, found[j].bookId);
    }
  }

  /** The resolved pointers point at exactly the user's linked books. */
  lemma ResolvedPicks(t: Tables, s: seq<Book>, found: seq<Book>, links: set<Link>, u: string, idx: seq<int>)
    requires ListsBooks(s, t.books)
    requires ListsBooks(found, LinkedBooks(t, links, u))
    requires forall id :: Link(u, id) in links ==> id in t.books
    requires |idx| == |found|
    requires forall j :: 0 <= j < |idx| ==> 0 <= idx[j] < |s| && s[idx[j]].bookId == found[j].bookId
    ensures Picks(s, idx, links, u)
  {
    forall k, m | 0 <= k < m < |idx| ensures idx[k] != idx[m] {
      assert found[k].bookId != found[m].bookId;
    }
    forall id | Linked(links, u, id)
      ensures exists k :: 0 <= k < |idx| && 0 <= idx[k] < |s| && s[idx[k]].bookId == id
    {
      assert HasKey(LinkedBooks(t, links, u), id);
      var j :| 0 <= j < |found| && found[j].bookId == id;
      assert s[idx[j]].bookId == id;
    }
  }

  // ---------------------------------------------------------------------------------------
  // Menus
  // ---------------------------------------------------------------------------------------

  /** A menu entry: its label, fixed when the entry is made, and the position in the list
      that its visibility test reads (the index its lambda captures). */
  datatype Entry = Entry(caption: string, slot: int)

  /** The label of a book's entry: author, "_", title. */
  function BookLabel(b: Book): string {
    b.author + "_" + b.title
  }

  /** The label of a user's entry: username, "_", email. */
  function UserLabel(u: User): string {
    u.username + "_" + u.email
  }

  /** Entry k is labelled after s[k] and tests s[k]. */
  ghost predicate MenuOf<T>(m: seq<Entry>, s: seq<T>, labelOf: T -> string) {
    |m| == |s| && forall k :: 0 <= k < |m| ==> m[k] == Entry(labelOf(s[k]), k)
  }

  /** Every entry's test reads inside the list. */
  predicate SlotsInRange(m: seq<Entry>, n: int) {
    forall k :: 0 <= k < |m| ==> 0 <= m[k].slot < n
  }

  /** Which books a menu shows for a search string: each entry tests the book at its slot. */
  function ShownBooks(m: seq<Entry>, s: seq<Book>, search: string): (r: seq<bool>)
    requires SlotsInRange(m, |s|)
    ensures |r| == |m|
    ensures forall k :: 0 <= k < |m| ==> (r[k] <==> BookShown(s[m[k].slot], search))
  {
    seq(|m|, k requires 0 <= k < |m| => BookShown(s[m[k].slot], search))
  }

  /** In a menu that is in step with its list, entry k is shown exactly when the k-th book
      matches a non-empty search; an empty search shows every entry. */
  lemma MenuShowsMatches(m: seq<Entry>, s: seq<Book>, search: string, k: int)
    requires MenuOf(m, s, BookLabel) && 0 <= k < |m|
    ensures SlotsInRange(m, |s|)
    ensures search != "" ==> (ShownBooks(m, s, search)[k] <==> BookMatches(s[k], search))
    ensures search == "" ==> ShownBooks(m, s, search)[k]
  {
    var dummy := User("", "", Normal);
    ShownIffMatches(s[k], dummy, search);
  }

  /** The loop that adds one entry per element of a list. */
  method BuildMenu<T>(s: seq<T>, labelOf: T -> string) returns (m: seq<Entry>)
    ensures MenuOf(m, s, labelOf)
  {
    m := [];
    var i := 0;
    while i < |s|
      invariant 0 <= i <= |s| && |m| == i
      invariant forall k :: 0 <= k < i ==> m[k] == Entry(labelOf(s[k]), k)
    {
      m := m + [Entry(labelOf(s[i]), i)];
      i := i + 1;
    }
  }

  /** Removing entry `i`, with the entries after it testing the position they now stand
      at; this is what a test by element rather than by captured index does. */
  function RemoveEntry(m: seq<Entry>, i: int): (r: seq<Entry>)
    requires 0 <= i < |m|
    ensures |r| == |m| - 1
    ensures forall k :: 0 <= k < |r| ==> r[k].caption == Erase(m, i)[k].caption
  {
    seq(|m| - 1, k requires 0 <= k < |m| - 1 => if k < i then m[k] else m[k + 1].(slot := k))
  }

  /** Removing an element and its entry keeps the menu in step with the list. */
  lemma RemoveEntryKeepsMenu<T>(m: seq<Entry>, s: seq<T>, labelOf: T -> string, i: int)
    requires MenuOf(m, s, labelOf) && 0 <= i < |s|
    ensures MenuOf(RemoveEntry(m, i), Erase(s, i), labelOf)
  {
  }

  /** Entry labels do not change with quantities or ratings. */
  lemma MenuSameEntries(m: seq<Entry>, s: seq<Book>, s': seq<Book>)
    requires MenuOf(m, s, BookLabel) && SameEntries(s, s')
    ensures MenuOf(m, s', BookLabel)
  {
  }

  /** Pointer menus: the entries of a menu over Pick(s, idx) stay in step when the books
      pointed at keep their labels. */
  lemma PickMenuSameEntries(m: seq<Entry>, s: seq<Book>, s': seq<Book>, idx: seq<int>)
    requires forall k :: 0 <= k < |idx| ==> 0 <= idx[k] < |s|
    requires MenuOf(m, Pick(s, idx), BookLabel) && SameEntries(s, s')
    ensures MenuOf(m, Pick(s', idx), BookLabel)
  {
  }

  lemma PickAppend(s: seq<Book>, idx: seq<int>, i: int)
    requires forall k :: 0 <= k < |idx| ==> 0 <= idx[k] < |s|
    requires 0 <= i < |s|
    ensures Pick(s, idx + [i]) == Pick(s, idx) + [s[i]]
  {
  }

  lemma PickErase(s: seq<Book>, idx: seq<int>, k: int)
    requires forall m :: 0 <= m < |idx| ==> 0 <= idx[m] < |s|
    requires 0 <= k < |idx|
    ensures Pick(s, Erase(idx, k)) == Erase(Pick(s, idx), k)
  {
  }

  // ---- the menu code as written ----------------------------------------------------------

  /** remove_book_button_action as written: it detaches the entry at the user menu's
      selection, not the book menu's. */
  function RemoveBookMenuAsWritten(m: seq<Entry>, bookSelected: int, userSelected: int): (r: seq<Entry>)
    requires 0 <= bookSelected < |m| && 0 <= userSelected < |m|
    ensures |r| == |m| - 1
    ensures bookSelected < userSelected ==> r[bookSelected] == m[bookSelected]
    ensures userSelected < bookSelected ==> r[bookSelected - 1] == m[bookSelected]
  {
    m[..userSelected] + m[userSelected + 1..]
  }

  /** With two selections that differ and distinct labels, the book menu no longer matches
      the list after a removal: the removed book's entry stays, another one goes. */
  lemma WrongEntryDetached(m: seq<Entry>, s: seq<Book>, bookSelected: int, userSelected: int)
    requires MenuOf(m, s, BookLabel)
    requires forall a, b :: 0 <= a < b < |s| ==> BookLabel(s[a]) != BookLabel(s[b])
    requires 0 <= bookSelected < |s| && 0 <= userSelected < |s| && bookSelected != userSelected
    ensures !MenuOf(RemoveBookMenuAsWritten(m, bookSelected, userSelected), Erase(s, bookSelected), BookLabel)
  {
    var r := RemoveBookMenuAsWritten(m, bookSelected, userSelected);
    if bookSelected < userSelected {
      assert r[bookSelected] == m[bookSelected];
      assert Erase(s, bookSelected)[bookSelected] == s[bookSelected + 1];
    } else {
      assert r[bookSelected - 1] == m[bookSelected];
      assert m[bookSelected].slot == bookSelected;
    }
  }

  /** Detaching entry i as written keeps the captured indices: when i is not the last entry,
      the last remaining entry tests a position past the end of the shortened list. */
  lemma StaleSlotAfterErase<T>(m: seq<Entry>, s: seq<T>, labelOf: T -> string, i: int)
    requires MenuOf(m, s, labelOf) && 0 <= i < |s| - 1
    ensures !SlotsInRange(Erase(m, i), |Erase(s, i)|)
    ensures Erase(m, i)[|s| - 2].slot == |Erase(s, i)|
  {
    assert Erase(m, i)[|s| - 2] == m[|s| - 1];
  }

  /** The renumbered removal never tests outside the list. */
  lemma RemoveEntryInRange<T>(m: seq<Entry>, s: seq<T>, labelOf: T -> string, i: int)
    requires MenuOf(m, s, labelOf) && 0 <= i < |s|
    ensures SlotsInRange(RemoveEntry(m, i), |Erase(s, i)|)
  {
    RemoveEntryKeepsMenu(m, s, labelOf, i);
  }

  // ---------------------------------------------------------------------------------------
  // adminHome (src/App.cpp:327-615): lists and the actions on them
  // ---------------------------------------------------------------------------------------

  /** What the admin home keeps: all_books, all_users and their two menus. */
  datatype AdminLists = AdminLists(books: seq<Book>, users: seq<User>, bookMenu: seq<Entry>, userMenu: seq<Entry>)

  /** The admin home's lists are in step with the tables. */
  ghost predicate AdminInStep(t: Tables, c: AdminLists) {
    && ListsStaleBooks(c.books, t.books)
    && ListsUsers(c.users, t.users - {RootName})
    && MenuOf(c.bookMenu, c.books, BookLabel)
    && MenuOf(c.userMenu, c.users, UserLabel)
  }

  function AddBookLists(c: AdminLists, book: Book): AdminLists {
    c.(books := c.books + [book], bookMenu := c.bookMenu + [Entry(BookLabel(book), |c.books|)])
  }

  function RemoveBookLists(c: AdminLists, k: int): AdminLists
    requires 0 <= k < |c.books| && |c.bookMenu| == |c.books|
  {
    c.(books := Erase(c.books, k), bookMenu := RemoveEntry(c.bookMenu, k))
  }

  function RemoveUserLists(c: AdminLists, k: int): AdminLists
    requires 0 <= k < |c.users| && |c.userMenu| == |c.users|
  {
    c.(users := Erase(c.users, k), userMenu := RemoveEntry(c.userMenu, k))
  }

  function SetKindLists(c: AdminLists, k: int, kind: UserClass): AdminLists
    requires 0 <= k < |c.users|
  {
    c.(users := c.users[k := c.users[k].(kind := kind)])
  }

  /** A book built by the form and accepted by the database joins the lists in step. */
  lemma AddBookInStep(t: Tables, c: AdminLists, book: Book)
    requires Consistent(t) && AdminInStep(t, c)
    requires book.pubYear >= -1 && book.edition >= -1 && book.rating == 0.0
    requires AddBook(t, book).Some?
    ensures AdminInStep(AddBook(t, book).value, AddBookLists(c, book))
  {
    ColumnRoundTrip(book);
    StaleAppend(c.books, t.books, book.bookId, BindColumns(book, 0.0, 0));
  }

  lemma RemoveBookInStep(t: Tables, c: AdminLists, k: int)
    requires Consistent(t) && AdminInStep(t, c) && 0 <= k < |c.books|
    ensures AdminInStep(RemoveBook(t, c.books[k].bookId), RemoveBookLists(c, k))
  {
    StaleErase(c.books, t.books, k);
    RemoveEntryKeepsMenu(c.bookMenu, c.books, BookLabel, k);
  }

  /** Removing a user returns their copies to the shelves, which the admin's list does not
      see: its quantities only lag further. */
  lemma RemoveUserInStep(t: Tables, c: AdminLists, k: int)
    requires Consistent(t) && AdminInStep(t, c) && 0 <= k < |c.users|
    ensures AdminInStep(RemoveUser(t, c.users[k].username), RemoveUserLists(c, k))
  {
    var name := c.users[k].username;
    var r := RemoveUser(t, name);
    UsersErase(c.users, t.users - {RootName}, k);
    assert r.users - {RootName} == (t.users - {RootName}) - {name};
    StaleRestocked(c.books, t.books, r.books);
    RemoveEntryKeepsMenu(c.userMenu, c.users, UserLabel, k);
  }

  /** Granting admin rights: the listed user becomes ADMIN as the stored type reads back;
      any borrowed copies return to the shelves. */
  lemma GrantInStep(t: Tables, c: AdminLists, k: int)
    requires Consistent(t) && AdminInStep(t, c) && 0 <= k < |c.users|
    ensures AdminInStep(MakeAdmin(t, c.users[k].username), SetKindLists(c, k, Admin))
  {
    var name := c.users[k].username;
    var r := MakeAdmin(t, name);
    var row := t.users[name].(kind := AdminKind);
    UsersUpdate(c.users, t.users - {RootName}, k, row);
    assert r.users - {RootName} == (t.users - {RootName})[name := row];
    assert ExtractUserInfo(name, row) == c.users[k].(kind := Admin);
    StaleRestocked(c.books, t.books, r.books);
  }

  /** Revoking admin rights: the listed user becomes NORMAL as the stored type reads back. */
  lemma RevokeInStep(t: Tables, c: AdminLists, k: int)
    requires Consistent(t) && AdminInStep(t, c) && 0 <= k < |c.users|
    ensures AdminInStep(DemoteAdmin(t, c.users[k].username), SetKindLists(c, k, Normal))
  {
    var name := c.users[k].username;
    var r := DemoteAdmin(t, name);
    var row := t.users[name].(kind := Regular);
    UsersUpdate(c.users, t.users - {RootName}, k, row);
    assert r.users - {RootName} == (t.users - {RootName})[name := row];
    assert ExtractUserInfo(name, row) == c.users[k].(kind := Normal);
  }

  class AdminView {
    const app: App
    var allBooks: seq<Book>
    var allUsers: seq<User>
    var bookMenu: seq<Entry>
    var userMenu: seq<Entry>
    var title: string
    var author: string
    var quantity: string
    var publisher: string
    var pubYear: string
    var edition: string
    var description: string
    var errorMessage: string
    var addBookOk: bool

    function Lists(): AdminLists
      reads this`allBooks, this`allUsers, this`bookMenu, this`userMenu
    {
      AdminLists(allBooks, allUsers, bookMenu, userMenu)
    }

    ghost predicate Valid()
      reads this`allBooks, this`allUsers, this`bookMenu, this`userMenu, app, app.db
    {
      app.Valid() && AdminInStep(app.db.Snapshot(), Lists())
    }

    /** The working copies are read once when the screen opens. */
    constructor (app: App)
      requires app.Valid()
      ensures Valid() && this.app == app
      ensures ListsBooks(allBooks, app.db.books)
      ensures title == author == quantity == publisher == pubYear == edition == description == ""
      ensures !addBookOk
    {
      var books := app.db.GetAllBooks();
      var users := app.db.GetAllUsers();
      var bm := BuildMenu(books, BookLabel);
      var um := BuildMenu(users, UserLabel);
      FreshIsStale(books, app.db.books);
      this.app := app;
      allBooks, allUsers, bookMenu, userMenu := books, users, bm, um;
      title, author, quantity, publisher, pubYear, edition, description := "", "", "", "", "", "", "";
      errorMessage := "";
      addBookOk := false;
    }

    /** The add-book alert, run whenever the form is drawn. */
    method CheckAddBook() returns (showAlert: bool)
      modifies this`errorMessage, this`addBookOk
      ensures var r := AddBookCheck(quantity, pubYear, edition);
        && addBookOk == r.None?
        && errorMessage == r.GetOr(old(errorMessage))
        && showAlert == !addBookOk
    {
      addBookOk := false;
      if quantity != "" && !AllDigits(quantity) {
        errorMessage := InvalidQuantity;
      } else if pubYear != "" && !AllDigits(pubYear) {
        errorMessage := InvalidYear;
      } else if edition != "" && !AllDigits(edition) {
        errorMessage := InvalidEdition;
      } else {
        addBookOk := true;
      }
      showAlert := !addBookOk;
    }

    /** add_book_action. The alert runs on the draw before the click, so it runs first; a
        missing required field sets the message. `id` is the hash of the clock value. `ok`
        is false when an exception escapes: a stoi out of range or an insert the database
        refuses. */
    method AddBookAction(id: int) returns (ok: bool)
      requires Valid()
      modifies this`allBooks, this`bookMenu, this`errorMessage, this`addBookOk, app.db
      modifies this`title, this`author, this`quantity, this`publisher, this`pubYear, this`edition, this`description
      ensures Valid()
      ensures var check := AddBookCheck(old(quantity), old(pubYear), old(edition));
        var missing := MissingField(old(title), old(author), old(quantity));
        && addBookOk == check.None?
        && (check.Some? ==> errorMessage == check.value)
        && (check.None? && missing.Some? ==> errorMessage == missing.value)
        && (check.Some? || missing.Some? ==> ok)
        && (check.Some? || missing.Some? || !ok ==>
              && title == old(title) && author == old(author) && quantity == old(quantity)
              && publisher == old(publisher) && pubYear == old(pubYear) && edition == old(edition)
              && description == old(description))
        && (check.Some? || missing.Some? || !ok ==>
              Lists() == old(Lists()) && app.db.Snapshot() == old(app.db.Snapshot()))
        && (check.None? && missing.None? ==>
              var book := NewBook(id, old(title), old(author), old(quantity), old(publisher), old(pubYear), old(edition));
              && (ok <==> book.Some? && id !in old(app.db.books))
              && (ok ==>
                    && app.db.Snapshot() == Store.AddBook(old(app.db.Snapshot()), book.value).value
                    && Lists() == AddBookLists(old(Lists()), book.value)
                    && title == author == quantity == publisher == pubYear == edition == description == ""))
    {
      var alert := CheckAddBook();
      if !addBookOk {
        return true;
      }
      var missing := MissingField(title, author, quantity);
      if missing.Some? {
        errorMessage := missing.value;
        return true;
      }
      ok := SubmitBook(id);
    }

    /** The part of add_book_action after the checks: the stoi conversions, the insert, and
        on success the form cleared. */
    method SubmitBook(id: int) returns (ok: bool)
      requires Valid() && AllDigits(quantity) && AllDigits(pubYear) && AllDigits(edition) && quantity != ""
      modifies this`allBooks, this`bookMenu, app.db
      modifies this`title, this`author, this`quantity, this`publisher, this`pubYear, this`edition, this`description
      ensures Valid()
      ensures var book := NewBook(id, old(title), old(author), old(quantity), old(publisher), old(pubYear), old(edition));
        && (ok <==> book.Some? && id !in old(app.db.books))
        && (!ok ==> Lists() == old(Lists()) && app.db.Snapshot() == old(app.db.Snapshot()))
        && (!ok ==> title == old(title) && author == old(author) && quantity == old(quantity)
                    && publisher == old(publisher) && pubYear == old(pubYear) && edition == old(edition)
                    && description == old(description))
        && (ok ==>
              && app.db.Snapshot() == Store.AddBook(old(app.db.Snapshot()), book.value).value
              && Lists() == AddBookLists(old(Lists()), book.value)
              && title == author == quantity == publisher == pubYear == edition == description == "")
    {
      var book := NewBook(id, title, author, quantity, publisher, pubYear, edition);
      if book.None? {
        return false;
      }
      ok := InsertBook(book.value);
      if ok {
        ClearForm();
      }
    }

    /** The form's fields are cleared after a book is added. */
    method ClearForm()
      modifies this`title, this`author, this`quantity, this`publisher, this`pubYear, this`edition, this`description
      ensures title == author == quantity == publisher == pubYear == edition == description == ""
    {
      title, author, quantity, publisher, pubYear, edition, description := "", "", "", "", "", "", "";
    }

    /** The insert of add_book_action: the database takes the book or refuses it, and an
        accepted book joins the list and the menu. */
    method InsertBook(book: Book) returns (ok: bool)
      requires Valid() && book.pubYear >= -1 && book.edition >= -1 && book.rating == 0.0
      modifies this`allBooks, this`bookMenu, app.db
      ensures Valid()
      ensures ok == Store.AddBook(old(app.db.Snapshot()), book).Some?
      ensures app.db.Snapshot() == Store.AddBook(old(app.db.Snapshot()), book).GetOr(old(app.db.Snapshot()))
      ensures Lists() == if ok then AddBookLists(old(Lists()), book) else old(Lists())
    {
      ghost var t := app.db.Snapshot();
      ok := app.db.AddBook(book);
      if !ok {
        return;
      }
      AddBookInStep(t, Lists(), book);
      allBooks := allBooks + [book];
      bookMenu := bookMenu + [Entry(BookLabel(book), |allBooks| - 1)];
    }

    /** remove_book_button_action: the book goes from the database, the list and the menu. */
    method RemoveBookAction(selected: int)
      requires Valid() && 0 <= selected < |allBooks|
      modifies this`allBooks, this`bookMenu, app.db
      ensures Valid()
      ensures app.db.Snapshot() == Store.RemoveBook(old(app.db.Snapshot()), old(allBooks)[selected].bookId)
      ensures Lists() == RemoveBookLists(old(Lists()), selected)
    {
      RemoveBookInStep(app.db.Snapshot(), Lists(), selected);
      app.db.RemoveBook(allBooks[selected].bookId);
      allBooks := Erase(allBooks, selected);
      bookMenu := RemoveEntry(bookMenu, selected);
    }

    /** remove_user_button_action: the user goes from the database (with their rows), the
        list and the menu. */
    method RemoveUserAction(selected: int)
      requires Valid() && 0 <= selected < |allUsers|
      modifies this`allUsers, this`userMenu, app.db
      ensures Valid()
      ensures app.db.Snapshot() == Store.RemoveUser(old(app.db.Snapshot()), old(allUsers)[selected].username)
      ensures Lists() == RemoveUserLists(old(Lists()), selected)
    {
      RemoveUserInStep(app.db.Snapshot(), Lists(), selected);
      app.db.RemoveUser(allUsers[selected].username);
      allUsers := Erase(allUsers, selected);
      userMenu := RemoveEntry(userMenu, selected);
    }

    /** grant_privelege_button_action, offered for NORMAL users only. */
    method GrantAction(selected: int)
      requires Valid() && 0 <= selected < |allUsers| && allUsers[selected].kind == Normal
      modifies this`allUsers, app.db
      ensures Valid()
      ensures app.db.Snapshot() == Store.MakeAdmin(old(app.db.Snapshot()), old(allUsers)[selected].username)
      ensures Lists() == SetKindLists(old(Lists()), selected, Admin)
    {
      GrantInStep(app.db.Snapshot(), Lists(), selected);
      app.db.MakeAdmin(allUsers[selected].username);
      allUsers := allUsers[selected := allUsers[selected].(kind := Admin)];
    }

    /** revoke_privelege_button_action, offered for ADMIN users only. An admin who demotes
        themselves is logged out and the screen closes (`exit`). */
    method RevokeAction(selected: int) returns (exit: bool)
      requires Valid() && app.activeUser.Some?
      requires 0 <= selected < |allUsers| && allUsers[selected].kind == Admin
      modifies this`allUsers, app`activeUser, app.db
      ensures Valid()
      ensures app.db.Snapshot() == Store.DemoteAdmin(old(app.db.Snapshot()), old(allUsers)[selected].username)
      ensures Lists() == SetKindLists(old(Lists()), selected, Normal)
      ensures exit <==> old(allUsers)[selected].username == old(app.activeUser).value.username
      ensures exit ==> app.activeUser == None
      ensures !exit ==> app.activeUser == old(app.activeUser)
    {
      var name := allUsers[selected].username;
      RevokeInStep(app.db.Snapshot(), Lists(), selected);
      app.db.DemoteAdmin(name);
      allUsers := allUsers[selected := allUsers[selected].(kind := Normal)];
      exit := name == app.activeUser.value.username;
      if exit {
        app.activeUser := None;
      }
    }
  }

  // ---------------------------------------------------------------------------------------
  // normalHome (src/App.cpp:617-957): lists and the actions on them
  // ---------------------------------------------------------------------------------------

  /** What the normal home keeps: all_books, the pointers `borrowed` and `favourites`, and
      the three menus. */
  datatype NormalLists = NormalLists(
    books: seq<Book>,
    borrowed: seq<int>,
    favourites: seq<int>,
    bookMenu: seq<Entry>,
    borrowedMenu: seq<Entry>,
    favouritesMenu: seq<Entry>)

  /** The normal home's lists are in step with the tables for user `u`. */
  ghost predicate NormalInStep(t: Tables, u: string, c: NormalLists) {
    && ListsBooks(c.books, t.books)
    && Picks(c.books, c.borrowed, t.borrows, u)
    && Picks(c.books, c.favourites, t.favourites, u)
    && MenuOf(c.bookMenu, c.books, BookLabel)
    && MenuOf(c.borrowedMenu, Pick(c.books, c.borrowed), BookLabel)
    && MenuOf(c.favouritesMenu, Pick(c.books, c.favourites), BookLabel)
  }

  /** The shared book at position i changes only its quantity or rating: the pointers and
      menus stay in step. */
  lemma NormalSameEntries(t: Tables, t': Tables, u: string, c: NormalLists, books: seq<Book>)
    requires NormalInStep(t, u, c) && SameEntries(c.books, books)
    requires ListsBooks(books, t'.books)
    requires forall id :: Link(u, id) in t'.borrows <==> Link(u, id) in t.borrows
    requires forall id :: Link(u, id) in t'.favourites <==> Link(u, id) in t.favourites
    ensures NormalInStep(t', u, c.(books := books))
  {
    PicksSameEntries(c.books, books, c.borrowed, t.borrows, u);
    PicksSameRows(books, c.borrowed, t.borrows, t'.borrows, u);
    PicksSameEntries(c.books, books, c.favourites, t.favourites, u);
    PicksSameRows(books, c.favourites, t.favourites, t'.favourites, u);
    MenuSameEntries(c.bookMenu, c.books, books);
    PickMenuSameEntries(c.borrowedMenu, c.books, books, c.borrowed);
    PickMenuSameEntries(c.favouritesMenu, c.books, books, c.favourites);
  }

  function BorrowLists(c: NormalLists, i: int): NormalLists
    requires 0 <= i < |c.books|
  {
    c.(books := c.books[i := c.books[i].(quantity := c.books[i].quantity - 1)],
       borrowed := c.borrowed + [i],
       borrowedMenu := c.borrowedMenu + [Entry(BookLabel(c.books[i]), |c.borrowed|)])
  }

  function LikeLists(c: NormalLists, i: int): NormalLists
    requires 0 <= i < |c.books|
  {
    c.(favourites := c.favourites + [i],
       favouritesMenu := c.favouritesMenu + [Entry(BookLabel(c.books[i]), |c.favourites|)])
  }

  function UnborrowLists(c: NormalLists, k: int): NormalLists
    requires 0 <= k < |c.borrowed| && 0 <= c.borrowed[k] < |c.books| && |c.borrowedMenu| == |c.borrowed|
  {
    var i := c.borrowed[k];
    c.(books := c.books[i := c.books[i].(quantity := c.books[i].quantity + 1)],
       borrowed := Erase(c.borrowed, k),
       borrowedMenu := RemoveEntry(c.borrowedMenu, k))
  }

  function UnlikeLists(c: NormalLists, k: int): NormalLists
    requires 0 <= k < |c.favourites| && |c.favouritesMenu| == |c.favourites|
  {
    c.(favourites := Erase(c.favourites, k), favouritesMenu := RemoveEntry(c.favouritesMenu, k))
  }

  function RateLists(c: NormalLists, i: int, rating: real): NormalLists
    requires 0 <= i < |c.books|
  {
    c.(books := c.books[i := c.books[i].(rating := rating)])
  }

  /** The shared book at position i takes quantity q, in the list and in its row alike. */
  lemma RestockInStep(t: Tables, u: string, c: NormalLists, i: int, q: int)
    requires NormalInStep(t, u, c) && 0 <= i < |c.books|
    ensures var id := c.books[i].bookId;
      NormalInStep(t.(books := t.books[id := t.books[id].(quantity := q)]), u,
                   c.(books := c.books[i := c.books[i].(quantity := q)]))
  {
    var id := c.books[i].bookId;
    var t' := t.(books := t.books[id := t.books[id].(quantity := q)]);
    var books := c.books[i := c.books[i].(quantity := q)];
    ListedUpdate(c.books, t.books, i, t.books[id].(quantity := q));
    assert ExtractBookInfo(id, t'.books[id]) == books[i];
    assert SameEntries(c.books, books);
    NormalSameEntries(t, t', u, c, books);
  }

  /** A new borrows row for the book at position i and a pointer to it in `borrowed`. */
  lemma BorrowedAppendInStep(t: Tables, u: string, c: NormalLists, i: int)
    requires NormalInStep(t, u, c) && 0 <= i < |c.books|
    requires Link(u, c.books[i].bookId) !in t.borrows
    ensures NormalInStep(t.(borrows := t.borrows + {Link(u, c.books[i].bookId)}), u,
      c.(borrowed := c.borrowed + [i],
         borrowedMenu := c.borrowedMenu + [Entry(BookLabel(c.books[i]), |c.borrowed|)]))
  {
    PicksAppend(c.books, c.borrowed, t.borrows, u, i);
    PickAppend(c.books, c.borrowed, i);
  }

  /** The borrows row behind pointer k goes, and the pointer and its menu entry with it. */
  lemma BorrowedEraseInStep(t: Tables, u: string, c: NormalLists, k: int)
    requires NormalInStep(t, u, c) && 0 <= k < |c.borrowed|
    ensures 0 <= c.borrowed[k] < |c.books|
    ensures NormalInStep(t.(borrows := t.borrows - {Link(u, c.books[c.borrowed[k]].bookId)}), u,
      c.(borrowed := Erase(c.borrowed, k), borrowedMenu := RemoveEntry(c.borrowedMenu, k)))
  {
    PicksErase(c.books, c.borrowed, t.borrows, u, k);
    PickErase(c.books, c.borrowed, k);
    RemoveEntryKeepsMenu(c.borrowedMenu, Pick(c.books, c.borrowed), BookLabel, k);
  }

  /** A borrow the database accepts: one copy fewer on the shared book, a pointer to it in
      `borrowed`, and both still in step. */
  lemma BorrowInStep(t: Tables, u: string, c: NormalLists, i: int)
    requires Consistent(t) && NormalInStep(t, u, c) && 0 <= i < |c.books|
    requires Borrow(t, u, c.books[i].bookId).Some?
    ensures NormalInStep(Borrow(t, u, c.books[i].bookId).value, u, BorrowLists(c, i))
  {
    var id := c.books[i].bookId;
    var q := c.books[i].quantity - 1;
    assert t.books[id].quantity - 1 == q;
    RestockInStep(t, u, c, i, q);
    var tm := t.(books := t.books[id := t.books[id].(quantity := q)]);
    var cm := c.(books := c.books[i := c.books[i].(quantity := q)]);
    BorrowedAppendInStep(tm, u, cm, i);
    var r := Borrow(t, u, id).value;
    assert r.books == tm.books;
    assert r == tm.(borrows := tm.borrows + {Link(u, id)});
    assert BookLabel(cm.books[i]) == BookLabel(c.books[i]);
  }

  /** A like the database accepts adds a pointer to `favourites`, in step. */
  lemma LikeInStep(t: Tables, u: string, c: NormalLists, i: int)
    requires Consistent(t) && NormalInStep(t, u, c) && 0 <= i < |c.books|
    requires AddFavourite(t, u, c.books[i].bookId).Some?
    ensures NormalInStep(AddFavourite(t, u, c.books[i].bookId).value, u, LikeLists(c, i))
  {
    PicksAppend(c.books, c.favourites, t.favourites, u, i);
    PickAppend(c.books, c.favourites, i);
  }

  /** Returning a borrowed book: one copy more on the shared book and its pointer gone. */
  lemma UnborrowInStep(t: Tables, u: string, c: NormalLists, k: int)
    requires Consistent(t) && NormalInStep(t, u, c) && 0 <= k < |c.borrowed|
    ensures NormalInStep(Unborrow(t, u, c.books[c.borrowed[k]].bookId), u, UnborrowLists(c, k))
  {
    var i := c.borrowed[k];
    var id := c.books[i].bookId;
    var q := c.books[i].quantity + 1;
    assert t.books[id].quantity + 1 == q;
    RestockInStep(t, u, c, i, q);
    var tm := t.(books := t.books[id := t.books[id].(quantity := q)]);
    var cm := c.(books := c.books[i := c.books[i].(quantity := q)]);
    BorrowedEraseInStep(tm, u, cm, k);
    var r := Unborrow(t, u, id);
    assert Link(u, id) in t.borrows by {
      assert Picks(c.books, c.borrowed, t.borrows, u);
    }
    assert r.books == tm.books;
    assert r == tm.(borrows := tm.borrows - {Link(u, id)});
  }

  /** Unliking removes the pointer and the database row together. */
  lemma UnlikeInStep(t: Tables, u: string, c: NormalLists, k: int)
    requires Consistent(t) && NormalInStep(t, u, c) && 0 <= k < |c.favourites|
    ensures NormalInStep(RemoveFavourite(t, u, c.books[c.favourites[k]].bookId), u, UnlikeLists(c, k))
  {
    var id := c.books[c.favourites[k]].bookId;
    var r := RemoveFavourite(t, u, id);
    PicksErase(c.books, c.favourites, t.favourites, u, k);
    assert r.favourites == t.favourites - {Link(u, id)};
    PickErase(c.books, c.favourites, k);
    RemoveEntryKeepsMenu(c.favouritesMenu, Pick(c.books, c.favourites), BookLabel, k);
  }

  /** Rating a book: the shared book takes the stored new rating, in step. */
  lemma RateInStep(t: Tables, u: string, c: NormalLists, i: int, n: int)
    requires Consistent(t) && NormalInStep(t, u, c) && 0 <= i < |c.books|
    requires RateBook(t, c.books[i].bookId, n).Some?
    ensures var r := RateBook(t, c.books[i].bookId, n).value;
      NormalInStep(r, u, RateLists(c, i, r.books[c.books[i].bookId].rating))
  {
    var id := c.books[i].bookId;
    var r := RateBook(t, id, n).value;
    var books := c.books[i := c.books[i].(rating := r.books[id].rating)];
    ListedUpdate(c.books, t.books, i, r.books[id]);
    assert r.books == t.books[id := r.books[id]];
    assert SameEntries(c.books, books);
    NormalSameEntries(t, r, u, c, books);
  }

  class NormalView {
    const app: App
    const username: string
    var allBooks: seq<Book>
    var borrowed: seq<int>
    var favourites: seq<int>
    var bookMenu: seq<Entry>
    var borrowedMenu: seq<Entry>
    var favouritesMenu: seq<Entry>

    function Lists(): NormalLists
      reads this`allBooks, this`borrowed, this`favourites, this`bookMenu, this`borrowedMenu, this`favouritesMenu
    {
      NormalLists(allBooks, borrowed, favourites, bookMenu, borrowedMenu, favouritesMenu)
    }

    ghost predicate Valid()
      reads this`allBooks, this`borrowed, this`favourites, this`bookMenu, this`borrowedMenu, this`favouritesMenu
      reads app, app.db
    {
      app.Valid() && NormalInStep(app.db.Snapshot(), username, Lists())
    }

    /** The screen opens with all books, and pointers to the user's borrowed and liked ones. */
    constructor (app: App)
      requires app.Valid() && app.activeUser.Some?
      ensures Valid() && this.app == app && username == app.activeUser.value.username
    {
      var name := app.activeUser.value.username;
      var t := app.db.Snapshot();
      var books := app.db.GetAllBooks();
      var borrowedBooks := app.db.GetBorrowed(name);
      LinkedAreListed(t, books, borrowedBooks, t.borrows, name);
      var b := Resolve(books, borrowedBooks);
      ResolvedPicks(t, books, borrowedBooks, t.borrows, name, b);
      var favouriteBooks := app.db.GetFavourites(name);
      LinkedAreListed(t, books, favouriteBooks, t.favourites, name);
      var f := Resolve(books, favouriteBooks);
      ResolvedPicks(t, books, favouriteBooks, t.favourites, name, f);
      var bm := BuildMenu(books, BookLabel);
      var rm := BuildMenu(Pick(books, b), BookLabel);
      var fm := BuildMenu(Pick(books, f), BookLabel);
      this.app := app;
      username := name;
      allBooks, borrowed, favourites := books, b, f;
      bookMenu, borrowedMenu, favouritesMenu := bm, rm, fm;
    }

    /** borrow_button_action on the book selected in "All books" (tab 0) or in "Favourites".
        A refused insert (already borrowed, none left) changes nothing. */
    method BorrowAction(tab: int, allSelected: int, favouriteSelected: int) returns (ok: bool)
      requires Valid()
      requires tab == 0 ==> 0 <= allSelected < |allBooks|
      requires tab != 0 ==> 0 <= favouriteSelected < |favourites|
      modifies this`allBooks, this`borrowed, this`borrowedMenu, app.db
      ensures Valid()
      ensures var i := if tab == 0 then allSelected else old(favourites)[favouriteSelected];
        var id := old(allBooks)[i].bookId;
        && ok == Store.Borrow(old(app.db.Snapshot()), username, id).Some?
        && app.db.Snapshot() == Store.Borrow(old(app.db.Snapshot()), username, id).GetOr(old(app.db.Snapshot()))
        && Lists() == if ok then BorrowLists(old(Lists()), i) else old(Lists())
    {
      var i := if tab == 0 then allSelected else favourites[favouriteSelected];
      ghost var t := app.db.Snapshot();
      ok := app.db.Borrow(username, allBooks[i].bookId);
      if !ok {
        return;
      }
      var c := BorrowLists(Lists(), i);
      BorrowInStep(t, username, Lists(), i);
      allBooks, borrowed, borrowedMenu := c.books, c.borrowed, c.borrowedMenu;
    }

    /** like_button_action on the book selected in "All books" (tab 0) or in "Borrowed". */
    method LikeAction(tab: int, allSelected: int, borrowedSelected: int) returns (ok: bool)
      requires Valid()
      requires tab == 0 ==> 0 <= allSelected < |allBooks|
      requires tab != 0 ==> 0 <= borrowedSelected < |borrowed|
      modifies this`favourites, this`favouritesMenu, app.db
      ensures Valid()
      ensures var i := if tab == 0 then allSelected else old(borrowed)[borrowedSelected];
        var id := allBooks[i].bookId;
        && ok == Store.AddFavourite(old(app.db.Snapshot()), username, id).Some?
        && app.db.Snapshot() == Store.AddFavourite(old(app.db.Snapshot()), username, id).GetOr(old(app.db.Snapshot()))
        && Lists() == if ok then LikeLists(old(Lists()), i) else old(Lists())
    {
      var i := if tab == 0 then allSelected else borrowed[borrowedSelected];
      ghost var t := app.db.Snapshot();
      ok := app.db.AddFavourite(username, allBooks[i].bookId);
      if !ok {
        return;
      }
      LikeInStep(t, username, Lists(), i);
      favouritesMenu := favouritesMenu + [Entry(BookLabel(allBooks[i]), |favourites|)];
      favourites := favourites + [i];
    }

    /** unborrow_button_action: the selected borrowed book goes back. */
    method UnborrowAction(selected: int)
      requires Valid() && 0 <= selected < |borrowed|
      modifies this`allBooks, this`borrowed, this`borrowedMenu, app.db
      ensures Valid()
      ensures app.db.Snapshot()
              == Store.Unborrow(old(app.db.Snapshot()), username, old(allBooks)[old(borrowed)[selected]].bookId)
      ensures Lists() == UnborrowLists(old(Lists()), selected)
    {
      var c := UnborrowLists(Lists(), selected);
      var id := allBooks[borrowed[selected]].bookId;
      UnborrowInStep(app.db.Snapshot(), username, Lists(), selected);
      app.db.Unborrow(username, id);
      allBooks, borrowed, borrowedMenu := c.books, c.borrowed, c.borrowedMenu;
      assert Lists() == c;
    }

    /** unlike_button_action: the selected favourite goes. */
    method UnlikeAction(selected: int)
      requires Valid() && 0 <= selected < |favourites|
      modifies this`favourites, this`favouritesMenu, app.db
      ensures Valid()
      ensures app.db.Snapshot()
              == Store.RemoveFavourite(old(app.db.Snapshot()), username, allBooks[old(favourites)[selected]].bookId)
      ensures Lists() == UnlikeLists(old(Lists()), selected)
    {
      UnlikeInStep(app.db.Snapshot(), username, Lists(), selected);
      app.db.RemoveFavourite(username, allBooks[favourites[selected]].bookId);
      favourites := Erase(favourites, selected);
      favouritesMenu := RemoveEntry(favouritesMenu, selected);
    }

    /** A star button of the rate dialog: the selected borrowed book takes the new running
        average. `ok` is false when the database throws (no such book). */
    method RateAction(selected: int, n: int) returns (ok: bool)
      requires Valid() && 0 <= selected < |borrowed| && 1 <= n <= 5
      modifies this`allBooks, app.db
      ensures Valid()
      ensures var i := old(borrowed)[selected];
        var id := old(allBooks)[i].bookId;
        var r := Store.RateBook(old(app.db.Snapshot()), id, n);
        && ok == r.Some?
        && app.db.Snapshot() == r.GetOr(old(app.db.Snapshot()))
        && Lists() == if ok then RateLists(old(Lists()), i, r.value.books[id].rating) else old(Lists())
    {
      var i := borrowed[selected];
      ghost var t := app.db.Snapshot();
      var rating := app.db.RateBook(allBooks[i].bookId, n);
      if rating.None? {
        return false;
      }
      ok := true;
      RateInStep(t, username, Lists(), i, n);
      allBooks := allBooks[i := allBooks[i].(rating := rating.value)];
    }
  }
}
