/**
 * The application layer of src/App.cpp without its widgets: the checks the login, sign-up
 * and add-book forms run, the search filter, role routing, and the session state the App
 * object keeps (`active_user` and the session file).
 */
module App {
  import opened Records
  import opened Store
  import opened Librarydb

  // ---------------------------------------------------------------------------------------
  // Sign-up check (src/App.cpp:203-221)
  // ---------------------------------------------------------------------------------------

  const UsernameTooShort: string := "Username is too short!"
  const UsernameTaken: string := "Username is taken!"
  const PasswordTooShort: string := "Password is too short!"
  const EmailUsedBefore: string := "Email is used before!"

  /** The bytes of the UTF-8 encoding of one character. */
  function Utf8Width(c: char): nat {
    if c as int < 0x80 then 1
    else if c as int < 0x800 then 2
    else if c as int < 0x1_0000 then 3
    else 4
  }

  /** std::string::size() of a text held as UTF-8: the number of bytes, which is the number
      of characters exactly when every character is ASCII. */
  function ByteSize(s: string): (n: nat)
    ensures |s| <= n <= 4 * |s|
    ensures n == |s| <==> forall i :: 0 <= i < |s| ==> s[i] as int < 0x80
  {
    if s == [] then 0 else Utf8Width(s[0]) + ByteSize(s[1..])
  }

  /** The message the form shows (None: no message) and the value of signup_ok. */
  datatype SignupStatus = SignupStatus(error: Option<string>, ok: bool)

  /** The sign-up check. `taken` and `used` are the answers of usernameExists and emailIsUsed;
      each field is judged only when it is not empty, lengths are counted in bytes, and the
      first failing check names the message. */
  function SignupCheck(username: string, password: string, email: string, taken: bool, used: bool): (r: SignupStatus)
    ensures r.ok <==> ByteSize(username) >= 4 && !taken && ByteSize(password) >= 4 && email != "" && !used
    ensures r.error == Some(UsernameTooShort) <==> 0 < ByteSize(username) < 4
    ensures r.error == Some(UsernameTaken) <==> ByteSize(username) >= 4 && taken
    ensures r.error == Some(PasswordTooShort) <==>
      (username == "" || (ByteSize(username) >= 4 && !taken)) && 0 < ByteSize(password) < 4
    ensures r.error == Some(EmailUsedBefore) <==>
      (username == "" || (ByteSize(username) >= 4 && !taken)) && !(0 < ByteSize(password) < 4) && email != "" && used
    ensures r.error.None? <==>
      (username == "" || (ByteSize(username) >= 4 && !taken)) && !(0 < ByteSize(password) < 4) && (email == "" || !used)
  {
    var error :=
      if username != "" && ByteSize(username) < 4 then Some(UsernameTooShort)
      else if username != "" && taken then Some(UsernameTaken)
      else if password != "" && ByteSize(password) < 4 then Some(PasswordTooShort)
      else if email != "" && used then Some(EmailUsedBefore)
      else None;
    SignupStatus(error, !(error.Some? || username == "" || password == "" || email == ""))
  }

  // ---------------------------------------------------------------------------------------
  // Add-book checks (src/App.cpp:390-427, 448-463)
  // ---------------------------------------------------------------------------------------

  const InvalidQuantity: string := "Invalid quantity input"
  const InvalidYear: string := "Invalid publication year"
  const InvalidEdition: string := "Invalid edition number"
  const TitleRequired: string := "Title is required"
  const AuthorRequired: string := "Author name is required"
  const QuantityRequired: string := "Quantity is required"

  /** std::isdigit in the C locale. */
  predicate IsDigit(c: char) {
    '0' <= c <= '9'
  }

  /** std::ranges::all_of(s, isdigit); true of the empty string. */
  predicate AllDigits(s: string) {
    forall i :: 0 <= i < |s| ==> IsDigit(s[i])
  }

  /** The add-book alert: the first of quantity, year and edition that is neither empty nor
      all digits names the message; None means add_book_ok. */
  function AddBookCheck(quantity: string, pubYear: string, edition: string): (r: Option<string>)
    ensures r.None? <==> AllDigits(quantity) && AllDigits(pubYear) && AllDigits(edition)
    ensures r == Some(InvalidQuantity) <==> !AllDigits(quantity)
    ensures r == Some(InvalidYear) <==> AllDigits(quantity) && !AllDigits(pubYear)
    ensures r == Some(InvalidEdition) <==> AllDigits(quantity) && AllDigits(pubYear) && !AllDigits(edition)
  {
    if quantity != "" && !AllDigits(quantity) then Some(InvalidQuantity)
    else if pubYear != "" && !AllDigits(pubYear) then Some(InvalidYear)
    else if edition != "" && !AllDigits(edition) then Some(InvalidEdition)
    else None
  }

  /** The required-field check of add_book_action: title, then author, then quantity. */
  function MissingField(title: string, author: string, quantity: string): (r: Option<string>)
    ensures r.None? <==> title != "" && author != "" && quantity != ""
    ensures r == Some(TitleRequired) <==> title == ""
    ensures r == Some(AuthorRequired) <==> title != "" && author == ""
    ensures r == Some(QuantityRequired) <==> title != "" && author != "" && quantity == ""
  {
    if title == "" then Some(TitleRequired)
    else if author == "" then Some(AuthorRequired)
    else if quantity == "" then Some(QuantityRequired)
    else None
  }

  function Pow10(k: nat): (p: nat)
    ensures p >= 1
  {
    if k == 0 then 1 else 10 * Pow10(k - 1)
  }

  /** The value of a decimal digit string; k digits stay below 10^k. */
  function DecimalValue(s: string): (n: nat)
    requires AllDigits(s)
    ensures s == "" ==> n == 0
    ensures |s| == 1 ==> n == s[0] as int - '0' as int
    ensures n < Pow10(|s|)
  {
    if s == [] then 0
    else DecimalValue(s[..|s| - 1]) * 10 + (s[|s| - 1] as int - '0' as int)
  }

  /** A leading zero does not change the value ("007" is 7). */
  lemma {:induction false} LeadingZero(s: string)
    requires AllDigits(s)
    ensures AllDigits("0" + s) && DecimalValue("0" + s) == DecimalValue(s)
    decreases |s|
  {
    var z := "0" + s;
    assert forall i :: 0 <= i < |z| ==> IsDigit(z[i]) by {
      forall i | 0 <= i < |z| ensures IsDigit(z[i]) {
        if i > 0 {
          assert z[i] == s[i - 1];
        }
      }
    }
    if s != [] {
      var p := s[..|s| - 1];
      assert z[..|z| - 1] == "0" + p;
      assert AllDigits(p) by {
        forall i | 0 <= i < |p| ensures IsDigit(p[i]) {
          assert p[i] == s[i];
        }
      }
      LeadingZero(p);
    }
  }

  /** std::stoi on a non-empty digit string: None when the value does not fit an int, where
      stoi throws std::out_of_range. */
  function Stoi(s: string): (r: Option<int>)
    requires AllDigits(s) && s != ""
    ensures r.Some? <==> DecimalValue(s) <= IntMax
    ensures r.Some? ==> 0 <= r.value <= IntMax && r.value == DecimalValue(s)
  {
    var n := DecimalValue(s);
    if n <= IntMax then Some(n) else None
  }

  /** A number of at most nine digits always fits an int, so stoi does not throw. */
  lemma NineDigitsFit(s: string)
    requires AllDigits(s) && s != "" && |s| <= 9
    ensures Stoi(s).Some?
  {
    Pow10Grows(|s|, 9);
  }

  lemma {:induction false} Pow10Grows(a: nat, b: nat)
    requires a <= b
    ensures Pow10(a) <= Pow10(b)
    decreases b
  {
    if a < b {
      Pow10Grows(a, b - 1);
    }
  }

  /** An optional numeric field: empty becomes -1, otherwise stoi. */
  function OptionalNumber(s: string): (r: Option<int>)
    requires AllDigits(s)
    ensures s == "" ==> r == Some(-1)
    ensures r.Some? ==> -1 <= r.value <= IntMax
    ensures s != "" ==> r == Stoi(s)
  {
    if s == "" then Some(-1) else Stoi(s)
  }

  /** The book add_book_action builds from the form, or None when a stoi throws. The form's
      description is never copied into the book, and `id` is the hashed clock value. */
  function NewBook(id: int, title: string, author: string, quantity: string, publisher: string,
                   pubYear: string, edition: string): (r: Option<Book>)
    requires AllDigits(quantity) && AllDigits(pubYear) && AllDigits(edition) && quantity != ""
    ensures r.Some? <==> Stoi(quantity).Some? && OptionalNumber(pubYear).Some? && OptionalNumber(edition).Some?
    ensures r.Some? ==> var b := r.value;
      && b.bookId == id && b.title == title && b.author == author && b.publisher == publisher
      && b.quantity >= 0 && b.pubYear >= -1 && b.edition >= -1
      && b.description == "" && b.rating == 0.0
  {
    var q := Stoi(quantity);
    var y := OptionalNumber(pubYear);
    var e := OptionalNumber(edition);
    if q.None? || y.None? || e.None? then None
    else Some(Book(id, title, author, q.value, publisher, y.value, "", e.value, 0.0))
  }

  /** A book built by the form is stored and read back unchanged. */
  lemma NewBookRoundTrip(id: int, title: string, author: string, quantity: string, publisher: string,
                         pubYear: string, edition: string)
    requires AllDigits(quantity) && AllDigits(pubYear) && AllDigits(edition) && quantity != ""
    requires NewBook(id, title, author, quantity, publisher, pubYear, edition).Some?
    ensures var b := NewBook(id, title, author, quantity, publisher, pubYear, edition).value;
      ExtractBookInfo(b.bookId, BindColumns(b, 0.0, 0)) == b
  {
    var b := NewBook(id, title, author, quantity, publisher, pubYear, edition).value;
    ColumnRoundTrip(b);
  }

  // ---------------------------------------------------------------------------------------
  // Search (src/App.cpp:1022-1030): regex_match of the whole text against
  // ".*" + s + ".*" with regex icase
  // ---------------------------------------------------------------------------------------

  /** The case folding regex icase applies (ASCII letters). */
  function Lower(c: char): char {
    if 'A' <= c <= 'Z' then (c as int + 32) as char else c
  }

  /** The text with every letter lowered. */
  function LowerCase(s: string): (r: string)
    ensures |r| == |s| && forall i :: 0 <= i < |s| ==> r[i] == Lower(s[i])
  {
    seq(|s|, i requires 0 <= i < |s| => Lower(s[i]))
  }

  /** `pat` occurs in `text` starting at position i. */
  predicate OccursAt(text: string, pat: string, i: int) {
    0 <= i && i + |pat| <= |text| && text[i..i + |pat|] == pat
  }

  /** The line terminators that ECMAScript's `.` does not match in a regex over char. */
  predicate LineBreak(c: char) {
    c == '\n' || c == '\r'
  }

  /** `.*` matches the whole of s. */
  predicate OneLine(s: string) {
    forall i :: 0 <= i < |s| ==> !LineBreak(s[i])
  }

  /** The text matches ".*" + pat + ".*" split at position i: the first `.*` takes the
      prefix, pat matches the next |pat| characters ignoring case, the last `.*` takes the
      rest. */
  predicate MatchAt(text: string, pat: string, i: int) {
    OccursAt(LowerCase(text), LowerCase(pat), i) && OneLine(text[..i]) && OneLine(text[i + |pat|..])
  }

  /** The scan for a split from position i on; `.*` has matched text[..i]. Once a line
      break is passed no later split can match. */
  function MatchFrom(text: string, pat: string, i: int): (r: bool)
    requires 0 <= i <= |text| && OneLine(text[..i])
    ensures r <==> exists j :: i <= j && MatchAt(text, pat, j)
    decreases |text| - i
  {
    if MatchAt(text, pat, i) then true
    else if i == |text| || LineBreak(text[i]) then
      assert forall j :: i < j ==> !MatchAt(text, pat, j) by {
        forall j | i < j
          ensures !MatchAt(text, pat, j)
        {
          if j <= |text| {
            assert text[..j][i] == text[i];
          }
        }
      }
      false
    else
      assert OneLine(text[..i + 1]) by {
        assert text[..i + 1] == text[..i] + [text[i]];
      }
      var r := MatchFrom(text, pat, i + 1);
      assert (exists j :: i <= j && MatchAt(text, pat, j)) ==> r by {
        if exists j :: i <= j && MatchAt(text, pat, j) {
          var j :| i <= j && MatchAt(text, pat, j);
          assert i + 1 <= j;
        }
      }
      r
  }

  /** regex_match(text, std::regex(".*" + pat + ".*", icase)): some split matches. */
  function RegexMatch(text: string, pat: string): (r: bool)
    ensures r <==> exists i :: MatchAt(text, pat, i)
  {
    assert OneLine(text[..0]);
    MatchFrom(text, pat, 0)
  }

  /** isSearchResult for a book: the title or the author matches. */
  predicate BookMatches(b: Book, search: string)
    ensures BookMatches(b, search) <==> (exists i :: MatchAt(b.title, search, i)) || (exists i :: MatchAt(b.author, search, i))
  {
    RegexMatch(b.title, search) || RegexMatch(b.author, search)
  }

  /** isSearchResult for a user: the username or the email matches. */
  predicate UserMatches(u: User, search: string)
    ensures UserMatches(u, search) <==> (exists i :: MatchAt(u.username, search, i)) || (exists i :: MatchAt(u.email, search, i))
  {
    RegexMatch(u.username, search) || RegexMatch(u.email, search)
  }

  /** A menu entry is shown when the search string is empty or the entry matches it. */
  predicate BookShown(b: Book, search: string) {
    search == "" || BookMatches(b, search)
  }

  predicate UserShown(u: User, search: string) {
    search == "" || UserMatches(u, search)
  }

  /** The empty search string matches exactly the texts without a line break. */
  lemma EmptySearchMatchesOneLine(text: string)
    ensures RegexMatch(text, "") <==> OneLine(text)
  {
    if OneLine(text) {
      assert text[..0] == [] && text[0..] == text;
      assert MatchAt(text, "", 0);
    }
  }

  /** The `empty() ||` guard of the menus: a non-empty search shows exactly the matching
      entries; the empty one shows every entry, where matching alone would hide an entry
      whose two texts both hold a line break. */
  lemma ShownIffMatches(b: Book, u: User, search: string)
    ensures search != "" ==> (BookShown(b, search) <==> BookMatches(b, search))
    ensures search != "" ==> (UserShown(u, search) <==> UserMatches(u, search))
    ensures BookShown(b, "") && UserShown(u, "")
    ensures BookMatches(b, "") <==> OneLine(b.title) || OneLine(b.author)
    ensures UserMatches(u, "") <==> OneLine(u.username) || OneLine(u.email)
  {
    EmptySearchMatchesOneLine(b.title);
    EmptySearchMatchesOneLine(b.author);
    EmptySearchMatchesOneLine(u.username);
    EmptySearchMatchesOneLine(u.email);
  }

  /** Lowering letters keeps line breaks where they are. */
  lemma OneLineLower(t: string)
    ensures OneLine(LowerCase(t)) <==> OneLine(t)
  {
    forall k | 0 <= k < |t|
      ensures LineBreak(LowerCase(t)[k]) <==> LineBreak(t[k])
    {
      assert LowerCase(t)[k] == Lower(t[k]);
    }
  }

  /** Lowering commutes with taking a slice. */
  lemma LowerSlice(s: string, i: int, j: int)
    requires 0 <= i <= j <= |s|
    ensures LowerCase(s)[i..j] == LowerCase(s[i..j])
  {
  }

  lemma LowerIdempotent(s: string)
    ensures LowerCase(LowerCase(s)) == LowerCase(s)
  {
  }

  /** One split matches the lowered text exactly when it matches the text. */
  lemma MatchAtLower(text: string, pat: string, i: int)
    ensures MatchAt(LowerCase(text), pat, i) <==> MatchAt(text, pat, i)
  {
    LowerIdempotent(text);
    if 0 <= i && i + |pat| <= |text| {
      LowerSlice(text, 0, i);
      LowerSlice(text, i + |pat|, |text|);
      OneLineLower(text[0..i]);
      OneLineLower(text[i + |pat|..|text|]);
      assert text[..i] == text[0..i];
      assert text[i + |pat|..] == text[i + |pat|..|text|];
      assert LowerCase(text)[..i] == LowerCase(text)[0..i];
      assert LowerCase(text)[i + |pat|..] == LowerCase(text)[i + |pat|..|text|];
    }
  }

  /** Matching ignores case on both sides: lowering the letters of the text or of the search
      string changes no answer. */
  lemma MatchIgnoresCase(text: string, pat: string)
    ensures RegexMatch(LowerCase(text), pat) <==> RegexMatch(text, pat)
    ensures RegexMatch(text, LowerCase(pat)) <==> RegexMatch(text, pat)
  {
    forall i ensures MatchAt(LowerCase(text), pat, i) <==> MatchAt(text, pat, i) {
      MatchAtLower(text, pat, i);
    }
    LowerIdempotent(pat);
    forall i ensures MatchAt(text, LowerCase(pat), i) <==> MatchAt(text, pat, i) {
    }
  }

  // ---------------------------------------------------------------------------------------
  // Routing (src/App.cpp:959-966)
  // ---------------------------------------------------------------------------------------

  datatype Screen = LoginScreen | NormalHome | AdminHome

  /** home(): NORMAL users get the normal home, every other user the admin home. */
  function HomeFor(u: User): (s: Screen)
    ensures s == NormalHome <==> u.kind == Normal
    ensures s != LoginScreen
  {
    if u.kind == Normal then NormalHome else AdminHome
  }

  /** The shortest password the account screen accepts (src/App.cpp:1052, 1070). */
  const MinPassword: nat := 4

  // ---------------------------------------------------------------------------------------
  // The App object: active user and session (src/App.cpp:146-198)
  // ---------------------------------------------------------------------------------------

  class App {
    const db: Librarydb
    /** std::hash<std::string>: the session token of a username. */
    const hash: string -> int
    const newSession: bool
    /** session_file: where the token is kept between runs. */
    const sessionPath: string
    /** The token held by session.txt; None when the file is empty or missing. */
    var sessionFile: Option<int>
    var activeUser: Option<User>

    ghost predicate Valid()
      reads this, db
    {
      db.Valid()
    }

    constructor (db: Librarydb, hash: string -> int, newSession: bool, sessionPath: string, sessionFile: Option<int>)
      requires db.Valid()
      ensures Valid()
      ensures this.db == db && this.hash == hash && this.newSession == newSession
      ensures this.sessionPath == sessionPath && this.sessionFile == sessionFile && activeUser == None
    {
      this.db := db;
      this.hash := hash;
      this.newSession := newSession;
      this.sessionPath := sessionPath;
      this.sessionFile := sessionFile;
      activeUser := None;
    }

    /** readSession: `>>` into a size_t stores 0 when the file holds no number. */
    function StoredToken(): (token: int)
      reads this
      ensures sessionFile.Some? ==> token == sessionFile.value
      ensures sessionFile.None? ==> token == 0
    {
      sessionFile.GetOr(0)
    }

    /** saveSession: with no active user it throws (ok is false, nothing changes); otherwise
        the token hash(username) goes to the session file and then to the database, whose
        insert can still fail (ok false, the file already written). */
    method SaveSession() returns (ok: bool)
      requires Valid()
      modifies this`sessionFile, db
      ensures Valid() && activeUser == old(activeUser)
      ensures old(activeUser).None? ==> !ok && sessionFile == old(sessionFile) && db.Snapshot() == old(db.Snapshot())
      ensures old(activeUser).Some? ==>
        var name := activeUser.value.username;
        && sessionFile == Some(hash(name))
        && ok == Store.NewSession(old(db.Snapshot()), name, hash(name)).Some?
        && db.Snapshot()
           == Store.NewSession(old(db.Snapshot()), name, hash(name)).GetOr(Store.ClearSession(old(db.Snapshot()), name))
    {
      if activeUser.None? {
        return false;
      }
      var token := hash(activeUser.value.username);
      sessionFile := Some(token);
      ok := db.NewSession(activeUser.value.username, token);
    }

    /** attemptRestore: the user whose session row holds the file's token becomes active;
        without such a row nothing changes. */
    method AttemptRestore()
      requires Valid()
      modifies this`activeUser
      ensures Valid()
      ensures (exists u :: u in db.sessions && db.sessions[u] == StoredToken()) ==>
        activeUser.Some? && activeUser.value.username in db.sessions
        && db.sessions[activeUser.value.username] == StoredToken()
        && activeUser.value == ExtractUserInfo(activeUser.value.username, db.users[activeUser.value.username])
      ensures !(exists u :: u in db.sessions && db.sessions[u] == StoredToken()) ==> activeUser == old(activeUser)
    {
      var usr := db.RestoreSession(StoredToken());
      if usr.Some? {
        activeUser := usr;
      }
    }

    /** clearSession: truncates the session file and deletes the active user's session row. */
    method ClearSession()
      requires Valid() && activeUser.Some?
      modifies this`sessionFile, db
      ensures Valid() && sessionFile == None
      ensures db.Snapshot() == Store.ClearSession(old(db.Snapshot()), activeUser.value.username)
    {
      sessionFile := None;
      db.ClearSession(activeUser.value.username);
    }

    /** home(): the screen the active user is sent to. */
    method Home() returns (s: Screen)
      requires activeUser.Some?
      ensures s == HomeFor(activeUser.value)
    {
      if activeUser.value.kind == Normal {
        s := NormalHome;
      } else {
        s := AdminHome;
      }
    }

    /** The start of login(): with -n the session file is truncated and the login screen
        shown; otherwise a stored session is tried and, on success, its user's home shown. */
    method Start() returns (s: Screen)
      requires Valid()
      modifies this`sessionFile, this`activeUser
      ensures Valid()
      ensures newSession ==> sessionFile == None && activeUser == old(activeUser) && s == LoginScreen
      ensures !newSession ==> sessionFile == old(sessionFile)
      ensures !newSession && (exists u :: u in db.sessions && db.sessions[u] == StoredToken()) ==>
        activeUser.Some? && activeUser.value.username in db.sessions
        && db.sessions[activeUser.value.username] == StoredToken()
        && activeUser.value == ExtractUserInfo(activeUser.value.username, db.users[activeUser.value.username])
      ensures !newSession && !(exists u :: u in db.sessions && db.sessions[u] == StoredToken()) ==>
        activeUser == old(activeUser)
      ensures !newSession && activeUser.Some? ==> s == HomeFor(activeUser.value)
      ensures !newSession && activeUser.None? ==> s == LoginScreen
    {
      if newSession {
        sessionFile := None;
        return LoginScreen;
      }
      AttemptRestore();
      if activeUser.Some? {
        s := Home();
      } else {
        s := LoginScreen;
      }
    }

    /** The Logout button of both home screens. */
    method Logout()
      requires Valid() && activeUser.Some?
      modifies this, db
      ensures Valid() && activeUser == None && sessionFile == None
      ensures db.Snapshot() == Store.ClearSession(old(db.Snapshot()), old(activeUser).value.username)
    {
      ClearSession();
      activeUser := None;
    }

    /** The "Change password" button: a password shorter than four bytes is ignored;
        otherwise it is stored and the input cleared. Returns the input's new contents. */
    method ChangePasswordAction(newPassword: string) returns (input: string)
      requires Valid() && activeUser.Some?
      modifies db
      ensures Valid()
      ensures ByteSize(newPassword) < MinPassword ==> input == newPassword && db.Snapshot() == old(db.Snapshot())
      ensures ByteSize(newPassword) >= MinPassword ==>
        input == "" && db.Snapshot() == Store.ChangePassword(old(db.Snapshot()), activeUser.value.username, newPassword)
    {
      if ByteSize(newPassword) < MinPassword {
        return newPassword;
      }
      db.ChangePassword(activeUser.value.username, newPassword);
      input := "";
    }

    /** The "Yes" button under "Delete Account", which the account screen offers to every
        user but root: removes the user (with every row of theirs), clears the session and
        logs out. */
    method DeleteAccount()
      requires Valid() && activeUser.Some? && activeUser.value.username != RootName
      modifies this, db
      ensures Valid() && activeUser == None && sessionFile == None
      ensures var name := old(activeUser).value.username;
        db.Snapshot() == Store.ClearSession(Store.RemoveUser(old(db.Snapshot()), name), name)
      ensures old(activeUser).value.username !in db.users
    {
      db.RemoveUser(activeUser.value.username);
      ClearSession();
      activeUser := None;
    }
  }

  // ---------------------------------------------------------------------------------------
  // The login screen's state (src/App.cpp:199-264)
  // ---------------------------------------------------------------------------------------

  class LoginScreen {
    const app: App
    var loginUsername: string
    var loginPassword: string
    var signupUsername: string
    var signupPassword: string
    var email: string
    var signupErrorMessage: string
    var signupOk: bool
    /** login_signup_selected: 0 shows the login tab, 1 the sign-up tab. */
    var selectedTab: int

    ghost predicate Valid()
      reads this, app, app.db
    {
      app.Valid()
    }

    constructor (app: App)
      requires app.Valid()
      ensures Valid() && this.app == app
      ensures loginUsername == loginPassword == signupUsername == signupPassword == email == ""
      ensures !signupOk && selectedTab == 0
    {
      this.app := app;
      loginUsername, loginPassword, signupUsername, signupPassword, email := "", "", "", "", "";
      signupErrorMessage := "";
      signupOk := false;
      selectedTab := 0;
    }

    /** The sign-up status check, run whenever the form is drawn. The message keeps its old
        text when there is no error; the result says whether it is shown. */
    method CheckSignup() returns (showError: bool)
      requires Valid()
      modifies this`signupErrorMessage, this`signupOk
      ensures var r := SignupCheck(signupUsername, signupPassword, email,
                                   signupUsername in app.db.users, EmailUsed(app.db.Snapshot(), email));
        && showError == r.error.Some?
        && signupOk == r.ok
        && signupErrorMessage == r.error.GetOr(old(signupErrorMessage))
    {
      showError := true;
      var taken := false;
      if signupUsername != "" {
        taken := app.db.UsernameExists(signupUsername);
      }
      var used := false;
      if email != "" {
        used := app.db.EmailIsUsed(email);
      }
      if signupUsername != "" && ByteSize(signupUsername) < 4 {
        signupErrorMessage := UsernameTooShort;
      } else if signupUsername != "" && taken {
        signupErrorMessage := UsernameTaken;
      } else if signupPassword != "" && ByteSize(signupPassword) < 4 {
        signupErrorMessage := PasswordTooShort;
      } else if email != "" && used {
        signupErrorMessage := EmailUsedBefore;
      } else {
        showError := false;
      }
      signupOk := !(showError || signupUsername == "" || signupPassword == "" || email == "");
    }

    /** signup_action. The status check runs on the draw before the click, so it is run
        first. Without signup_ok nothing happens; otherwise the user signs up. */
    method SignupAction() returns (ok: bool, s: Screen)
      requires Valid()
      modifies this`signupErrorMessage, this`signupOk, this`signupUsername, this`signupPassword, this`email, this`selectedTab
      modifies app`activeUser, app`sessionFile, app.db
      ensures Valid()
      ensures loginUsername == old(loginUsername) && loginPassword == old(loginPassword)
      ensures var r := SignupCheck(old(signupUsername), old(signupPassword), old(email),
                                   old(signupUsername) in old(app.db.users), EmailUsed(old(app.db.Snapshot()), old(email)));
        && (!r.ok ==> ok && s == LoginScreen && app.activeUser == old(app.activeUser)
                      && app.sessionFile == old(app.sessionFile)
                      && app.db.Snapshot() == old(app.db.Snapshot())
                      && signupUsername == old(signupUsername) && signupPassword == old(signupPassword)
                      && email == old(email) && selectedTab == old(selectedTab)
                      && !signupOk && signupErrorMessage == r.error.GetOr(old(signupErrorMessage)))
        && (r.ok ==>
              var user := User(old(email), old(signupUsername), Normal);
              && app.activeUser == Some(user)
              && signupUsername == "" && signupPassword == "" && email == "" && !signupOk && selectedTab == 0
              && app.sessionFile == Some(app.hash(user.username))
              && (ok ==> s == NormalHome)
              && var added := Store.AddUser(old(app.db.Snapshot()), user, old(signupPassword)).value;
                 var name := user.username;
                 && ok == Store.NewSession(added, name, app.hash(name)).Some?
                 && app.db.Snapshot() == Store.NewSession(added, name, app.hash(name)).GetOr(Store.ClearSession(added, name)))
    {
      var show := CheckSignup();
      if !signupOk {
        return true, LoginScreen;
      }
      ok, s := SignUp();
    }

    /** The body of signup_action past its guard: a NORMAL user is added, the three fields
        are cleared, the user becomes active and a session is saved. The new user can log
        in with the password. `ok` is false when an exception escapes (the session insert
        failed). */
    method SignUp() returns (ok: bool, s: Screen)
      requires Valid()
      requires signupUsername !in app.db.users && !EmailUsed(app.db.Snapshot(), email)
      modifies this`signupOk, this`signupUsername, this`signupPassword, this`email, this`selectedTab
      modifies app`activeUser, app`sessionFile, app.db
      ensures Valid()
      ensures loginUsername == old(loginUsername) && loginPassword == old(loginPassword)
      ensures var user := User(old(email), old(signupUsername), Normal);
        && app.activeUser == Some(user)
        && signupUsername == "" && signupPassword == "" && email == "" && !signupOk && selectedTab == 0
        && user.username in app.db.users
        && app.db.users[user.username].password == old(signupPassword)
        && ExtractUserInfo(user.username, app.db.users[user.username]) == user
        && app.sessionFile == Some(app.hash(user.username))
        && (ok ==> s == NormalHome && user.username in app.db.sessions && app.db.sessions[user.username] == app.hash(user.username))
        && var added := Store.AddUser(old(app.db.Snapshot()), user, old(signupPassword)).value;
           var name := user.username;
           && ok == Store.NewSession(added, name, app.hash(name)).Some?
           && app.db.Snapshot() == Store.NewSession(added, name, app.hash(name)).GetOr(Store.ClearSession(added, name))
    {
      ghost var t := app.db.Snapshot();
      var user := User(email, signupUsername, Normal);
      var added := app.db.AddUser(user, signupPassword);
      assert added;
      SignupCanAuthenticate(t, user, signupPassword);
      ghost var afterAdd := app.db.Snapshot();
      ClearSignupForm();
      app.activeUser := Some(user);
      ok := app.SaveSession();
      assert app.db.users == afterAdd.users;
      s := if ok then HomeFor(user) else LoginScreen;
    }

    /** After a sign-up the form is cleared and the Login tab selected. */
    method ClearSignupForm()
      modifies this`signupOk, this`signupUsername, this`signupPassword, this`email, this`selectedTab
      ensures signupUsername == "" && signupPassword == "" && email == "" && !signupOk && selectedTab == 0
    {
      signupOk := false;
      signupPassword := "";
      signupUsername := "";
      email := "";
      selectedTab := 0;
    }

    /** login_action: on matching credentials both fields are cleared, the stored user becomes
        active and a session is saved; otherwise only the password is cleared. */
    method LoginAction() returns (ok: bool, s: Screen)
      requires Valid()
      modifies this`loginUsername, this`loginPassword, app`activeUser, app`sessionFile, app.db
      ensures Valid()
      ensures signupUsername == old(signupUsername) && signupPassword == old(signupPassword) && email == old(email)
      ensures selectedTab == old(selectedTab) && signupOk == old(signupOk) && signupErrorMessage == old(signupErrorMessage)
      ensures var name := old(loginUsername);
        var matched := name in old(app.db.users) && old(app.db.users)[name].password == old(loginPassword);
        && loginPassword == ""
        && (!matched ==> ok && s == LoginScreen && app.activeUser == old(app.activeUser)
                         && app.sessionFile == old(app.sessionFile)
                         && loginUsername == old(loginUsername) && app.db.Snapshot() == old(app.db.Snapshot()))
        && (matched ==> loginUsername == ""
                        && app.activeUser == Some(ExtractUserInfo(name, old(app.db.users)[name]))
                        && app.sessionFile == Some(app.hash(name))
                        && ok == Store.NewSession(old(app.db.Snapshot()), name, app.hash(name)).Some?
                        && app.db.Snapshot()
                           == Store.NewSession(old(app.db.Snapshot()), name, app.hash(name)).GetOr(Store.ClearSession(old(app.db.Snapshot()), name))
                        && (ok ==> s == HomeFor(app.activeUser.value)))
    {
      var usr := app.db.Authenticate(loginUsername, loginPassword);
      if usr.None? {
        loginPassword := "";
        return true, LoginScreen;
      }
      loginPassword := "";
      loginUsername := "";
      app.activeUser := usr;
      ok := app.SaveSession();
      s := if ok then HomeFor(usr.value) else LoginScreen;
    }
  }
}
