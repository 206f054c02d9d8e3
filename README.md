# library-system, modelled in Dafny

library-system is a terminal library manager. Users sign up and log in. Normal users
browse the catalogue, borrow and return books, like books and rate them. Administrators
add and remove books, remove users, and grant or revoke admin rights. Everything lives
in an SQLite database. A login is remembered between runs by a token kept in a session
file.

The model covers the three core files:

- `Records.dfy`: the `User` and `Book` records the program passes around.
- `Store.dfy` models the database schema of `src/Librarydb.cpp`.
  - The five tables (users, books, favourites, borrows, sessions) are one value, `Tables`.
  - The schema's CHECK, UNIQUE and foreign-key constraints are `Consistent`.
  - Every SQL statement the store issues is a function on `Tables`. It builds the
    candidate state, including what the triggers and the ON DELETE CASCADE actions do.
    It keeps that state only if the constraints hold; otherwise the statement rolls back.
  - The properties proved include:
    - copies are conserved: shelf plus borrowed, per book;
    - borrow/return and like/unlike restore the tables;
    - a new user can authenticate;
    - a deleted user's session token restores nobody;
    - the rating formula is the running mean.
- `Librarydb.dfy` models the `Librarydb` class over those tables.
  - Each mutator is proved to change exactly what its statement changes and to keep the
    constraints.
  - Each reader is a loop over the rows, proved to list every selected row once.
- `App.dfy` models the non-widget part of `src/App.cpp`:
  - the sign-up and add-book form checks;
  - the `std::stoi` conversions;
  - the case-insensitive search;
  - role routing;
  - the `App` object's active user and session file, and the login screen.
- `Homes.dfy` models the two home screens of `src/App.cpp`.
  - Their working copies of the database lists, the menus drawn from them, and their
    buttons.
  - The normal home's `borrowed` and `favourites` lists hold pointers into `all_books`.
    They are modelled as positions in it, so a quantity or rating change through a
    pointer is seen by every list.
  - Each button is proved to keep the working copies and menus in step with the tables.
- `Cli.dfy` models `src/main.cpp`:
  - the argument loop, with a reference definition of the well-formed command lines;
  - the default database and session file paths;
  - building the database and the `App`.

## Model

| member | source | states |
|---|---|---|
| Store.Consistent | src/Librarydb.cpp:34-99 | The schema's constraints: the type CHECK, email UNIQUE, quantity >= 0, the foreign keys of favourites, borrows and sessions, and session UNIQUE |
| Store.Commit | src/Librarydb.cpp:28-131 | Statement rollback: the candidate state is kept exactly when it satisfies every constraint |
| Store.Seeded | src/Librarydb.cpp:28-131 | A freshly created database satisfies every constraint; its only user is root, an Admin; every other table is empty |
| Store.ExtractUserInfo | src/Librarydb.cpp:226-236 | The user keeps the row's username and email; it is NORMAL exactly when the type column reads "Regular" |
| Store.BindColumns | src/Librarydb.cpp:266-274 | Each optional column is NULL exactly when the field is empty (publisher, description) or negative (year, edition) |
| Store.ExtractBookInfo | src/Librarydb.cpp:389-406 | Id, quantity and rating are read as stored; a NULL year or edition reads back as -1 |
| Store.ColumnRoundTrip | src/Librarydb.cpp:257-276 | A book written by addBook reads back unchanged if and only if its year and edition are at least -1 and its rating is 0 |
| Store.RowRoundTrip | src/Librarydb.cpp:446-463 | A stored row read into a Book and written back by updateBook's bindings is the same row |
| Store.DecreaseBookNumber | src/Librarydb.cpp:100-107 | decrease_book_number: the borrowed book has one copy fewer on the shelf; no other book or column changes |
| Store.IncreaseBookNumber | src/Librarydb.cpp:108-115 | increase_book_number: only quantities change, none decreases, and a book without deleted rows is untouched |
| Store.DeleteBorrows | src/Librarydb.cpp:108-115 | A DELETE on borrows removes exactly those rows and otherwise changes only quantities |
| Store.DeleteBorrowsKeepsStock | src/Librarydb.cpp:108-115 | A deletion from borrows, through increase_book_number, keeps each book's copies (shelf plus borrowed) unchanged |
| Store.DeleteBorrowsConsistent | src/Librarydb.cpp:108-115 | A deletion from borrows with its trigger keeps every constraint |
| Store.DeleteNoBorrows | src/Librarydb.cpp:108-115 | Deleting rows that are not there fires nothing and changes no table |
| Store.DeleteOneBorrow | src/Librarydb.cpp:108-115 | Deleting one existing borrows row puts exactly one copy of its book back on the shelf |
| Store.Borrow | src/Librarydb.cpp:311-320 | The insert succeeds if and only if the user and book exist, the row is new and a copy is on the shelf (CHECK quantity >= 0 after decrease_book_number); on success the row is added and the quantity drops by one, nothing else changes |
| Store.Unborrow | src/Librarydb.cpp:322-327 | Never fails. An existing row goes and one copy comes back; a missing row changes nothing. The constraints hold |
| Store.BorrowThenUnborrow | src/Librarydb.cpp:311-327 | A successful borrow followed by the return of the same book restores every table |
| Store.BorrowKeepsStock | src/Librarydb.cpp:100-107 | Borrowing keeps each book's copies (shelf plus borrowed) unchanged |
| Store.UnborrowKeepsStock | src/Librarydb.cpp:322-327 | Returning keeps each book's copies (shelf plus borrowed) unchanged |
| Store.AddFavourite | src/Librarydb.cpp:288-298 | Succeeds if and only if user and book exist and the row is new; then only that row is added |
| Store.RemoveFavourite | src/Librarydb.cpp:300-309 | Never fails; afterwards the row is absent, no other row is lost and no other table changes |
| Store.AddThenRemoveFavourite | src/Librarydb.cpp:288-309 | A successful like followed by an unlike restores every table |
| Store.AddUser | src/Librarydb.cpp:238-249 | Succeeds if and only if the username and the email are both unused; the new row has type 'Regular' whatever class was passed; nothing else changes |
| Store.AddUserChecked | src/Librarydb.cpp:34-47 | Adding a new username keeps the constraints if and only if the email is not used (email UNIQUE) |
| Store.SignupCanAuthenticate | src/Librarydb.cpp:238-249 | After a sign-up the chosen password matches the stored one and the user reads back as a NORMAL user with the given email |
| Store.RemoveUser | src/Librarydb.cpp:251-255 | The user, their session, favourites and borrows all go (cascade), their copies return, and the constraints hold |
| Store.RemovedUserTokenExpires | src/Librarydb.cpp:251-255 | After deleting an account no remaining session holds its old token |
| Store.MakeAdmin | src/Librarydb.cpp:418-422 | The type becomes 'Admin'. remove_admin_borrows returns the user's borrows only if they were 'Regular'. Favourites and sessions are untouched and stock is kept |
| Store.DemoteAdmin | src/Librarydb.cpp:424-428 | Only the type column of that user changes, to 'Regular'; an unknown user changes nothing |
| Store.PromoteThenDemote | src/Librarydb.cpp:116-124 | Promoting and demoting a Regular user restores their row and favourites but leaves them no borrows |
| Store.ChangePassword | src/Librarydb.cpp:408-416 | Only that user's password changes; an unknown user changes nothing |
| Store.AddBook | src/Librarydb.cpp:257-276 | Succeeds if and only if the id is unused and the quantity is not negative; then only the new row (rating 0) is added |
| Store.UpdateBook | src/Librarydb.cpp:446-463 | Fails only on a negative quantity for an existing book; an unknown id changes nothing; otherwise every column but the rating is rebound |
| Store.RemoveBook | src/Librarydb.cpp:278-286 | The book and every favourite and borrow of it go (cascade); users and sessions stay; other books keep their stock |
| Store.RateBook | src/Librarydb.cpp:430-444 | Fails if and only if the book is unknown. Otherwise the rating becomes the running average with the new score, raters grows by one, and nothing else changes |
| Store.NewRating | src/Librarydb.cpp:437 | The first score is the rating; a score equal to the rating keeps it; the new rating lies between the old rating and the score |
| Store.NewRatingIsMean | src/Librarydb.cpp:437 | The rating formula applied to the mean of earlier scores gives the mean including the new one |
| Store.ClearSession | src/Librarydb.cpp:162-170 | Only the user's session row goes; the other sessions and tables are unchanged |
| Store.NewSession | src/Librarydb.cpp:150-160 | Succeeds if and only if the user exists and no other user holds the token; then the user's session is exactly the token |
| Store.NewSessionOwnsToken | src/Librarydb.cpp:150-160 | After a new session the user is the only one holding the token |
| Librarydb.CollectBooks | src/Librarydb.cpp:329-343 | The result loop yields every selected row exactly once, as extractBookInfo reads it |
| Librarydb.CollectUsers | src/Librarydb.cpp:208-223 | The result loop yields every selected row exactly once, as extractUserInfo reads it |
| Librarydb.LinkedBooks | src/Librarydb.cpp:190-206 | The join holds a book exactly when it exists and the user has a link row for it, with the stored columns |
| Librarydb.Librarydb.Init | src/Librarydb.cpp:18-26 | Opens on a non-empty path; a file without tables gets makeSchema's seeded tables, otherwise the tables found |
| Librarydb.Librarydb.Borrow | src/Librarydb.cpp:311-320 | Reports whether the statement succeeded; the tables become Store.Borrow's result, or stay as they were |
| Librarydb.Librarydb.Unborrow | src/Librarydb.cpp:322-327 | The tables become Store.Unborrow's result |
| Librarydb.Librarydb.AddFavourite | src/Librarydb.cpp:288-298 | Success, and the tables, as Store.AddFavourite; a refusal changes nothing |
| Librarydb.Librarydb.RemoveFavourite | src/Librarydb.cpp:300-309 | The tables become Store.RemoveFavourite's result |
| Librarydb.Librarydb.AddUser | src/Librarydb.cpp:238-249 | Success, and the tables, as Store.AddUser; a refusal changes nothing |
| Librarydb.Librarydb.RemoveUser | src/Librarydb.cpp:251-255 | The tables become Store.RemoveUser's result, cascades and trigger included |
| Librarydb.Librarydb.MakeAdmin | src/Librarydb.cpp:418-422 | The tables become Store.MakeAdmin's result, trigger included |
| Librarydb.Librarydb.DemoteAdmin | src/Librarydb.cpp:424-428 | The tables become Store.DemoteAdmin's result |
| Librarydb.Librarydb.ChangePassword | src/Librarydb.cpp:408-416 | The tables become Store.ChangePassword's result |
| Librarydb.Librarydb.AddBook | src/Librarydb.cpp:257-276 | Success, and the tables, as Store.AddBook; a refusal changes nothing |
| Librarydb.Librarydb.UpdateBook | src/Librarydb.cpp:446-463 | Success, and the tables, as Store.UpdateBook; a refusal changes nothing |
| Librarydb.Librarydb.RemoveBook | src/Librarydb.cpp:278-286 | The tables become Store.RemoveBook's result |
| Librarydb.Librarydb.RateBook | src/Librarydb.cpp:430-444 | Returns the stored new rating exactly when the book exists; the tables become Store.RateBook's result |
| Librarydb.Librarydb.ClearSession | src/Librarydb.cpp:162-170 | The tables become Store.ClearSession's result |
| Librarydb.Librarydb.NewSession | src/Librarydb.cpp:150-160 | Success as Store.NewSession; a failed insert still keeps the preceding clearSession |
| Librarydb.Librarydb.RestoreSession | src/Librarydb.cpp:133-148 | A user is returned if and only if some session holds the token, and it is that user as stored |
| Librarydb.Librarydb.Authenticate | src/Librarydb.cpp:363-375 | A user is returned if and only if the username exists with that password, and it is that user as stored |
| Librarydb.Librarydb.UsernameExists | src/Librarydb.cpp:377-381 | True exactly when the username has a row |
| Librarydb.Librarydb.EmailIsUsed | src/Librarydb.cpp:383-387 | True exactly when some user row has the email |
| Librarydb.Librarydb.GetAllUsers | src/Librarydb.cpp:208-223 | Lists every user but root, each once, as stored |
| Librarydb.Librarydb.GetAllBooks | src/Librarydb.cpp:329-343 | Lists every book, each once, as stored |
| Librarydb.Librarydb.GetBorrowed | src/Librarydb.cpp:190-206 | Lists exactly the books the user has borrowed, each once |
| Librarydb.Librarydb.GetFavourites | src/Librarydb.cpp:172-188 | Lists exactly the books the user has liked, each once |
| Librarydb.Librarydb.GetBook | src/Librarydb.cpp:345-361 | Some book exactly when the id has a row, read as stored |
| App.SignupCheck | src/App.cpp:203-221 | signup_ok holds if and only if all fields are filled, the username and password have at least 4 bytes in UTF-8 (what `size()` counts) and neither the username nor the email is taken; each of the four messages appears if and only if its check is the first to fail |
| App.ByteSize | src/App.cpp:205-211 | `std::string::size()` of UTF-8 text: between one and four bytes per character, and equal to the character count exactly when the text is ASCII |
| App.AddBookCheck | src/App.cpp:447-464 | No alert if and only if quantity, year and edition are each empty or all digits; each message names the first field that is not |
| App.MissingField | src/App.cpp:393-405 | No message if and only if title, author and quantity are filled; otherwise the message names the first empty one |
| App.Stoi | src/App.cpp:418 | Succeeds if and only if the digits' value fits an int, and then returns that value |
| App.DecimalValue | src/App.cpp:418-421 | The value std::stoi reads from k digits is below 10^k |
| App.LeadingZero | src/App.cpp:418-421 | A leading zero does not change the value read |
| App.NineDigitsFit | src/App.cpp:418-421 | At most nine digits always fit an int, so std::stoi cannot throw on them |
| App.OptionalNumber | src/App.cpp:420-421 | An empty field is -1; otherwise std::stoi, within -1 and the int maximum |
| App.NewBook | src/App.cpp:413-422 | The book exists exactly when every conversion fits; it carries the form's fields, rating 0 and an empty description, and year and edition are at least -1 |
| App.NewBookRoundTrip | src/App.cpp:413-425 | A book built from the form is stored and read back unchanged |
| App.MatchFrom | src/App.cpp:1022-1025 | The scan from position i succeeds exactly when some split at or after i matches `.*`, the pattern ignoring case, and `.*`, where `.` matches no line break |
| App.RegexMatch | src/App.cpp:1022-1025 | regex_match of the whole text against ".*" + s + ".*" with icase holds exactly when some split of the text matches |
| App.BookMatches | src/App.cpp:1022-1025 | isSearchResult for a book: the title or the author matches the pattern |
| App.UserMatches | src/App.cpp:1027-1030 | isSearchResult for a user: the username or the email matches the pattern |
| App.EmptySearchMatchesOneLine | src/App.cpp:1022-1025 | The empty search string matches a text exactly when the text holds no line break |
| App.ShownIffMatches | src/App.cpp:353-355 | The menus' empty-search guard: a non-empty search shows exactly the matching entries; the empty search shows every entry, while matching alone would hide one whose two texts both hold a line break |
| App.MatchIgnoresCase | src/App.cpp:1022-1030 | Lowering the letters of the text or of the search string changes no answer, line breaks included |
| App.HomeFor | src/App.cpp:959-966 | NORMAL users get the normal home and every other user the admin home |
| App.App.constructor | src/main.cpp:92-93 | The App starts with no active user, over the given database and session file |
| App.App.SaveSession | src/App.cpp:167-175 | Without an active user it fails and nothing changes. Otherwise the file holds hash(username) and the database becomes Store.NewSession's result, with the clear kept if the insert fails |
| App.App.AttemptRestore | src/App.cpp:146-155 | If a session holds the file's token, that user becomes active as stored; otherwise the active user is unchanged |
| App.App.StoredToken | src/App.cpp:132-138 | readSession: the token the file holds, or 0 for an empty or missing file |
| App.App.ClearSession | src/App.cpp:177-184 | The file is emptied and the active user's session row deleted |
| App.App.Home | src/App.cpp:959-966 | The screen is HomeFor the active user |
| App.App.Start | src/App.cpp:186-197 | With -n the file is emptied and the login screen shown. Otherwise the file is kept; when a session row holds the file's token, its user (as stored) becomes active, and otherwise the active user is unchanged; an active user is sent home and no user means the login screen |
| App.App.Logout | src/App.cpp:597-601 | The session is cleared in the file and the database, and nobody is active |
| App.App.ChangePasswordAction | src/App.cpp:1066-1074 | A password shorter than 4 bytes is ignored and kept in the input; otherwise it is stored and the input cleared |
| App.App.DeleteAccount | src/App.cpp:1084-1089 | The user and all their rows are gone, the session cleared, and nobody is active |
| App.LoginScreen.constructor | src/App.cpp:199-230 | All fields empty, signup_ok false, the login tab selected |
| App.LoginScreen.CheckSignup | src/App.cpp:201-222 | Message, visibility and signup_ok are those of SignupCheck with the database's answers |
| App.LoginScreen.SignupAction | src/App.cpp:232-248 | The login fields are never touched. Without signup_ok only the check's flag and message change: the sign-up fields, the tab, the active user, the session file and the database are kept. Otherwise the fields are cleared, the user is active as a NORMAL user, the file holds the token, and the database is Store.AddUser's result followed by Store.NewSession (the clear kept if the insert fails); the normal home is shown on success |
| App.LoginScreen.ClearSignupForm | src/App.cpp:240-244 | The sign-up fields are empty, signup_ok is false and the Login tab is selected |
| App.LoginScreen.SignUp | src/App.cpp:237-247 | Past the guard: the user is stored as a NORMAL user with the password and reads back as the active user; the sign-up fields are cleared and the login fields kept; the database is Store.AddUser then Store.NewSession, the clear kept if the insert fails |
| App.LoginScreen.LoginAction | src/App.cpp:250-264 | The password is always cleared and the sign-up form and tab are kept. On matching credentials the stored user becomes active, the file holds the token, the database is Store.NewSession's result (the clear kept if the insert fails) and the user is sent home; otherwise the username, active user, session file and database are kept |
| Homes.Erase | src/App.cpp:503 | vector::erase: one element fewer, the ones after it shifted down |
| Homes.FreshIsStale | src/App.cpp:338-339 | The admin's freshly read list meets the admin-list invariant |
| Homes.StaleAppend | src/App.cpp:424-427 | Appending the book just inserted keeps the admin list in step |
| Homes.StaleErase | src/App.cpp:502-503 | Erasing the book just deleted keeps the admin list in step |
| Homes.StaleRestocked | src/App.cpp:510-521 | Copies returned by a cascade leave the admin list in step; its quantities only lag |
| Homes.ListedUpdate | src/App.cpp:825 | Replacing one row and the listed book by its reading keeps a list in step |
| Homes.UsersErase | src/App.cpp:511-512 | Erasing a deleted user keeps the users list in step |
| Homes.UsersUpdate | src/App.cpp:519-520 | Changing a listed user's row and entry together keeps the users list in step |
| Homes.PickedIffLinked | src/App.cpp:738-740 | isBorrowed / isFavourite: a book is pointed at exactly when the database holds the user's row for it |
| Homes.PicksSameEntries | src/App.cpp:728 | A quantity or rating change through a pointer keeps every pointer list valid |
| Homes.PicksAppend | src/App.cpp:730-731 | Pushing a pointer to the book just linked keeps the pointer list exact |
| Homes.PicksErase | src/App.cpp:797 | Erasing the pointer whose row was just deleted keeps the pointer list exact |
| Homes.FindBook | src/App.cpp:624-630 | find_if: the first position holding the id |
| Homes.Resolve | src/App.cpp:632-644 | One pointer per fetched book, each at a book with the same id |
| Homes.LinkedAreListed | src/App.cpp:632-644 | Every borrowed or liked book is in all_books, so find_if never reaches end() |
| Homes.ResolvedPicks | src/App.cpp:632-644 | The resolved pointers point at exactly the user's linked books, each once |
| Homes.ShownBooks | src/App.cpp:351-357 | Each entry is shown exactly when the book at its captured slot passes the search |
| Homes.MenuShowsMatches | src/App.cpp:351-357 | In a menu in step with its list, entry k is shown exactly when book k matches a non-empty search; an empty search shows all |
| Homes.BuildMenu | src/App.cpp:351-357 | The loop gives one entry per element, labelled after it and testing its own position |
| Homes.RemoveEntry | src/App.cpp:503-505 | Removes the chosen entry, keeping the others' labels in order and renumbering the later entries' slots (the corrected removal; see Left out) |
| Homes.RemoveEntryKeepsMenu | src/App.cpp:501-506 | Removing an element and its entry keeps the menu in step with the list |
| Homes.RemoveBookMenuAsWritten | src/App.cpp:505 | As written, one entry goes, and when the two menus' selections differ the entry of the book being removed stays in the menu |
| Homes.WrongEntryDetached | src/App.cpp:501-506 | When the two selections differ, the book menu no longer matches the book list after a removal |
| Homes.StaleSlotAfterErase | src/App.cpp:351-356 | After an erase that is not of the last element, the last entry tests a position past the end |
| Homes.RemoveEntryInRange | src/App.cpp:351-356 | With entries renumbered, every entry tests inside the list |
| Homes.AddBookInStep | src/App.cpp:424-432 | A book the database accepts joins the list and the menu in step with the tables |
| Homes.RemoveBookInStep | src/App.cpp:501-506 | Removing a book from the database, list and menu keeps them in step |
| Homes.RemoveUserInStep | src/App.cpp:510-515 | Removing a user from the database, list and menu keeps them in step |
| Homes.GrantInStep | src/App.cpp:518-521 | Making a listed user ADMIN in the database and the list keeps them in step |
| Homes.RevokeInStep | src/App.cpp:525-527 | Making a listed user NORMAL in the database and the list keeps them in step |
| Homes.AdminView.constructor | src/App.cpp:338-372 | The admin home opens in step with the tables, with every book listed as stored and an empty form |
| Homes.AdminView.CheckAddBook | src/App.cpp:447-464 | add_book_ok, the message and the alert are those of AddBookCheck |
| Homes.AdminView.AddBookAction | src/App.cpp:389-445 | A failed check sets its own message and a missing field sets its message; in both cases, and whenever the add fails, the form, lists and database are kept. Otherwise the book is added exactly when its numbers fit and its id is new; then the database, list and menu take it and the form is cleared. Lists stay in step |
| Homes.AdminView.SubmitBook | src/App.cpp:413-444 | The conversions and insert of add_book_action: the book is added exactly when its numbers fit and its id is new, with the form cleared; otherwise form, lists and database are kept |
| Homes.AdminView.InsertBook | src/App.cpp:424-432 | The database takes the book as Store.AddBook; an accepted book joins list and menu; lists stay in step |
| Homes.AdminView.ClearForm | src/App.cpp:437-444 | Every field of the add-book form is empty |
| Homes.AdminView.RemoveBookAction | src/App.cpp:501-506 | The database becomes Store.RemoveBook's result; list and menu lose the selected book; lists stay in step |
| Homes.AdminView.RemoveUserAction | src/App.cpp:510-515 | The database becomes Store.RemoveUser's result; list and menu lose the selected user; lists stay in step |
| Homes.AdminView.GrantAction | src/App.cpp:518-523 | The database becomes Store.MakeAdmin's result; the listed user is ADMIN; lists stay in step |
| Homes.AdminView.RevokeAction | src/App.cpp:525-535 | The database becomes Store.DemoteAdmin's result and the listed user is NORMAL. The screen closes and nobody is active exactly when admins demote themselves |
| Homes.RestockInStep | src/App.cpp:728 | A new quantity on the shared book, in list and row alike, keeps the normal home in step |
| Homes.BorrowedAppendInStep | src/App.cpp:730-736 | A new borrows row with its pointer and menu entry keeps the normal home in step |
| Homes.BorrowedEraseInStep | src/App.cpp:797-799 | A deleted borrows row with its pointer and entry removed keeps the normal home in step |
| Homes.BorrowInStep | src/App.cpp:709-737 | An accepted borrow, with one copy fewer on the shared book and a new pointer, keeps the normal home in step |
| Homes.LikeInStep | src/App.cpp:751-776 | An accepted like with its new pointer keeps the normal home in step |
| Homes.UnborrowInStep | src/App.cpp:791-800 | A return, with one copy more and the pointer gone, keeps the normal home in step |
| Homes.UnlikeInStep | src/App.cpp:803-810 | An unlike with its pointer gone keeps the normal home in step |
| Homes.RateInStep | src/App.cpp:822-827 | The shared book taking the stored new rating keeps the normal home in step |
| Homes.NormalView.constructor | src/App.cpp:620-698 | The normal home opens in step: all books as stored, and pointers to exactly the user's borrowed and liked books |
| Homes.NormalView.BorrowAction | src/App.cpp:709-737 | The database is Store.Borrow's result (unchanged on refusal); on success the shared book loses a copy and gains a borrowed entry; lists stay in step |
| Homes.NormalView.LikeAction | src/App.cpp:751-776 | The database is Store.AddFavourite's result (unchanged on refusal); on success a favourites entry is added; lists stay in step |
| Homes.NormalView.UnborrowAction | src/App.cpp:791-800 | The database is Store.Unborrow's result; the shared book gains a copy and the borrowed entry goes; lists stay in step |
| Homes.NormalView.UnlikeAction | src/App.cpp:803-810 | The database is Store.RemoveFavourite's result and the favourites entry goes; lists stay in step |
| Homes.NormalView.RateAction | src/App.cpp:822-827 | The database is Store.RateBook's result; the shared book shows the stored new rating; lists stay in step |
| Cli.ParseFrom | src/main.cpp:30-45 | The loop's meaning over the tokens left: a -n seen stays set, and db_path is the one given or a token of the line |
| Cli.Parse | src/main.cpp:26-45 | The loop from new_session false and an empty db_path: no arguments run with those |
| Cli.ParseArgs | src/main.cpp:26-45 | The loop computes Parse of the arguments |
| Cli.ParseRendered | src/main.cpp:30-45 | Reading written-out options sets new_session if any is -n and takes db_path from the last -d |
| Cli.RenderedRuns | src/main.cpp:30-45 | Every well-formed command line runs, with new_session exactly when -n occurs and the last -d file |
| Cli.DanglingDbFlag | src/main.cpp:33-37 | A trailing -d prints usage |
| Cli.UnknownTokenStops | src/main.cpp:41-44 | Any other token prints usage, whatever follows |
| Cli.RunIsRendered | src/main.cpp:30-45 | Every accepted command line is a sequence of options written out |
| Cli.UsageIffMalformed | src/main.cpp:30-45 | Usage is printed if and only if the arguments are not a sequence of options |
| Cli.Join | src/main.cpp:64 | path operator/ keeps the left side as a prefix |
| Cli.JoinFileName | src/main.cpp:84 | The joined name is the file name of the joined path |
| Cli.AppDir | src/main.cpp:64 | data_dir /= "library-system": the data directory is a prefix and library-system the file name |
| Cli.DbPathFor | src/main.cpp:69-89 | The database file is never empty: the -d file as given, or library.db in the application directory |
| Cli.SessionPath | src/main.cpp:93 | The session file is session.txt in the application directory |
| Cli.DefaultFilesApart | src/main.cpp:84-93 | The default database and the session file differ |
| Cli.StartupAsWritten | src/main.cpp:92-103 | As written, the App's new-session setting is always false |
| Cli.NewSessionFlagIgnored | src/main.cpp:94-103 | A command line with -n parses with new_session set, yet the App starts without it |
| Cli.Configure | src/main.cpp:26-93 | Usage exactly when parsing fails. Otherwise the database file is non-empty and new_session is the parsed one, and the default database differs from the session file |
| Cli.ConfigureRendered | src/main.cpp:26-93 | Options give -n's presence, the last -d file (default library.db) and session.txt |
| Cli.Launch | src/main.cpp:26-105 | Usage exactly as Configure. Otherwise a new database on the chosen file, with the file's tables or the seeded ones, and an App with no active user, the parsed new-session setting and session.txt (the corrected start-up; see Left out) |

## Left out

- The FTXUI screens are left out: widgets, rendering, tabs, the screen loop and `screen.Exit`. The modelled state is each screen's lists, form fields and selections, plus the screen an action leads to (`Screen`).
- The `flip` helper is left out: a detached thread toggles a flag for two seconds. The flash messages it drives (`show_add_click_error`, `add_book_successfull`, `password_change_success`, the failed-login notice) are display only.
- File I/O is not modelled. The session file's contents are `Option<int>`. The database file's tables are the `existing` parameter of `Librarydb.Init` and `Cli.Launch`.
- `readSession` on a missing or empty file leaves the value unset. The model reads it as 0.
- `std::hash` is a parameter. It gives the session token, and the book id appears as the `id` argument. At src/App.cpp:414-416 the id is hashed before title and author are set, so it depends only on the clock.
- The environment lookup of main.cpp:46-62 is left out. `dataDir` stands for the directory it yields. `create_directory`, the `canonical` / `is_regular_file` checks of main.cpp:69-80 and the file creation at main.cpp:85-87 are also left out.
- An SQLite exception is modelled as a failed statement: `ok == false` or `None`. So is the `std::runtime_error` that App::saveSession throws when no user is active (src/App.cpp:169-170), and the `std::out_of_range` that `std::stoi` throws for a number too large for `int` in add_book_action (src/App.cpp:418-421). Where the source does not catch them (sign-up, add book, the store's readers), they reach App::run, which reports them and ends the program with EXIT_FAILURE (src/App.cpp:109-129); the model returns the failure.
- Integers are unbounded. Quantities, raters and years do not wrap. The `size_t` to `int64` cast of book ids and session tokens is not modelled. The one width that matters to the forms, the range of `std::stoi`, is modelled (`IntMax`).
- Ratings are exact reals, so `double` rounding in rateBook is not modelled.
- The search pattern is modelled as literal text with ASCII case folding. Regex metacharacters in the search string are not modelled. Neither is the `std::regex_error` an invalid pattern would throw.
- Text is a sequence of Unicode characters. Where the source counts bytes (`size()` in the sign-up and password checks), the model counts the bytes of the UTF-8 encoding (`App.ByteSize`). Matching is done on characters; a byte-wise match of UTF-8 text finds the same occurrences.
- Homes.FindBook requires the id to be present. Dereferencing `end()` is undefined, and `Homes.LinkedAreListed` proves the id is always present.
- The normal home calls `db->rateBoot` (src/App.cpp:825), which Librarydb does not declare. The model takes it to be `rateBook` (src/Librarydb.cpp:430).
- Where src/Librarydb.hpp and src/Librarydb.cpp differ, the model follows the .cpp.
- extractBookInfo reads a NULL rating as -1.0 (src/Librarydb.cpp:403). The model's rating column is never NULL, because addBook always writes 0.0.
- The form's description is never copied into the new book, so it is stored as NULL. This is modelled as written.
- The admin home's book list is read once. Copies that come back through removeUser or makeAdmin cascades are not seen. The model therefore proves only that each listed quantity is at most the stored one (`ListsStaleBooks`).
- Book rating renderers, the "Borrowed"/"Liked" labels and the rate dialog's visibility flag are not modelled. `Homes.PickedIffLinked` states what those labels test.
- RemoveEntry: models the corrected removal of the Findings rows for src/App.cpp:505 and src/App.cpp:351-356, which renumbers the later entries' slots. The source's detach keeps each entry's captured index; that behaviour is `Homes.RemoveBookMenuAsWritten` and `Homes.StaleSlotAfterErase`.
- RemoveBookAction: is the corrected remove_book_button_action of the Findings row for src/App.cpp:505. It detaches the entry at the book selection and renumbers the later slots; the source detaches at `all_user_selected` and renumbers nothing. Its "lists stay in step" holds for the corrected program only (`Homes.WrongEntryDetached` shows the source's behaviour).
- RemoveUserAction: renumbers the later entries' slots, as the Findings row for src/App.cpp:351-356 corrects it. The source keeps the captured index, so its "lists stay in step" holds for the corrected program only.
- UnborrowAction: renumbers the borrowed menu's later slots, as the Findings row for src/App.cpp:351-356 corrects it; the source keeps the captured `indx` (src/App.cpp:676-698, 797-799). Its "lists stay in step" holds for the corrected program only.
- UnlikeAction: renumbers the favourites menu's later slots, as the Findings row for src/App.cpp:351-356 corrects it; the source keeps the captured `indx` (src/App.cpp:808-809). Its "lists stay in step" holds for the corrected program only.
- Launch: is the corrected start-up of the Findings row for src/main.cpp:94-103 and hands the parsed `-n` to the App. As written, `App::newSession` stays false (`Cli.StartupAsWritten`, `Cli.NewSessionFlagIgnored`).

## Findings

| source | as written | input that shows it | evidently intended | confidence | as-written member | corrected member |
|---|---|---|---|---|---|---|
| src/App.cpp:505 | remove_book_button_action detaches the book-menu entry at `all_user_selected` | two books listed, book 0 selected, user selection 1: book 0 is erased from the list but entry 1 is detached | detach the entry at `all_book_selected` | not executed | Homes.WrongEntryDetached | Homes.RemoveEntryKeepsMenu |
| src/App.cpp:351-356 | each menu entry's visibility test captures the index `i` it was created at; erasing an element does not renumber the entries after it | three books, erase book 0: the last entry still tests `all_books[2]`, past the end of the two-element vector | the entries after the erased one test the position they now stand at | not executed | Homes.StaleSlotAfterErase | Homes.RemoveEntryInRange |
| src/main.cpp:94-103 | `-n` only skips reading session.txt into `ap->session`, a member App does not declare; `App::newSession` keeps its default `false` | `library -n`: the login screen still restores the stored session | `ap->newSession = new_session;` | not executed | Cli.NewSessionFlagIgnored | Cli.ConfigureRendered |
