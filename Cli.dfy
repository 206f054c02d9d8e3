/** The program's entry point (src/main.cpp): the argument loop, the default file paths and
    the start-up of the database and the App. */
module Cli {
  import opened Records
  import opened Store
  import opened Librarydb
  import opened App

  // ---------------------------------------------------------------------------------------
  // The command line: library [-n] [-d FILE]
  // ---------------------------------------------------------------------------------------

  /** What the argument loop leaves behind: the two settings, or usage printed and
      EXIT_FAILURE returned. */
  datatype Invocation = Run(newSession: bool, dbPath: string) | Usage

  /** The loop's meaning over the tokens still to read, with the settings so far. */
  function ParseFrom(args: seq<string>, newSession: bool, dbPath: string): (r: Invocation)
    ensures r.Run? && newSession ==> r.newSession
    ensures r.Run? ==> r.dbPath == dbPath || r.dbPath in args
    decreases |args|
  {
    if args == [] then Run(newSession, dbPath)
    else if args[0] == "-n" then ParseFrom(args[1..], true, dbPath)
    else if args[0] == "-d" then
      if |args| == 1 then Usage else ParseFrom(args[2..], newSession, args[1])
    else Usage
  }

  /** The loop starts with new_session false and db_path empty. */
  function Parse(args: seq<string>): (r: Invocation)
    ensures args == [] ==> r == Run(false, "")
    ensures r.Run? ==> r.dbPath == "" || r.dbPath in args
  {
    ParseFrom(args, false, "")
  }

  /** The argument loop of main: `-n` sets new_session, `-d` takes the next token as
      db_path and skips it, anything else (or a `-d` with nothing after it) stops with
      usage. */
  method ParseArgs(args: seq<string>) returns (r: Invocation)
    ensures r == Parse(args)
  {
    var newSession := false;
    var dbPath := "";
    var it := 0;
    while it < |args|
      invariant 0 <= it <= |args|
      invariant ParseFrom(args[it..], newSession, dbPath) == Parse(args)
    {
      assert args[it..][0] == args[it];
      if args[it] == "-n" {
        assert args[it..][1..] == args[it + 1..];
        newSession := true;
      } else if args[it] == "-d" {
        if it + 1 == |args| {
          return Usage;
        }
        assert args[it..][2..] == args[it + 2..];
        dbPath := args[it + 1];
        it := it + 1;
      } else {
        return Usage;
      }
      it := it + 1;
    }
    assert args[it..] == [];
    return Run(newSession, dbPath);
  }

  // ---- the well-formed command lines, as a list of options ------------------------------

  /** One option of the command line. */
  datatype Flag = NewSessionFlag | DbFlag(file: string)

  /** The tokens an option is written as. */
  function Tokens(f: Flag): seq<string> {
    match f
    case NewSessionFlag => ["-n"]
    case DbFlag(file) => ["-d", file]
  }

  /** A command line written out from its options, in order. */
  function Render(flags: seq<Flag>): seq<string> {
    if flags == [] then [] else Tokens(flags[0]) + Render(flags[1..])
  }

  /** The file of the last `-d` option, or `dbPath` when there is none. */
  function LastDb(flags: seq<Flag>, dbPath: string): string {
    if flags == [] then dbPath
    else if flags[|flags| - 1].DbFlag? then flags[|flags| - 1].file
    else LastDb(flags[..|flags| - 1], dbPath)
  }

  /** The last `-d` read from the front: an option in front only sets the starting value. */
  lemma {:induction false} LastDbFront(f: Flag, flags: seq<Flag>, dbPath: string)
    ensures LastDb([f] + flags, dbPath) == LastDb(flags, if f.DbFlag? then f.file else dbPath)
    decreases |flags|
  {
    if flags != [] {
      var n := |flags| - 1;
      assert ([f] + flags)[..|flags|] == [f] + flags[..n];
      if !flags[n].DbFlag? {
        LastDbFront(f, flags[..n], dbPath);
      }
    }
  }

  /** Reading written-out options and then `rest` is reading `rest` with their settings:
      every `-n` sets new_session and the last `-d` decides db_path. */
  lemma {:induction false} ParseRendered(flags: seq<Flag>, rest: seq<string>, newSession: bool, dbPath: string)
    ensures ParseFrom(Render(flags) + rest, newSession, dbPath)
         == ParseFrom(rest, newSession || NewSessionFlag in flags, LastDb(flags, dbPath))
    decreases |flags|
  {
    if flags == [] {
      assert Render(flags) + rest == rest;
    } else {
      var f, tail := flags[0], flags[1..];
      var args := Render(flags) + rest;
      assert flags == [f] + tail;
      assert args == Tokens(f) + (Render(tail) + rest);
      LastDbFront(f, tail, dbPath);
      match f
      case NewSessionFlag =>
        assert args[1..] == Render(tail) + rest;
        ParseRendered(tail, rest, true, dbPath);
      case DbFlag(file) =>
        assert args[2..] == Render(tail) + rest;
        ParseRendered(tail, rest, newSession, file);
    }
  }

  /** A well-formed command line runs: new_session is set iff some option is `-n`, and
      db_path is the last `-d` file (empty without one). */
  lemma RenderedRuns(flags: seq<Flag>)
    ensures Parse(Render(flags)) == Run(NewSessionFlag in flags, LastDb(flags, ""))
  {
    ParseRendered(flags, [], false, "");
    assert Render(flags) + [] == Render(flags);
  }

  /** `-d` as the last token prints usage, whatever came before it. */
  lemma DanglingDbFlag(flags: seq<Flag>)
    ensures Parse(Render(flags) + ["-d"]) == Usage
  {
    ParseRendered(flags, ["-d"], false, "");
  }

  /** Any other token prints usage, and nothing after it is read. */
  lemma UnknownTokenStops(flags: seq<Flag>, token: string, rest: seq<string>)
    requires token != "-n" && token != "-d"
    ensures Parse(Render(flags) + ([token] + rest)) == Usage
  {
    ParseRendered(flags, [token] + rest, false, "");
  }

  /** Every command line the loop accepts is the written-out form of some options. */
  lemma {:induction false} RunIsRendered(args: seq<string>, newSession: bool, dbPath: string) returns (flags: seq<Flag>)
    requires ParseFrom(args, newSession, dbPath).Run?
    ensures Render(flags) == args
    decreases |args|
  {
    if args == [] {
      flags := [];
    } else if args[0] == "-n" {
      var tail := RunIsRendered(args[1..], true, dbPath);
      flags := [NewSessionFlag] + tail;
      assert flags[1..] == tail;
      assert args == ["-n"] + args[1..];
    } else {
      var tail := RunIsRendered(args[2..], newSession, args[1]);
      flags := [DbFlag(args[1])] + tail;
      assert flags[1..] == tail;
      assert args == ["-d", args[1]] + args[2..];
    }
  }

  /** Usage is printed exactly when the command line is not a sequence of options. */
  lemma UsageIffMalformed(args: seq<string>)
    ensures Parse(args) == Usage <==> forall flags :: Render(flags) != args
  {
    if Parse(args) == Usage {
      forall flags ensures Render(flags) != args {
        RenderedRuns(flags);
      }
    } else {
      var flags := RunIsRendered(args, false, "");
    }
  }

  // ---------------------------------------------------------------------------------------
  // The files under the data directory
  // ---------------------------------------------------------------------------------------

  const AppDirName: string := "library-system"
  const DbFileName: string := "library.db"
  const SessionFileName: string := "session.txt"

  /** A single path component: not empty and without a separator. */
  predicate IsComponent(name: string) {
    name != [] && forall i :: 0 <= i < |name| ==> name[i] != '/'
  }

  /** std::filesystem::path's operator/ with a relative right side on POSIX: an empty left
      side gives the name itself; otherwise one separator goes between, unless the left
      side already ends with one. */
  function Join(dir: string, name: string): (r: string)
    requires IsComponent(name)
    ensures dir <= r
  {
    if dir == [] then name
    else if dir[|dir| - 1] == '/' then dir + name
    else dir + "/" + name
  }

  /** path::filename: what follows the last separator. */
  function FileName(p: string): string {
    if p == [] || p[|p| - 1] == '/' then [] else FileName(p[..|p| - 1]) + [p[|p| - 1]]
  }

  /** A component appended after a separator (or to nothing) is what filename gives back. */
  lemma {:induction false} FileNameAfter(prefix: string, name: string)
    requires prefix == [] || prefix[|prefix| - 1] == '/'
    requires forall i :: 0 <= i < |name| ==> name[i] != '/'
    ensures FileName(prefix + name) == name
    decreases |name|
  {
    if name == [] {
      assert prefix + name == prefix;
    } else {
      var n := |name| - 1;
      assert (prefix + name)[..|prefix + name| - 1] == prefix + name[..n];
      FileNameAfter(prefix, name[..n]);
      assert name[..n] + [name[n]] == name;
    }
  }

  /** Join's inverse: the joined name is the file name of the result. */
  lemma JoinFileName(dir: string, name: string)
    requires IsComponent(name)
    ensures FileName(Join(dir, name)) == name
  {
    if dir == [] {
      FileNameAfter([], name);
      assert [] + name == name;
    } else if dir[|dir| - 1] == '/' {
      FileNameAfter(dir, name);
    } else {
      FileNameAfter(dir + "/", name);
      assert dir + "/" + name == (dir + "/") + name;
    }
  }

  /** data_dir after `/= "library-system"`. */
  function AppDir(dataDir: string): (r: string)
    ensures dataDir <= r && FileName(r) == AppDirName
  {
    JoinFileName(dataDir, AppDirName);
    Join(dataDir, AppDirName)
  }

  /** The file the database is opened on: the `-d` file as given, or library.db in the
      application directory when db_path is empty. */
  function DbPathFor(dbPath: string, dataDir: string): (r: string)
    ensures r != []
    ensures dbPath != [] ==> r == dbPath
    ensures dbPath == [] ==> AppDir(dataDir) <= r && FileName(r) == DbFileName
  {
    if dbPath != [] then dbPath
    else
      JoinFileName(AppDir(dataDir), DbFileName);
      Join(AppDir(dataDir), DbFileName)
  }

  /** session_file: session.txt in the application directory, whatever the arguments. */
  function SessionPath(dataDir: string): (r: string)
    ensures AppDir(dataDir) <= r && FileName(r) == SessionFileName
  {
    JoinFileName(AppDir(dataDir), SessionFileName);
    Join(AppDir(dataDir), SessionFileName)
  }

  /** The default database and the session file are two different files of one directory. */
  lemma DefaultFilesApart(dataDir: string)
    ensures DbPathFor("", dataDir) != SessionPath(dataDir)
  {
    assert FileName(DbPathFor("", dataDir)) != FileName(SessionPath(dataDir)) by {
      assert DbFileName[0] != SessionFileName[0];
    }
  }

  // ---------------------------------------------------------------------------------------
  // main
  // ---------------------------------------------------------------------------------------

  /** What main hands on: the database file, the App's new-session setting and the session
      file. */
  datatype Startup = Startup(dbPath: string, newSession: bool, sessionPath: string)

  /** main as written: new_session only decides whether session.txt is read into a member
      App does not declare, and App::newSession keeps its default, false. */
  function StartupAsWritten(args: seq<string>, dataDir: string): (r: Option<Startup>)
    ensures r.None? <==> Parse(args) == Usage
    ensures r.Some? ==> !r.value.newSession
  {
    match Parse(args)
    case Usage => None
    case Run(_, dbPath) => Some(Startup(DbPathFor(dbPath, dataDir), false, SessionPath(dataDir)))
  }

  /** As written, `-n` never reaches the App: the login screen still restores the stored
      session. */
  lemma NewSessionFlagIgnored(flags: seq<Flag>, dataDir: string)
    requires NewSessionFlag in flags
    ensures Parse(Render(flags)).Run? && Parse(Render(flags)).newSession
    ensures StartupAsWritten(Render(flags), dataDir).Some?
    ensures !StartupAsWritten(Render(flags), dataDir).value.newSession
  {
    RenderedRuns(flags);
  }

  /** main as intended: the parsed new_session goes to the App. */
  function Configure(args: seq<string>, dataDir: string): (r: Option<Startup>)
    ensures r.None? <==> Parse(args) == Usage
    ensures r.Some? ==> r.value.dbPath != [] && r.value.newSession == Parse(args).newSession
    ensures r.Some? && Parse(args).dbPath == [] ==> r.value.dbPath != r.value.sessionPath
  {
    match Parse(args)
    case Usage => None
    case Run(newSession, dbPath) =>
      DefaultFilesApart(dataDir);
      Some(Startup(DbPathFor(dbPath, dataDir), newSession, SessionPath(dataDir)))
  }

  /** A well-formed command line starts a fresh session iff it has `-n`, opens the last `-d`
      file (library.db in the application directory without one), and keeps the session in
      session.txt. */
  lemma ConfigureRendered(flags: seq<Flag>, dataDir: string)
    ensures Configure(Render(flags), dataDir)
         == Some(Startup(DbPathFor(LastDb(flags, ""), dataDir), NewSessionFlag in flags, SessionPath(dataDir)))
  {
    RenderedRuns(flags);
  }

  /** main after the environment lookup: parses the arguments, opens the database on the
      chosen file and builds the App over it. `dataDir` is the directory the environment
      names, `existing` the tables found in the database file (None for a new file) and
      `stored` the token in session.txt (None when there is none); the App reads that file
      itself when it tries to restore. None is usage and EXIT_FAILURE. */
  method Launch(args: seq<string>, dataDir: string, existing: Option<Tables>, stored: Option<int>,
                hash: string -> int)
    returns (app: Option<App>)
    requires existing.Some? ==> Consistent(existing.value)
    ensures app.None? <==> Configure(args, dataDir).None?
    ensures app.Some? ==>
      var s := Configure(args, dataDir).value;
      && fresh(app.value) && fresh(app.value.db) && app.value.Valid()
      && app.value.activeUser == None
      && app.value.newSession == s.newSession
      && app.value.db.dbPath == s.dbPath
      && app.value.sessionPath == s.sessionPath
      && app.value.db.Snapshot() == existing.GetOr(Seeded())
      && app.value.sessionFile == stored
  {
    var inv := ParseArgs(args);
    if inv.Usage? {
      return None;
    }
    var db := new Librarydb.Init(DbPathFor(inv.dbPath, dataDir), existing);
    var a := new App(db, hash, inv.newSession, SessionPath(dataDir), stored);
    app := Some(a);
  }
}
