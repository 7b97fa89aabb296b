/** The credential table: `login:password` lines loaded into a map.

    Reading the file itself is I/O; the model starts from the sequence of lines
    `std::getline` yields. */
module ClientDb {
  import opened NetworkUtils

  datatype Entry = Entry(login: string, password: string)

  /** Index of the first ':' in `line`, or |line| when there is none. */
  function FirstColon(line: string): (k: nat)
    ensures k <= |line|
    ensures forall j :: 0 <= j < k ==> line[j] != ':'
    ensures k < |line| ==> line[k] == ':'
  {
    if line == [] || line[0] == ':' then 0 else 1 + FirstColon(line[1..])
  }

  /** What one line contributes, following the two `std::getline` calls on an
      `istringstream`: the first reads up to the first ':' (and fails only on
      an empty line); the second reads the rest of the line and fails when it
      extracts nothing. So an empty line, a line without ':' and a line whose
      first ':' is its last character contribute nothing; everything before
      the first ':' is the login and everything after it the password, spaces
      and further colons included. */
  function ParseLine(line: string): (e: Option<Entry>)
    ensures e.Some? <==> FirstColon(line) + 1 < |line|
    ensures e.Some? ==> line == e.value.login + [':'] + e.value.password
    ensures e.Some? ==> ':' !in e.value.login && e.value.password != []
  {
    var k := FirstColon(line);
    if line == [] then None
    else if k == |line| then None
    else if k + 1 == |line| then None
    else
      var e := Entry(line[..k], line[k + 1..]);
      assert line == e.login + [':'] + e.password;
      Some(e)
  }

  /** `db[login] = pass` for a line that parses; nothing otherwise. */
  function Store(db: map<string, string>, line: string): map<string, string>
  {
    match ParseLine(line)
    case None => db
    case Some(e) => db[e.login := e.password]
  }

  /** The table after processing `lines` in order, starting from `db`. */
  function Load(db: map<string, string>, lines: seq<string>): map<string, string>
    decreases |lines|
  {
    if lines == [] then db else Load(Store(db, lines[0]), lines[1..])
  }

  lemma {:induction false} LoadAppend(db: map<string, string>, a: seq<string>, b: seq<string>)
    ensures Load(db, a + b) == Load(Load(db, a), b)
    decreases |a|
  {
    if a == [] {
      assert a + b == b;
    } else {
      assert (a + b)[1..] == a[1..] + b;
      LoadAppend(Store(db, a[0]), a[1..], b);
    }
  }

  /** A line that does not parse (in particular an empty line, or a line
      without ':') can be removed without changing the table. */
  lemma IgnoredLine(db: map<string, string>, a: seq<string>, line: string, b: seq<string>)
    requires ParseLine(line).None?
    ensures Load(db, a + [line] + b) == Load(db, a + b)
  {
    LoadAppend(db, a + [line], b);
    LoadAppend(db, a, [line]);
    LoadAppend(db, a, b);
  }

  lemma EmptyAndColonlessLinesIgnored(line: string)
    requires line == [] || ':' !in line
    ensures ParseLine(line).None?
  {
    assert forall j :: 0 <= j < |line| ==> line[j] != ':';
  }

  predicate Defines(line: string, login: string)
  {
    ParseLine(line).Some? && ParseLine(line).value.login == login
  }

  /** After loading, a login is a key exactly when some line defines it, and
      its password comes from the last such line: later duplicates overwrite
      earlier ones. The table loaded from a fresh start never depends on
      anything but the lines. */
  lemma {:induction false} LoadedTable(lines: seq<string>, login: string)
    ensures login in Load(map[], lines) <==> exists i :: 0 <= i < |lines| && Defines(lines[i], login)
    ensures login in Load(map[], lines) ==>
              exists i :: && 0 <= i < |lines| && Defines(lines[i], login)
                          && Load(map[], lines)[login] == ParseLine(lines[i]).value.password
                          && forall j :: i < j < |lines| ==> !Defines(lines[j], login)
    decreases |lines|
  {
    if lines != [] {
      var init, last := lines[..|lines| - 1], lines[|lines| - 1];
      assert lines == init + [last];
      LoadAppend(map[], init, [last]);
      LoadedTable(init, login);
      if Defines(last, login) {
        assert Load(map[], lines)[login] == ParseLine(last).value.password;
      } else {
        assert login in Load(map[], lines) <==> login in Load(map[], init);
        if login in Load(map[], lines) {
          var i :| && 0 <= i < |init| && Defines(init[i], login)
                   && Load(map[], init)[login] == ParseLine(init[i]).value.password
                   && forall j :: i < j < |init| ==> !Defines(init[j], login);
          assert lines[i] == init[i];
          assert forall j :: i < j < |lines| ==> !Defines(lines[j], login) by {
            forall j | i < j < |lines| ensures !Defines(lines[j], login) {
              if j < |init| { assert lines[j] == init[j]; }
            }
          }
        }
        if exists i :: 0 <= i < |lines| && Defines(lines[i], login) {
          var i :| 0 <= i < |lines| && Defines(lines[i], login);
          assert i < |init| && init[i] == lines[i];
        }
      }
    }
  }

  class AuthDB {
    var db: map<string, string>

    constructor ()
      ensures db == map[]
    {
      db := map[];
    }

    /** `AuthDB::loadFromFile`, from the point where the file is open: the
        previous contents are discarded, then every line is stored in turn. */
    method LoadFromLines(lines: seq<string>)
      modifies this
      ensures db == Load(map[], lines)
    {
      db := map[];
      var i := 0;
      while i < |lines|
        invariant i <= |lines|
        invariant db == Load(map[], lines[..i])
      {
        var line := lines[i];
        LoadAppend(map[], lines[..i], [line]);
        assert lines[..i + 1] == lines[..i] + [line];
        if line != [] {
          var k := FirstColon(line);
          if k + 1 < |line| {
            db := db[line[..k] := line[k + 1..]];
          }
        }
        i := i + 1;
      }
      assert lines[..|lines|] == lines;
    }

    /** `AuthDB::findPassword`: on a hit, the stored password replaces the
        caller's value; on a miss the caller's value is left as it was. */
    method FindPassword(login: string, outPassword: string) returns (found: bool, password: string)
      ensures found <==> login in db
      ensures found ==> password == db[login]
      ensures !found ==> password == outPassword
    {
      if login !in db {
        return false, outPassword;
      }
      return true, db[login];
    }
  }
}
