/**
 * The user directory of server/Database.cpp: a QMap from username to `User`
 * record, kept here as a sequence of records in strictly increasing key
 * order, which is what iterating a QMap visits.
 */
module Directory {
  import opened Wrappers
  import opened Text

  /** A directory record (`struct User`); `password` holds the stored hash. */
  datatype User = User(
    username: string,
    password: string,
    fullName: string,
    department: string,
    position: string,
    isOnline: bool)

  /** `User()`: every field empty, offline. */
  const NoUser: User := User("", "", "", "", "", false)

  /** `User(user, pass, name, dept, pos)`: a record that starts offline. */
  function NewUser(user: string, pass: string, name: string, dept: string, pos: string): User
  {
    User(user, pass, name, dept, pos, false)
  }

  /** The constant appended to a password before it is hashed. */
  const Salt: string := "salt_secret_key"

  /** `hashPassword`: SHA-256 (a parameter here) of the salted password, as hex. */
  function HashPassword(sha256: string -> string, password: string): string
  {
    sha256(password + Salt)
  }

  /** The record as list queries return it: the password blanked. */
  function Blank(u: User): User
  {
    u.(password := "")
  }

  // ---------------------------------------------------------------------------
  // The map: records in strictly increasing username order
  // ---------------------------------------------------------------------------

  ghost predicate Sorted(us: seq<User>)
  {
    forall i, j :: 0 <= i < j < |us| ==> Less(us[i].username, us[j].username)
  }

  /** `users.contains(name)`. */
  predicate Has(us: seq<User>, name: string)
  {
    exists v :: v in us && v.username == name
  }

  /** In a sorted directory a username names at most one record. */
  lemma SortedUnique(us: seq<User>, v: User, w: User)
    requires Sorted(us) && v in us && w in us && v.username == w.username
    ensures v == w
  {
    var i, j :| 0 <= i < |us| && 0 <= j < |us| && us[i] == v && us[j] == w;
    if i < j || j < i {
      LessIrreflexive(v.username);
    }
  }

  /** Every record after the first has a larger username than the first. */
  lemma SortedFirst(us: seq<User>)
    requires Sorted(us) && |us| > 0
    ensures Sorted(us[1..])
    ensures forall v :: v in us[1..] ==> Less(us[0].username, v.username)
  {
    forall v | v in us[1..] ensures Less(us[0].username, v.username) {
      var j :| 0 <= j < |us[1..]| && us[1..][j] == v;
      assert us[j + 1] == v;
    }
  }

  /** A name below the first record's is below every record's. */
  lemma BelowFirst(us: seq<User>, name: string)
    requires Sorted(us) && |us| > 0 && Less(name, us[0].username)
    ensures forall v :: v in us ==> Less(name, v.username)
  {
    SortedFirst(us);
    forall v | v in us ensures Less(name, v.username) {
      if v != us[0] {
        LessTransitive(name, us[0].username, v.username);
      }
    }
  }

  /** A record below every record of a sorted directory can go in front. */
  lemma SortedCons(u: User, us: seq<User>)
    requires Sorted(us) && forall v :: v in us ==> Less(u.username, v.username)
    ensures Sorted([u] + us)
  {
    var r := [u] + us;
    forall i, j | 0 <= i < j < |r| ensures Less(r[i].username, r[j].username) {
      assert r[j] == us[j - 1];
      if i > 0 {
        assert r[i] == us[i - 1];
      }
    }
  }

  /** `users[name]` when present. */
  function Find(us: seq<User>, name: string): (r: Option<User>)
    ensures r.Some? <==> Has(us, name)
    ensures r.Some? ==> r.value in us && r.value.username == name
  {
    if us == [] then None
    else if us[0].username == name then Some(us[0])
    else Find(us[1..], name)
  }

  /** `users[u.username] = u`: the record replaces any with its name, order is kept. */
  function Insert(us: seq<User>, u: User): (r: seq<User>)
    requires Sorted(us)
    ensures InsertedAs(us, u, r)
  {
    if us == [] then [u]
    else if us[0].username == u.username then
      InsertReplacing(us, u);
      [u] + us[1..]
    else if Less(u.username, us[0].username) then
      InsertBefore(us, u);
      [u] + us
    else
      SortedFirst(us);
      var rest := Insert(us[1..], u);
      InsertAfter(us, u, rest);
      [us[0]] + rest
  }

  /** What `Insert` promises: sorted, `u` in place of any record with its name, the size grows only for a new name. */
  ghost predicate InsertedAs(us: seq<User>, u: User, r: seq<User>)
  {
    && Sorted(r)
    && (forall v :: v in r <==> v == u || (v in us && v.username != u.username))
    && |r| == if Has(us, u.username) then |us| else |us| + 1
  }

  lemma InsertReplacing(us: seq<User>, u: User)
    requires Sorted(us) && |us| > 0 && us[0].username == u.username
    ensures InsertedAs(us, u, [u] + us[1..])
  {
    SortedFirst(us);
    assert forall v :: v in us[1..] ==> v.username != u.username by {
      LessIrreflexive(u.username);
    }
    assert us == [us[0]] + us[1..];
    SortedCons(u, us[1..]);
  }

  lemma InsertBefore(us: seq<User>, u: User)
    requires Sorted(us) && |us| > 0 && Less(u.username, us[0].username)
    ensures InsertedAs(us, u, [u] + us)
  {
    BelowFirst(us, u.username);
    assert !Has(us, u.username) by { LessIrreflexive(u.username); }
    SortedCons(u, us);
  }

  lemma InsertAfter(us: seq<User>, u: User, rest: seq<User>)
    requires Sorted(us) && |us| > 0 && us[0].username != u.username && !Less(u.username, us[0].username)
    requires InsertedAs(us[1..], u, rest)
    ensures InsertedAs(us, u, [us[0]] + rest)
  {
    SortedFirst(us);
    LessTotal(u.username, us[0].username);
    assert us == [us[0]] + us[1..];
    assert Has(us, u.username) == Has(us[1..], u.username);
    assert forall v :: v in rest ==> Less(us[0].username, v.username);
    SortedCons(us[0], rest);
  }

  /** Inserting a record whose name is above every name appends it. */
  lemma {:induction false} InsertLast(us: seq<User>, u: User)
    requires Sorted(us)
    requires forall v :: v in us ==> Less(v.username, u.username)
    ensures Insert(us, u) == us + [u]
  {
    if us != [] {
      assert us[0] in us;
      LessAsymmetric(us[0].username, u.username);
      LessIrreflexive(u.username);
      assert Insert(us, u) == [us[0]] + Insert(us[1..], u);
      SortedFirst(us);
      assert forall v :: v in us[1..] ==> v in us;
      InsertLast(us[1..], u);
      ConsSnoc(us, u);
    }
  }

  lemma ConsSnoc<T>(s: seq<T>, x: T)
    requires |s| > 0
    ensures [s[0]] + (s[1..] + [x]) == s + [x]
  {
  }

  // ---------------------------------------------------------------------------
  // Queries
  // ---------------------------------------------------------------------------

  /** The loop shared by the list queries: the kept records, password blanked, in key order. */
  function Select(us: seq<User>, keep: User -> bool): (r: seq<User>)
    ensures |r| <= |us|
    ensures forall u :: u in r ==> exists v :: v in us && keep(v) && u == Blank(v)
    ensures forall v :: v in us && keep(v) ==> Blank(v) in r
  {
    if us == [] then []
    else
      var rest := Select(us[1..], keep);
      assert us == [us[0]] + us[1..];
      if keep(us[0]) then [Blank(us[0])] + rest else rest
  }

  /** The list queries keep the key order. */
  lemma {:induction false} SelectSorted(us: seq<User>, keep: User -> bool)
    ensures Sorted(us) ==> Sorted(Select(us, keep))
  {
    if us != [] && Sorted(us) {
      SortedFirst(us);
      var rest := Select(us[1..], keep);
      SelectSorted(us[1..], keep);
      if keep(us[0]) {
        forall u | u in rest ensures Less(us[0].username, u.username) {
          var v :| v in us[1..] && keep(v) && u == Blank(v);
        }
        SortedCons(Blank(us[0]), rest);
      }
    }
  }

  /** `getAllUsers`. */
  function GetAllUsers(us: seq<User>): (r: seq<User>)
    ensures forall u :: u in r <==> exists v :: v in us && u == Blank(v)
    ensures Sorted(us) ==> Sorted(r)
  {
    SelectSorted(us, (v: User) => true);
    Select(us, (v: User) => true)
  }

  /** `getOnlineUsers`. */
  function GetOnlineUsers(us: seq<User>): (r: seq<User>)
    ensures forall u :: u in r <==> exists v :: v in us && v.isOnline && u == Blank(v)
    ensures Sorted(us) ==> Sorted(r)
  {
    SelectSorted(us, (v: User) => v.isOnline);
    Select(us, (v: User) => v.isOnline)
  }

  /** The search test: the lower-cased query occurs in the lower-cased username, full name or department. */
  predicate Matches(v: User, lowerQuery: string)
  {
    || Contains(Lower(v.username), lowerQuery)
    || Contains(Lower(v.fullName), lowerQuery)
    || Contains(Lower(v.department), lowerQuery)
  }

  /** `searchUsers`. */
  function SearchUsers(us: seq<User>, query: string): (r: seq<User>)
    ensures forall u :: u in r <==> exists v :: v in us && Matches(v, Lower(query)) && u == Blank(v)
    ensures Sorted(us) ==> Sorted(r)
  {
    SelectSorted(us, (v: User) => Matches(v, Lower(query)));
    Select(us, (v: User) => Matches(v, Lower(query)))
  }

  /** An empty query matches every record. */
  lemma SearchEmptyQuery(us: seq<User>)
    ensures SearchUsers(us, "") == GetAllUsers(us)
  {
    forall v | v in us ensures Matches(v, Lower("")) {
      assert OccursAt(Lower(v.username), "", 0);
    }
    SelectSame(us, (v: User) => Matches(v, Lower("")), (v: User) => true);
  }

  /** Two tests that agree on every record select the same records. */
  lemma {:induction false} SelectSame(us: seq<User>, keep1: User -> bool, keep2: User -> bool)
    requires forall v :: v in us ==> keep1(v) == keep2(v)
    ensures Select(us, keep1) == Select(us, keep2)
  {
    if us != [] {
      assert forall v :: v in us[1..] ==> v in us;
      SelectSame(us[1..], keep1, keep2);
    }
  }

  /** `getUsersByDepartment`: an exact, case-sensitive comparison. */
  function GetUsersByDepartment(us: seq<User>, department: string): (r: seq<User>)
    ensures forall u :: u in r <==> exists v :: v in us && v.department == department && u == Blank(v)
    ensures Sorted(us) ==> Sorted(r)
  {
    SelectSorted(us, (v: User) => v.department == department);
    Select(us, (v: User) => v.department == department)
  }

  /** `userExists`. */
  function UserExists(us: seq<User>, name: string): (b: bool)
    ensures b <==> exists v :: v in us && v.username == name
  {
    Find(us, name).Some?
  }

  /** `getUser`: the stored record, hash included, or `User()` when absent. */
  function GetUser(us: seq<User>, name: string): (r: User)
    requires Sorted(us)
    ensures Has(us, name) ==> r in us && r.username == name
    ensures !Has(us, name) ==> r == NoUser
  {
    match Find(us, name)
    case Some(v) => v
    case None => NoUser
  }

  /** `isUserOnline`: false for an unknown username. */
  function IsUserOnline(us: seq<User>, name: string): (b: bool)
    requires Sorted(us)
    ensures b <==> exists v :: v in us && v.username == name && v.isOnline
  {
    match Find(us, name)
    case Some(v) =>
      assert forall w :: w in us && w.username == name ==> w == v by {
        forall w | w in us && w.username == name { SortedUnique(us, v, w); }
      }
      v.isOnline
    case None => false
  }

  /** `authenticateUser`: the user exists and its stored hash is the hash of `password`. */
  function AuthenticateUser(us: seq<User>, sha256: string -> string, name: string, password: string): (ok: bool)
    requires Sorted(us)
    ensures ok <==> exists v :: v in us && v.username == name && v.password == HashPassword(sha256, password)
  {
    match Find(us, name)
    case Some(v) =>
      assert forall w :: w in us && w.username == name ==> w == v by {
        forall w | w in us && w.username == name { SortedUnique(us, v, w); }
      }
      v.password == HashPassword(sha256, password)
    case None => false
  }

  // ---------------------------------------------------------------------------
  // Updates
  // ---------------------------------------------------------------------------

  /** The record `registerUser` stores: the password replaced by its hash, offline. */
  function Stored(sha256: string -> string, user: User): User
  {
    user.(password := HashPassword(sha256, user.password), isOnline := false)
  }

  /** A registered user can log in with the password it registered with. */
  lemma RegisteredAuthenticates(us: seq<User>, sha256: string -> string, user: User)
    requires Sorted(us)
    ensures AuthenticateUser(Insert(us, Stored(sha256, user)), sha256, user.username, user.password)
    ensures !IsUserOnline(Insert(us, Stored(sha256, user)), user.username)
  {
    var r := Insert(us, Stored(sha256, user));
    assert Stored(sha256, user) in r;
    forall v | v in r && v.username == user.username ensures !v.isOnline {
      SortedUnique(r, v, Stored(sha256, user));
    }
  }

  /** `users[name].isOnline = online` when `name` is present. */
  function SetOnlineIn(us: seq<User>, name: string, online: bool): (r: seq<User>)
    ensures |r| == |us|
    ensures forall i :: 0 <= i < |us| ==> r[i] == if us[i].username == name then us[i].(isOnline := online) else us[i]
  {
    seq(|us|, i requires 0 <= i < |us| => if us[i].username == name then us[i].(isOnline := online) else us[i])
  }

  /**
   * Setting the online flag keeps the key order, is a no-op for an unknown
   * username, sets the flag of the named user and leaves every other record
   * as it was.
   */
  lemma {:induction false} SetOnlineEffect(us: seq<User>, name: string, online: bool)
    requires Sorted(us)
    ensures Sorted(SetOnlineIn(us, name, online))
    ensures !Has(us, name) ==> SetOnlineIn(us, name, online) == us
    ensures Has(us, name) ==> IsUserOnline(SetOnlineIn(us, name, online), name) == online
    ensures !online ==> !IsUserOnline(SetOnlineIn(us, name, online), name)
    ensures forall n :: n != name ==> Find(SetOnlineIn(us, name, online), n) == Find(us, n)
    ensures forall n :: n != name ==> IsUserOnline(SetOnlineIn(us, name, online), n) == IsUserOnline(us, n)
  {
    var r := SetOnlineIn(us, name, online);
    if Has(us, name) {
      var v :| v in us && v.username == name;
      var i :| 0 <= i < |us| && us[i] == v;
      assert r[i] == v.(isOnline := online);
      forall w | w in r && w.username == name ensures w.isOnline == online {
        var j :| 0 <= j < |r| && r[j] == w;
      }
    }
    forall n | n != name ensures Find(r, n) == Find(us, n) {
      FindUnchanged(us, r, n);
    }
  }

  /** `SetOnlineEffect` for one username `n`: the online flag seen after the update. */
  lemma {:induction false} OnlineAfter(us: seq<User>, name: string, online: bool, n: string)
    requires Sorted(us)
    ensures Sorted(SetOnlineIn(us, name, online))
    ensures IsUserOnline(SetOnlineIn(us, name, online), n) ==
      if n == name then online && Has(us, name) else IsUserOnline(us, n)
  {
    SetOnlineEffect(us, name, online);
    if n == name && !Has(us, name) {
      assert SetOnlineIn(us, name, online) == us;
    }
  }

  /** A registry keyed by username agrees with the directory: a name is a key iff its user is online. */
  ghost predicate OnlineExactly<S>(registry: map<string, S>, us: seq<User>)
    requires Sorted(us)
  {
    forall n :: n in registry <==> IsUserOnline(us, n)
  }

  /** Registering a known name and marking it online keeps registry and directory in step. */
  lemma {:induction false} OnlineExactlyAdd<S>(registry: map<string, S>, us: seq<User>, name: string, s: S)
    requires Sorted(us) && OnlineExactly(registry, us) && Has(us, name)
    ensures Sorted(SetOnlineIn(us, name, true))
    ensures OnlineExactly(registry[name := s], SetOnlineIn(us, name, true))
  {
    OnlineAfter(us, name, true, name);
    forall n ensures n in registry[name := s] <==> IsUserOnline(SetOnlineIn(us, name, true), n) {
      OnlineAfter(us, name, true, n);
    }
  }

  /** Dropping a name and marking it offline keeps registry and directory in step, known name or not. */
  lemma {:induction false} OnlineExactlyRemove<S>(registry: map<string, S>, us: seq<User>, name: string)
    requires Sorted(us) && OnlineExactly(registry, us)
    ensures Sorted(SetOnlineIn(us, name, false))
    ensures OnlineExactly(registry - {name}, SetOnlineIn(us, name, false))
  {
    OnlineAfter(us, name, false, name);
    forall n ensures n in registry - {name} <==> IsUserOnline(SetOnlineIn(us, name, false), n) {
      RemovedAt(registry, us, name, n);
      KeyRemoved(registry, name, n);
    }
  }

  lemma KeyRemoved<K, V>(m: map<K, V>, k: K, n: K)
    ensures n in m - {k} <==> n in m && n != k
  {
  }

  lemma {:induction false} RemovedAt<S>(registry: map<string, S>, us: seq<User>, name: string, n: string)
    requires Sorted(us) && OnlineExactly(registry, us)
    ensures Sorted(SetOnlineIn(us, name, false))
    ensures n in registry && n != name <==> IsUserOnline(SetOnlineIn(us, name, false), n)
  {
    OnlineAfter(us, name, false, n);
    assert n in registry <==> IsUserOnline(us, n);
  }

  /** Two directories that agree on every record named `n`, position by position, agree on `Find(_, n)`. */
  lemma {:induction false} FindUnchanged(us: seq<User>, r: seq<User>, n: string)
    requires |r| == |us|
    requires forall i :: 0 <= i < |us| ==> r[i].username == us[i].username
    requires forall i :: 0 <= i < |us| && us[i].username == n ==> r[i] == us[i]
    ensures Find(r, n) == Find(us, n)
  {
    if us != [] {
      FindUnchanged(us[1..], r[1..], n);
    }
  }

  // ---------------------------------------------------------------------------
  // The line format of save and load
  // ---------------------------------------------------------------------------

  /** One line of the users file as `save` writes it (without the newline). */
  function SaveLine(u: User): string
  {
    u.username + "|" + u.password + "|" + u.fullName + "|" + u.department + "|" + u.position
  }

  /** The lines `save` writes, one per record in key order. */
  function SaveLines(us: seq<User>): (lines: seq<string>)
    ensures |lines| == |us|
    ensures forall i :: 0 <= i < |us| ==> lines[i] == SaveLine(us[i])
  {
    seq(|us|, i requires 0 <= i < |us| => SaveLine(us[i]))
  }

  /** What `load` makes of one line: a record from its first five `|`-fields, offline; nothing if it has fewer. */
  function ParseLine(line: string): Option<User>
  {
    var parts := Split(line, '|');
    if |parts| >= 5 then Some(User(parts[0], parts[1], parts[2], parts[3], parts[4], false))
    else None
  }

  /** `load` over a sequence of lines: later lines for the same username win. */
  function LoadLines(us: seq<User>, lines: seq<string>): (r: seq<User>)
    requires Sorted(us)
    ensures Sorted(r)
    ensures (forall u :: u in us ==> !u.isOnline) ==> forall u :: u in r ==> !u.isOnline
    decreases |lines|
  {
    if lines == [] then us
    else
      var before := LoadLines(us, lines[..|lines| - 1]);
      match ParseLine(lines[|lines| - 1])
      case Some(u) => Insert(before, u)
      case None => before
  }

  /** One more line loaded: its record, if it parses, goes in over the earlier ones. */
  lemma LoadLinesStep(us: seq<User>, lines: seq<string>, i: nat)
    requires Sorted(us) && i < |lines|
    ensures LoadLines(us, lines[..i + 1]) ==
      match ParseLine(lines[i])
      case Some(u) => Insert(LoadLines(us, lines[..i]), u)
      case None => LoadLines(us, lines[..i])
  {
    PrefixStep(lines, i);
  }

  lemma PrefixStep<T>(s: seq<T>, i: nat)
    requires i < |s|
    ensures s[..i + 1][..i] == s[..i] && s[..i + 1][i] == s[i] && |s[..i + 1]| == i + 1
  {
  }

  lemma WholePrefix<T>(s: seq<T>)
    ensures s[..|s|] == s
  {
  }

  /** A record with no `|` in any field. */
  predicate Clean(u: User)
  {
    '|' !in u.username && '|' !in u.password && '|' !in u.fullName
    && '|' !in u.department && '|' !in u.position
  }

  /** A saved line reads back as the same record, offline. */
  lemma ParseSaveLine(u: User)
    requires Clean(u)
    ensures ParseLine(SaveLine(u)) == Some(u.(isOnline := false))
  {
    var rest4 := u.position;
    var rest3 := u.department + "|" + rest4;
    var rest2 := u.fullName + "|" + rest3;
    var rest1 := u.password + "|" + rest2;
    assert SaveLine(u) == u.username + "|" + rest1;
    SplitCons(u.username, '|', rest1);
    SplitCons(u.password, '|', rest2);
    SplitCons(u.fullName, '|', rest3);
    SplitCons(u.department, '|', rest4);
    SplitNoSep(u.position, '|');
  }

  /** Every record offline, as after `load`. */
  function Offline(us: seq<User>): (r: seq<User>)
    ensures |r| == |us|
    ensures forall i :: 0 <= i < |us| ==> r[i] == us[i].(isOnline := false)
  {
    seq(|us|, i requires 0 <= i < |us| => us[i].(isOnline := false))
  }

  /** Saving a directory and loading the file into an empty one gives back its records, offline. */
  lemma {:induction false} SaveLoadRoundTrip(us: seq<User>)
    requires Sorted(us)
    requires forall u :: u in us ==> Clean(u)
    ensures LoadLines([], SaveLines(us)) == Offline(us)
    decreases |us|
  {
    if us != [] {
      var n := |us| - 1;
      var init, last := us[..n], us[n].(isOnline := false);
      var lines := SaveLines(us);
      assert lines[..n] == SaveLines(init);
      assert us[n] in us;
      ParseSaveLine(us[n]);
      assert LoadLines([], lines) == Insert(LoadLines([], SaveLines(init)), last);
      SortedInit(us);
      SaveLoadRoundTrip(init);
      InsertLast(Offline(init), last);
      InitLast(us);
      OfflineSnoc(init, us[n]);
    }
  }

  lemma InitLast<T>(us: seq<T>)
    requires |us| > 0
    ensures us == us[..|us| - 1] + [us[|us| - 1]]
  {
  }

  lemma OfflineSnoc(us: seq<User>, u: User)
    ensures Offline(us + [u]) == Offline(us) + [u.(isOnline := false)]
  {
    var a, b := Offline(us + [u]), Offline(us) + [u.(isOnline := false)];
    assert |a| == |b|;
    forall i | 0 <= i < |a| ensures a[i] == b[i] {
      if i < |us| {
        assert (us + [u])[i] == us[i];
      }
    }
  }

  /** The records before the last of a sorted directory are sorted and below it, offline or not. */
  lemma SortedInit(us: seq<User>)
    requires Sorted(us) && |us| > 0
    ensures Sorted(us[..|us| - 1])
    ensures forall v :: v in Offline(us[..|us| - 1]) ==> Less(v.username, us[|us| - 1].username)
  {
    var n := |us| - 1;
    forall v | v in Offline(us[..n]) ensures Less(v.username, us[n].username) {
      var i :| 0 <= i < n && Offline(us[..n])[i] == v;
    }
  }

  // ---------------------------------------------------------------------------
  // The directory object
  // ---------------------------------------------------------------------------

  /** `class Database`: the user map and the hash it stores passwords under. */
  class Database {
    var users: seq<User>
    const sha256: string -> string

    ghost predicate Valid()
      reads this
    {
      Sorted(users)
    }

    /** The constructor loads the users file, given here as its lines (none if it is missing). */
    constructor (hash: string -> string, file: seq<string>)
      ensures Valid() && sha256 == hash
      ensures users == LoadLines([], file)
      ensures forall u :: u in users ==> !u.isOnline
    {
      sha256 := hash;
      users := [];
      new;
      Load(file);
    }

    /** `registerUser`: refuses an existing username, else stores the record hashed and offline. */
    method RegisterUser(user: User) returns (ok: bool)
      requires Valid()
      modifies this`users
      ensures Valid()
      ensures ok <==> !Has(old(users), user.username)
      ensures users == if ok then Insert(old(users), Stored(sha256, user)) else old(users)
      ensures ok ==> |users| == |old(users)| + 1
      ensures ok ==> AuthenticateUser(users, sha256, user.username, user.password)
    {
      if Find(users, user.username).Some? {
        return false;
      }
      RegisteredAuthenticates(users, sha256, user);
      users := Insert(users, Stored(sha256, user));
      ok := true;
    }

    /** `setUserOnline`: only the named user's flag changes; unknown names change nothing. */
    method SetUserOnline(name: string, online: bool)
      requires Valid()
      modifies this`users
      ensures Valid()
      ensures users == SetOnlineIn(old(users), name, online)
      ensures !Has(old(users), name) ==> users == old(users)
    {
      SetOnlineEffect(users, name, online);
      if Find(users, name).Some? {
        users := SetOnlineIn(users, name, online);
      }
    }

    /** `load`: reads the lines in order into the map. */
    method Load(lines: seq<string>)
      requires Valid()
      modifies this`users
      ensures Valid()
      ensures users == LoadLines(old(users), lines)
    {
      var i := 0;
      while i < |lines|
        invariant 0 <= i <= |lines|
        invariant Valid()
        invariant users == LoadLines(old(users), lines[..i])
      {
        LoadLinesStep(old(users), lines, i);
        LoadLine(lines[i]);
        i := i + 1;
      }
      WholePrefix(lines);
    }

    /** One iteration of `load`: a line with five fields replaces the record of its username. */
    method LoadLine(line: string)
      requires Valid()
      modifies this`users
      ensures Valid()
      ensures users == match ParseLine(line) case Some(u) => Insert(old(users), u) case None => old(users)
    {
      var parsed := ParseLine(line);
      if parsed.Some? {
        users := Insert(users, parsed.value);
      }
    }
  }
}
