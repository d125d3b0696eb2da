/**
 * The server: `class Server` (server/Server.cpp), the registry of logged-in
 * sessions and the router between them, and `class ClientSession`
 * (server/ClientSession.cpp), one connection's framing, decode loop and
 * request dispatch. A session's socket is two byte sequences: `inbox`, what
 * has been received and not yet read, and `outbox`, everything written.
 */
module ChatServer {
  import opened Wrappers
  import opened Framing
  import opened Json
  import Text
  import Directory

  type User = Directory.User

  // ---------------------------------------------------------------------------
  // Requests, as `handleMessage` reads them
  // ---------------------------------------------------------------------------

  /** A request object, classified by its "type" field. */
  datatype Request =
    | Register(user: User)
    | Login(username: string, password: string)
    | Logout
    | UserList
    | Search(query: string)
    | Chat(recipient: string, content: string)
    | Other

  /**
   * The dispatch of `handleMessage`: the "type" string picks the branch and each
   * branch reads its own fields with `toString()`, so a missing field reads as "".
   */
  function ParseRequest(o: JsonObject): Request
  {
    var t := StringAt(o, "type");
    if t == "register" then
      Register(Directory.NewUser(StringAt(o, "username"), StringAt(o, "password"),
        StringAt(o, "full_name"), StringAt(o, "department"), StringAt(o, "position")))
    else if t == "login" then Login(StringAt(o, "username"), StringAt(o, "password"))
    else if t == "logout" then Logout
    else if t == "user_list_request" then UserList
    else if t == "search_users" then Search(StringAt(o, "query"))
    else if t == "message" then Chat(StringAt(o, "recipient"), StringAt(o, "content"))
    else Other
  }

  /** Every "type" other than the six the server knows is ignored. */
  lemma UnknownTypeIgnored(o: JsonObject)
    requires StringAt(o, "type") !in ["register", "login", "logout", "user_list_request", "search_users", "message"]
    ensures ParseRequest(o) == Other
  {
  }

  // ---------------------------------------------------------------------------
  // Replies and pushes
  // ---------------------------------------------------------------------------

  function RegisterResponse(ok: bool): JsonObject
  {
    map["type" := JString("register_response"), "success" := JBool(ok),
        "message" := JString(if ok then "Registration successful" else "Username already exists")]
  }

  function LoginResponse(ok: bool): JsonObject
  {
    map["type" := JString("login_response"), "success" := JBool(ok),
        "message" := JString(if ok then "Login successful" else "Invalid credentials")]
  }

  function UserListResponse(entries: seq<string>): JsonObject
  {
    map["type" := JString("user_list"), "users" := JArray(StringArray(entries))]
  }

  function SearchResultsResponse(entries: seq<string>): JsonObject
  {
    map["type" := JString("search_results"), "results" := JArray(StringArray(entries))]
  }

  /** `sendMessage`: a chat message pushed to its recipient, stamped with the server's clock `now`. */
  function MessagePush(sender: string, content: string, now: string): JsonObject
  {
    map["type" := JString("message"), "sender" := JString(sender),
        "content" := JString(content), "timestamp" := JString(now)]
  }

  /** `sendError`. */
  function ErrorPush(error: string): JsonObject
  {
    map["type" := JString("error"), "message" := JString(error)]
  }

  function OfflineError(recipient: string): string
  {
    "User is offline: " + recipient
  }

  // ---------------------------------------------------------------------------
  // User entries of the list and search replies
  // ---------------------------------------------------------------------------

  /** `QString("%1|%2|%3|%4|status")` filled with a user's fields. */
  function Entry(u: User, status: string): string
  {
    u.username + "|" + u.fullName + "|" + u.department + "|" + u.position + "|" + status
  }

  function Status(u: User): string
  {
    if u.isOnline then "online" else "offline"
  }

  /** The displayed fields hold no separator. */
  predicate Plain(u: User)
  {
    '|' !in u.username && '|' !in u.fullName && '|' !in u.department && '|' !in u.position
  }

  /** An entry splits back into the user's four displayed fields and the status. */
  lemma EntryFields(u: User, status: string)
    requires Plain(u) && '|' !in status
    ensures Text.Split(Entry(u, status), '|') == [u.username, u.fullName, u.department, u.position, status]
  {
    var rest4 := u.position + "|" + status;
    var rest3 := u.department + "|" + rest4;
    var rest2 := u.fullName + "|" + rest3;
    assert Entry(u, status) == u.username + "|" + rest2;
    Text.SplitCons(u.username, '|', rest2);
    Text.SplitCons(u.fullName, '|', rest3);
    Text.SplitCons(u.department, '|', rest4);
    Text.SplitCons(u.position, '|', status);
    Text.SplitNoSep(status, '|');
  }

  /** The user-list reply: every online user but the caller, tagged "online", in key order. */
  function UserListEntries(users: seq<User>, self: string): (es: seq<string>)
    ensures |es| <= |users|
    ensures forall e :: e in es <==> exists u :: u in users && u.username != self && e == Entry(u, "online")
  {
    if users == [] then []
    else
      var n := |users| - 1;
      var init := UserListEntries(users[..n], self);
      assert forall u :: u in users <==> u in users[..n] || u == users[n] by {
        assert users == users[..n] + [users[n]];
      }
      init + if users[n].username != self then [Entry(users[n], "online")] else []
  }

  /** The search reply: one entry per user, in order, tagged by its online flag. */
  function SearchEntries(users: seq<User>): (es: seq<string>)
    ensures |es| == |users|
    ensures forall i :: 0 <= i < |users| ==> es[i] == Entry(users[i], Status(users[i]))
  {
    seq(|users|, i requires 0 <= i < |users| => Entry(users[i], Status(users[i])))
  }

  /** No entry of the user-list reply names the caller, and every entry reads "online". */
  lemma UserListExcludesCaller(users: seq<User>, self: string)
    requires forall u :: u in users ==> Plain(u)
    ensures forall e :: e in UserListEntries(users, self) ==>
      var parts := Text.Split(e, '|');
      |parts| == 5 && parts[0] != self && parts[4] == "online"
  {
    forall e | e in UserListEntries(users, self)
      ensures var parts := Text.Split(e, '|'); |parts| == 5 && parts[0] != self && parts[4] == "online"
    {
      var u :| u in users && u.username != self && e == Entry(u, "online");
      EntryFields(u, "online");
    }
  }

  /** Every search entry ends in "online" or "offline" as its user's flag says. */
  lemma SearchEntriesTagged(users: seq<User>)
    requires forall u :: u in users ==> Plain(u)
    ensures forall i :: 0 <= i < |users| ==>
      Text.Split(SearchEntries(users)[i], '|') ==
        [users[i].username, users[i].fullName, users[i].department, users[i].position,
         if users[i].isOnline then "online" else "offline"]
  {
    forall i | 0 <= i < |users|
      ensures Text.Split(SearchEntries(users)[i], '|') ==
        [users[i].username, users[i].fullName, users[i].department, users[i].position,
         if users[i].isOnline then "online" else "offline"]
    {
      EntryFields(users[i], Status(users[i]));
    }
  }

  /** The loop of the "user_list_request" branch that fills the reply array. */
  method BuildUserList(users: seq<User>, self: string) returns (entries: seq<string>)
    ensures entries == UserListEntries(users, self)
  {
    entries := [];
    var i := 0;
    while i < |users|
      invariant 0 <= i <= |users|
      invariant entries == UserListEntries(users[..i], self)
    {
      assert users[..i + 1][..i] == users[..i];
      if users[i].username != self {
        entries := entries + [Entry(users[i], "online")];
      }
      i := i + 1;
    }
    assert users[..i] == users;
  }

  /** The loop of the "search_users" branch that fills the reply array. */
  method BuildSearchResults(users: seq<User>) returns (entries: seq<string>)
    ensures |entries| == |users|
    ensures forall i :: 0 <= i < |users| ==> entries[i] == Entry(users[i], Status(users[i]))
  {
    entries := [];
    var i := 0;
    while i < |users|
      invariant 0 <= i <= |users|
      invariant |entries| == i
      invariant forall k :: 0 <= k < i ==> entries[k] == Entry(users[k], Status(users[k]))
    {
      entries := entries + [Entry(users[i], Status(users[i]))];
      i := i + 1;
    }
  }

  /** Storing a value under a key adds at most that value to a map's values. */
  lemma ValuesOfUpdate<K, V>(m: map<K, V>, k: K, v: V)
    ensures m[k := v].Values <= m.Values + {v}
  {
    forall x | x in m[k := v].Values ensures x in m.Values + {v} {
      var j :| j in m[k := v] && m[k := v][j] == x;
      if j != k { assert j in m && m[j] == x; }
    }
  }

  // ---------------------------------------------------------------------------
  // The registry
  // ---------------------------------------------------------------------------

  /** `class Server`: the directory and the sessions of logged-in users by username. */
  class Server {
    var clients: map<string, ClientSession>
    const database: Directory.Database

    ghost predicate Valid()
      reads this, database
    {
      database.Valid()
    }

    /** The registry and the directory's online flags agree: a username is registered iff it is online. */
    ghost predicate Consistent()
      requires Valid()
      reads this, database
    {
      Directory.OnlineExactly(clients, database.users)
    }

    /** The listening socket is not modelled; the server starts with no clients. */
    constructor (database: Directory.Database)
      requires database.Valid()
      ensures Valid() && this.database == database && clients == map[]
      ensures (forall u :: u in database.users ==> !u.isOnline) ==> Consistent()
    {
      this.database := database;
      clients := map[];
    }

    /** `registerUser`: delegates to the directory; the registry is untouched. */
    method RegisterUser(user: User) returns (ok: bool)
      requires Valid()
      modifies database`users
      ensures Valid()
      ensures ok <==> !Directory.Has(old(database.users), user.username)
      ensures database.users ==
        if ok then Directory.Insert(old(database.users), Directory.Stored(database.sha256, user))
        else old(database.users)
      ensures old(Consistent()) ==> Consistent()
    {
      ok := database.RegisterUser(user);
      if ok {
        Directory.RegisteredAuthenticates(old(database.users), database.sha256, user);
      }
    }

    /** `authenticateUser`: the directory's answer. */
    function AuthenticateUser(name: string, password: string): (ok: bool)
      requires Valid()
      reads this, database
      ensures ok <==> exists v :: v in database.users && v.username == name &&
                        v.password == Directory.HashPassword(database.sha256, password)
    {
      Directory.AuthenticateUser(database.users, database.sha256, name, password)
    }

    /** `getOnlineUsers`: the directory's online users, passwords blanked. */
    function GetOnlineUsers(): (r: seq<User>)
      reads this, database
      ensures forall u :: u in r <==> exists v :: v in database.users && v.isOnline && u == Directory.Blank(v)
    {
      Directory.GetOnlineUsers(database.users)
    }

    /** `searchUsers`: the directory's search, passwords blanked. */
    function SearchUsers(query: string): (r: seq<User>)
      reads this, database
      ensures forall u :: u in r <==>
        exists v :: v in database.users && Directory.Matches(v, Text.Lower(query)) && u == Directory.Blank(v)
    {
      Directory.SearchUsers(database.users, query)
    }

    /**
     * `addClient`: the session replaces any entry already under `name` (a
     * second login is not refused) and the user is marked online.
     */
    method AddClient(name: string, session: ClientSession)
      requires Valid()
      modifies this`clients, database`users
      ensures Valid()
      ensures clients == old(clients)[name := session]
      ensures database.users == Directory.SetOnlineIn(old(database.users), name, true)
      ensures Directory.Has(old(database.users), name) ==> Directory.IsUserOnline(database.users, name)
      ensures old(Consistent()) && Directory.Has(old(database.users), name) ==> Consistent()
    {
      Directory.SetOnlineEffect(database.users, name, true);
      if Directory.OnlineExactly(clients, database.users) && Directory.Has(database.users, name) {
        Directory.OnlineExactlyAdd(clients, database.users, name, session);
      }
      clients := clients[name := session];
      database.SetUserOnline(name, true);
    }

    /** `removeClient`: the entry goes and the user is marked offline; an unknown name changes nothing. */
    method RemoveClient(name: string)
      requires Valid()
      modifies this`clients, database`users
      ensures Valid()
      ensures clients == old(clients) - {name}
      ensures database.users == Directory.SetOnlineIn(old(database.users), name, false)
      ensures name !in clients && !Directory.IsUserOnline(database.users, name)
      ensures name !in old(clients) ==> clients == old(clients)
      ensures !Directory.Has(old(database.users), name) ==> database.users == old(database.users)
      ensures old(Consistent()) ==> Consistent()
    {
      ghost var users, before := database.users, clients;
      if name !in before {
        assert before - {name} == before;
      }
      Directory.SetOnlineEffect(users, name, false);
      if Directory.OnlineExactly(before, users) {
        Directory.OnlineExactlyRemove(before, users, name);
      }
      clients := clients - {name};
      database.SetUserOnline(name, false);
      assert clients == before - {name} && database.users == Directory.SetOnlineIn(users, name, false);
    }

    /** The session `deliverMessage` writes to: the recipient's, else the sender's, else none. */
    function DeliveryTarget(sender: string, recipient: string): Option<ClientSession>
      reads this
    {
      if recipient in clients then Some(clients[recipient])
      else if sender in clients then Some(clients[sender])
      else None
    }

    /**
     * `deliverMessage`: one message to a registered recipient, otherwise one
     * error to the sender if it is registered; no other session is written to.
     */
    method DeliverMessage(sender: string, recipient: string, content: string, now: string)
      modifies clients.Values`outbox
      ensures recipient in clients ==>
        clients[recipient].outbox == old(clients[recipient].outbox) + clients[recipient].Frame(MessagePush(sender, content, now))
      ensures recipient !in clients && sender in clients ==>
        clients[sender].outbox == old(clients[sender].outbox) + clients[sender].Frame(ErrorPush(OfflineError(recipient)))
      ensures forall s :: s in clients.Values && Some(s) != DeliveryTarget(sender, recipient) ==> s.outbox == old(s.outbox)
    {
      if recipient in clients {
        clients[recipient].SendMessage(sender, content, now);
      } else if sender in clients {
        clients[sender].SendError(OfflineError(recipient));
      }
    }
  }

  // ---------------------------------------------------------------------------
  // One connection
  // ---------------------------------------------------------------------------

  /** `class ClientSession`: one client connection and its login state. */
  class ClientSession {
    const server: Server
    const codec: JsonCodec
    var inbox: seq<Byte>
    var outbox: seq<Byte>
    var username: string
    var authenticated: bool
    var currentMessageSize: nat

    ghost predicate Valid()
      reads this, server, server.database
    {
      currentMessageSize < U32Limit && server.Valid()
    }

    /** A new session: nothing received or sent, not logged in, no header pending. */
    constructor (server: Server, codec: JsonCodec)
      requires server.Valid()
      ensures Valid() && this.server == server && this.codec == codec
      ensures inbox == [] && outbox == [] && username == "" && !authenticated && currentMessageSize == 0
    {
      this.server := server;
      this.codec := codec;
      inbox, outbox := [], [];
      username, authenticated, currentMessageSize := "", false, 0;
    }

    /** The bytes `sendResponse` writes for an object. */
    function Frame(o: JsonObject): seq<Byte>
    {
      EncodeFrame(codec.encode(o))
    }

    /** `sendResponse`: the compact JSON behind its quint32 length. */
    method SendResponse(json: JsonObject)
      modifies this`outbox
      ensures outbox == old(outbox) + Frame(json)
    {
      var data := codec.encode(json);
      var sizeData := Be32(|data| % U32Limit);
      outbox := outbox + sizeData;
      outbox := outbox + data;
    }

    method SendMessage(sender: string, content: string, now: string)
      modifies this`outbox
      ensures outbox == old(outbox) + Frame(MessagePush(sender, content, now))
    {
      SendResponse(MessagePush(sender, content, now));
    }

    method SendError(error: string)
      modifies this`outbox
      ensures outbox == old(outbox) + Frame(ErrorPush(error))
    {
      SendResponse(ErrorPush(error));
    }

    /** The "register" branch: the directory's answer goes back as a `register_response`. */
    method HandleRegister(user: User)
      requires Valid()
      modifies this`outbox, server.database`users
      ensures Valid()
      ensures old(server.Consistent()) ==> server.Consistent()
      ensures var ok := !Directory.Has(old(server.database.users), user.username);
        && server.database.users ==
             (if ok then Directory.Insert(old(server.database.users), Directory.Stored(server.database.sha256, user))
              else old(server.database.users))
        && outbox == old(outbox) + Frame(RegisterResponse(ok))
    {
      var ok := server.RegisterUser(user);
      SendResponse(RegisterResponse(ok));
    }

    /**
     * The "login" branch: on success the session takes the username, is
     * authenticated and registered (replacing any session already under that
     * name); on failure no state changes. Exactly one `login_response` is sent.
     */
    method HandleLogin(name: string, password: string)
      requires Valid()
      modifies this`username, this`authenticated, this`outbox, server`clients, server.database`users
      ensures Valid()
      ensures old(server.Consistent()) ==> server.Consistent()
      ensures server.clients.Values <= old(server.clients.Values) + {this}
      ensures var ok := Directory.AuthenticateUser(old(server.database.users), server.database.sha256, name, password);
        && outbox == old(outbox) + Frame(LoginResponse(ok))
        && (ok ==>
              && username == name && authenticated
              && server.clients == old(server.clients)[name := this]
              && server.database.users == Directory.SetOnlineIn(old(server.database.users), name, true))
        && (!ok ==>
              && username == old(username) && authenticated == old(authenticated)
              && server.clients == old(server.clients)
              && server.database.users == old(server.database.users))
    {
      var ok := server.AuthenticateUser(name, password);
      if ok {
        Admit(name);
      }
      SendResponse(LoginResponse(ok));
    }

    /** The success path of "login": the session takes the name and is registered under it. */
    method Admit(name: string)
      requires Valid() && Directory.Has(server.database.users, name)
      modifies this`username, this`authenticated, server`clients, server.database`users
      ensures Valid()
      ensures username == name && authenticated
      ensures server.clients == old(server.clients)[name := this]
      ensures server.database.users == Directory.SetOnlineIn(old(server.database.users), name, true)
      ensures server.clients.Values <= old(server.clients.Values) + {this}
      ensures old(server.Consistent()) ==> server.Consistent()
    {
      username := name;
      authenticated := true;
      ghost var pending := currentMessageSize;
      server.AddClient(username, this);
      assert currentMessageSize == pending;
      ValuesOfUpdate(old(server.clients), name, this);
    }

    /** The "logout" branch: a logged-in session leaves the registry and is logged out; nothing is sent. */
    method HandleLogout()
      requires Valid()
      modifies this`authenticated, server`clients, server.database`users
      ensures Valid()
      ensures old(server.Consistent()) ==> server.Consistent()
      ensures !authenticated
      ensures old(authenticated) ==>
        && server.clients == old(server.clients) - {username}
        && server.database.users == Directory.SetOnlineIn(old(server.database.users), username, false)
      ensures !old(authenticated) ==>
        server.clients == old(server.clients) && server.database.users == old(server.database.users)
    {
      if authenticated {
        server.RemoveClient(username);
        authenticated := false;
      }
    }

    /** The "user_list_request" branch: a reply listing online users, only to a logged-in session. */
    method HandleUserList()
      requires Valid()
      modifies this`outbox
      ensures outbox == old(outbox) +
        if authenticated then Frame(UserListResponse(UserListEntries(Directory.GetOnlineUsers(server.database.users), username)))
        else []
    {
      if authenticated {
        var users := server.GetOnlineUsers();
        var entries := BuildUserList(users, username);
        SendResponse(UserListResponse(entries));
      }
    }

    /** The "search_users" branch: a reply with the search results, only to a logged-in session. */
    method HandleSearch(query: string)
      requires Valid()
      modifies this`outbox
      ensures outbox == old(outbox) +
        if authenticated then Frame(SearchResultsResponse(SearchEntries(Directory.SearchUsers(server.database.users, query))))
        else []
    {
      if authenticated {
        var users := server.SearchUsers(query);
        var entries := BuildSearchResults(users);
        assert entries == SearchEntries(users);
        SendResponse(SearchResultsResponse(entries));
      }
    }

    /** The session a chat message of this session to `recipient` writes to, if any. */
    predicate ChatTarget(s: ClientSession, recipient: string)
      reads this, server
    {
      authenticated && Some(s) == server.DeliveryTarget(username, recipient)
    }

    /** The "message" branch: a logged-in session's chat message is routed by the server; otherwise nothing happens. */
    method HandleChat(recipient: string, content: string, now: string)
      modifies server.clients.Values`outbox
      ensures authenticated && recipient in server.clients ==>
        var t := server.clients[recipient];
        t.outbox == old(t.outbox) + t.Frame(MessagePush(username, content, now))
      ensures authenticated && recipient !in server.clients && username in server.clients ==>
        var t := server.clients[username];
        t.outbox == old(t.outbox) + t.Frame(ErrorPush(OfflineError(recipient)))
      ensures forall s :: s in server.clients.Values && !ChatTarget(s, recipient) ==> s.outbox == old(s.outbox)
    {
      if authenticated {
        server.DeliverMessage(username, recipient, content, now);
      }
    }

    /**
     * The effect of the "register", "login" and "logout" branches on the
     * session, the registry and the directory, and the reply each sends.
     */
    twostate predicate AccountEffect(request: Request)
      reads this, server, server.database
    {
      match request
      case Register(user) =>
        && Directory.Sorted(old(server.database.users))
        && var ok := !Directory.Has(old(server.database.users), user.username);
        && server.database.users ==
             (if ok then Directory.Insert(old(server.database.users), Directory.Stored(server.database.sha256, user))
              else old(server.database.users))
        && outbox == old(outbox) + Frame(RegisterResponse(ok))
        && username == old(username) && authenticated == old(authenticated) && server.clients == old(server.clients)
      case Login(name, password) =>
        && Directory.Sorted(old(server.database.users))
        && var ok := Directory.AuthenticateUser(old(server.database.users), server.database.sha256, name, password);
        && outbox == old(outbox) + Frame(LoginResponse(ok))
        && (ok ==>
              && username == name && authenticated
              && server.clients == old(server.clients)[name := this]
              && server.database.users == Directory.SetOnlineIn(old(server.database.users), name, true))
        && (!ok ==>
              && username == old(username) && authenticated == old(authenticated)
              && server.clients == old(server.clients)
              && server.database.users == old(server.database.users))
      case Logout =>
        && outbox == old(outbox) && username == old(username) && !authenticated
        && (old(authenticated) ==>
              && server.clients == old(server.clients) - {username}
              && server.database.users == Directory.SetOnlineIn(old(server.database.users), username, false))
        && (!old(authenticated) ==>
              server.clients == old(server.clients) && server.database.users == old(server.database.users))
      case _ => true
    }

    /**
     * The effect of the "user_list_request", "search_users" and "message"
     * branches for a logged-in session: the reply, or the routing of the
     * chat message, with no other session written to.
     */
    twostate predicate QueryEffect(request: Request, now: string, before: set<ClientSession>)
      requires before == old(server.clients.Values)
      reads this, server, server.database, before
    {
      authenticated ==>
        match request
        case UserList =>
          outbox == old(outbox) + Frame(UserListResponse(UserListEntries(Directory.GetOnlineUsers(server.database.users), username)))
        case Search(query) =>
          outbox == old(outbox) + Frame(SearchResultsResponse(SearchEntries(Directory.SearchUsers(server.database.users, query))))
        case Chat(recipient, content) =>
          && (recipient in old(server.clients) ==>
                var t := old(server.clients)[recipient];
                t.outbox == old(t.outbox) + t.Frame(MessagePush(username, content, now)))
          && (recipient !in old(server.clients) && username in old(server.clients) ==>
                var t := old(server.clients)[username];
                t.outbox == old(t.outbox) + t.Frame(ErrorPush(OfflineError(recipient))))
          && (forall s :: s in before && !ChatTarget(s, recipient) ==> s.outbox == old(s.outbox))
          && (!ChatTarget(this, recipient) ==> outbox == old(outbox))
        case _ => true
    }

    /**
     * What `handleMessage` does with a request, `before` being the sessions
     * registered when it starts: the branch's effect; protected requests from
     * a session that is not logged in and unknown types change nothing; only
     * a chat message writes to another session.
     */
    twostate predicate Handled(request: Request, now: string, before: set<ClientSession>)
      requires before == old(server.clients.Values)
      reads this, server, server.database, before
    {
      && (!request.Chat? ==> forall s :: s in before && s != this ==> s.outbox == old(s.outbox))
      && (request.Register? || request.Login? || request.Logout? ==> AccountEffect(request))
      && (request.UserList? || request.Search? || request.Chat? ==>
            && username == old(username) && authenticated == old(authenticated)
            && server.clients == old(server.clients) && server.database.users == old(server.database.users)
            && (!authenticated ==> outbox == old(outbox) && forall s :: s in before ==> s.outbox == old(s.outbox))
            && QueryEffect(request, now, before))
      && (request.Other? ==>
            && outbox == old(outbox) && username == old(username) && authenticated == old(authenticated)
            && server.clients == old(server.clients) && server.database.users == old(server.database.users))
    }

    /**
     * `handleMessage`: the request's "type" picks one branch. Protected
     * requests (user list, search, message) from a session that is not logged
     * in are ignored without a reply, and unknown types are ignored.
     */
    method HandleMessage(json: JsonObject, now: string)
      requires Valid()
      modifies this`username, this`authenticated, this`outbox, server`clients, server.database`users
      modifies server.clients.Values`outbox
      ensures Valid()
      ensures server.clients.Values <= old(server.clients.Values) + {this}
      ensures old(server.Consistent()) ==> server.Consistent()
      ensures Handled(ParseRequest(json), now, old(server.clients.Values))
    {
      Dispatch(ParseRequest(json), now);
    }

    /** The branch of `handleMessage` a request takes. */
    method Dispatch(request: Request, now: string)
      requires Valid()
      modifies this`username, this`authenticated, this`outbox, server`clients, server.database`users
      modifies server.clients.Values`outbox
      ensures Valid()
      ensures server.clients.Values <= old(server.clients.Values) + {this}
      ensures old(server.Consistent()) ==> server.Consistent()
      ensures Handled(request, now, old(server.clients.Values))
    {
      if request.Register? || request.Login? || request.Logout? {
        HandleAccount(request);
      } else if !request.Other? {
        HandleQuery(request, now);
      }
    }

    /** The branches of `handleMessage` that change who is logged in or registered. */
    method HandleAccount(request: Request)
      requires Valid() && (request.Register? || request.Login? || request.Logout?)
      modifies this`username, this`authenticated, this`outbox, server`clients, server.database`users
      ensures Valid()
      ensures server.clients.Values <= old(server.clients.Values) + {this}
      ensures old(server.Consistent()) ==> server.Consistent()
      ensures forall s :: s in old(server.clients.Values) && s != this ==> s.outbox == old(s.outbox)
      ensures AccountEffect(request)
    {
      match request
      case Register(user) => HandleRegister(user);
      case Login(name, password) => HandleLogin(name, password);
      case Logout => HandleLogout();
    }

    /** The branches of `handleMessage` that only an authenticated session is answered for. */
    method HandleQuery(request: Request, now: string)
      requires Valid() && (request.UserList? || request.Search? || request.Chat?)
      modifies this`outbox, server.clients.Values`outbox
      ensures Valid()
      ensures !request.Chat? ==>
        forall s :: s in old(server.clients.Values) && s != this ==> s.outbox == old(s.outbox)
      ensures !authenticated ==> outbox == old(outbox) && forall s :: s in old(server.clients.Values) ==> s.outbox == old(s.outbox)
      ensures QueryEffect(request, now, old(server.clients.Values))
    {
      match request
      case UserList => HandleUserList();
      case Search(query) => HandleSearch(query);
      case Chat(recipient, content) => HandleChat(recipient, content, now);
    }

    /**
     * One iteration of the read loop up to the payload read: a header is
     * consumed only when none is pending, and the payload is taken, with
     * `currentMessageSize` reset, only when all of it is buffered. `None`
     * is the `return` that waits for more data.
     */
    method ReadFrame() returns (data: Option<seq<Byte>>)
      requires |inbox| >= 4 && currentMessageSize < U32Limit
      modifies this`inbox, this`currentMessageSize
      ensures currentMessageSize < U32Limit
      ensures data.None? ==> old(Drain(currentMessageSize, inbox)) == Drained([], currentMessageSize, inbox)
      ensures data.Some? ==>
        && currentMessageSize == 0 && |inbox| < old(|inbox|)
        && old(Drain(currentMessageSize, inbox)) == After([data.value], Drain(0, inbox))
    {
      if currentMessageSize == 0 {
        currentMessageSize := ReadBe32(inbox[..4]);
        inbox := inbox[4..];
      }
      if |inbox| < currentMessageSize {
        return None;
      }
      data := Some(inbox[..currentMessageSize]);
      inbox := inbox[currentMessageSize..];
      currentMessageSize := 0;
    }

    /** The body of the read loop after a payload is taken: only a JSON object is handled. */
    method HandlePayload(data: seq<Byte>, now: string)
      requires Valid()
      modifies this`username, this`authenticated, this`outbox
      modifies server`clients, server.database`users, server.clients.Values`outbox
      ensures Valid()
      ensures server.clients.Values <= old(server.clients.Values) + {this}
      ensures old(server.Consistent()) ==> server.Consistent()
      ensures codec.decode(data).None? ==>
        && outbox == old(outbox) && username == old(username) && authenticated == old(authenticated)
        && server.clients == old(server.clients) && server.database.users == old(server.database.users)
        && forall s :: s in old(server.clients.Values) ==> s.outbox == old(s.outbox)
      ensures codec.decode(data).Some? ==> Handled(ParseRequest(codec.decode(data).value), now, old(server.clients.Values))
    {
      var doc := codec.decode(data);
      if doc.Some? {
        HandleMessage(doc.value, now);
      }
    }

    /**
     * One iteration of the read loop: the frame, if all of it is buffered,
     * and its handling. The decoder state advances as `Drain` does.
     */
    method ReadStep(now: string) returns (data: Option<seq<Byte>>)
      requires Valid() && |inbox| >= 4
      modifies this`inbox, this`currentMessageSize, this`username, this`authenticated, this`outbox
      modifies server`clients, server.database`users, server.clients.Values`outbox
      ensures Valid()
      ensures server.clients.Values <= old(server.clients.Values) + {this}
      ensures old(server.Consistent()) ==> server.Consistent()
      ensures data.None? ==> old(Drain(currentMessageSize, inbox)) == Drained([], currentMessageSize, inbox)
      ensures data.Some? ==>
        && |inbox| < old(|inbox|)
        && old(Drain(currentMessageSize, inbox)) == After([data.value], Drain(currentMessageSize, inbox))
      ensures (data.None? || codec.decode(data.value).None?) ==>
        && outbox == old(outbox) && username == old(username) && authenticated == old(authenticated)
        && server.clients == old(server.clients) && server.database.users == old(server.database.users)
        && forall s :: s in old(server.clients.Values) ==> s.outbox == old(s.outbox)
      ensures data.Some? && codec.decode(data.value).Some? ==>
        Handled(ParseRequest(codec.decode(data.value).value), now, old(server.clients.Values))
    {
      data := ReadFrame();
      if data.Some? {
        ghost var pending, buffered := currentMessageSize, inbox;
        HandlePayload(data.value, now);
        assert currentMessageSize == pending && inbox == buffered;
      }
    }

    /**
     * `onReadyRead`: runs the decode loop over the buffered bytes and hands
     * every payload that parses as a JSON object to `handleMessage`, in order;
     * payloads that do not are dropped and the loop goes on. `payloads` are
     * the payloads taken, which `Drain` determines.
     */
    method OnReadyRead(now: string) returns (ghost payloads: seq<seq<Byte>>)
      requires Valid()
      modifies this`inbox, this`currentMessageSize, this`username, this`authenticated, this`outbox
      modifies server`clients, server.database`users, server.clients.Values`outbox
      ensures Valid()
      ensures Drained(payloads, currentMessageSize, inbox) == old(Drain(currentMessageSize, inbox))
      ensures old(server.Consistent()) ==> server.Consistent()
      // When no payload is a JSON object, nothing but the decoder state changes.
      ensures NoObject(codec, payloads) ==>
        && outbox == old(outbox) && username == old(username) && authenticated == old(authenticated)
        && server.clients == old(server.clients) && server.database.users == old(server.database.users)
        && forall s :: s in old(server.clients.Values) ==> s.outbox == old(s.outbox)
    {
      ghost var start := Drain(currentMessageSize, inbox);
      ghost var quiet := true;
      payloads := [];
      while |inbox| >= 4
        invariant Valid()
        invariant After(payloads, Drain(currentMessageSize, inbox)) == start
        invariant server.clients.Values <= old(server.clients.Values) + {this}
        invariant old(server.Consistent()) ==> server.Consistent()
        invariant quiet <==> NoObject(codec, payloads)
        invariant quiet ==>
          && outbox == old(outbox) && username == old(username) && authenticated == old(authenticated)
          && server.clients == old(server.clients) && server.database.users == old(server.database.users)
          && forall s :: s in old(server.clients.Values) ==> s.outbox == old(s.outbox)
        decreases |inbox|
      {
        var data := ReadStep(now);
        if data.None? {
          assert payloads + [] == payloads;
          return;
        }
        AfterAfter(payloads, [data.value], Drain(currentMessageSize, inbox));
        NoObjectSnoc(codec, payloads, data.value);
        quiet := quiet && codec.decode(data.value).None?;
        payloads := payloads + [data.value];
      }
      assert Drain(currentMessageSize, inbox) == Drained([], currentMessageSize, inbox);
      assert payloads + [] == payloads;
    }

    /** `onDisconnected`: a logged-in session leaves the registry. */
    method OnDisconnected()
      requires Valid()
      modifies server`clients, server.database`users
      ensures Valid()
      ensures old(server.Consistent()) ==> server.Consistent()
      ensures authenticated ==>
        && server.clients == old(server.clients) - {username}
        && server.database.users == Directory.SetOnlineIn(old(server.database.users), username, false)
      ensures !authenticated ==>
        server.clients == old(server.clients) && server.database.users == old(server.database.users)
    {
      if authenticated {
        server.RemoveClient(username);
      }
    }
  }
}
