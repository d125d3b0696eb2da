/**
 * The client's network layer, `class NetworkClient` (client/NetworkClient.cpp):
 * request builders, the connected guard on sending, and the same decode loop
 * as the server's, mapping each reply to the signal it emits. The socket
 * buffers are byte sequences and emitted signals are appended to `events`.
 */
module ChatClient {
  import opened Wrappers
  import opened Framing
  import opened Json
  import Directory
  import ChatServer

  /** QAbstractSocket::SocketState. */
  datatype SocketState =
    | UnconnectedState
    | HostLookupState
    | ConnectingState
    | ConnectedState
    | BoundState
    | ListeningState
    | ClosingState

  /** The signals the read loop emits. */
  datatype Event =
    | RegistrationSuccessful
    | RegistrationFailed(error: string)
    | LoginSuccessful
    | LoginFailed(error: string)
    | MessageReceived(sender: string, content: string, timestamp: string)
    | UserListReceived(users: seq<string>)
    | SearchResultsReceived(results: seq<string>)

  // ---------------------------------------------------------------------------
  // Requests
  // ---------------------------------------------------------------------------

  function RegisterRequest(username: string, password: string, fullName: string, department: string, position: string): JsonObject
  {
    map["type" := JString("register"), "username" := JString(username), "password" := JString(password),
        "full_name" := JString(fullName), "department" := JString(department), "position" := JString(position)]
  }

  function LoginRequest(username: string, password: string): JsonObject
  {
    map["type" := JString("login"), "username" := JString(username), "password" := JString(password)]
  }

  /** `sendChatMessage`: the content only; no recipient field is written. */
  function ChatMessageRequest(message: string): JsonObject
  {
    map["type" := JString("message"), "content" := JString(message)]
  }

  function UserListRequest(): JsonObject
  {
    map["type" := JString("user_list_request")]
  }

  function SearchRequest(query: string): JsonObject
  {
    map["type" := JString("search_users"), "query" := JString(query)]
  }

  function LogoutRequest(): JsonObject
  {
    map["type" := JString("logout")]
  }

  /** Each builder produces the request the server's dispatch reads it as. */
  lemma RequestsParse(username: string, password: string, fullName: string, department: string, position: string, text: string)
    ensures ChatServer.ParseRequest(RegisterRequest(username, password, fullName, department, position))
      == ChatServer.Register(Directory.NewUser(username, password, fullName, department, position))
    ensures ChatServer.ParseRequest(LoginRequest(username, password)) == ChatServer.Login(username, password)
    ensures ChatServer.ParseRequest(UserListRequest()) == ChatServer.UserList
    ensures ChatServer.ParseRequest(SearchRequest(text)) == ChatServer.Search(text)
    ensures ChatServer.ParseRequest(LogoutRequest()) == ChatServer.Logout
  {
  }

  /** Each builder sets "type" and its own fields, and no others. */
  lemma RequestFields(username: string, password: string, fullName: string, department: string, position: string, text: string)
    ensures RegisterRequest(username, password, fullName, department, position).Keys
      == {"type", "username", "password", "full_name", "department", "position"}
    ensures LoginRequest(username, password).Keys == {"type", "username", "password"}
    ensures ChatMessageRequest(text).Keys == {"type", "content"}
    ensures UserListRequest().Keys == {"type"}
    ensures SearchRequest(text).Keys == {"type", "query"}
    ensures LogoutRequest().Keys == {"type"}
  {
  }

  /**
   * A chat message from this client reaches the server addressed to the
   * empty username: `sendChatMessage` writes no "recipient", which the
   * server reads as "".
   */
  lemma ChatMessageHasNoRecipient(message: string)
    ensures ChatServer.ParseRequest(ChatMessageRequest(message)) == ChatServer.Chat("", message)
  {
  }

  // ---------------------------------------------------------------------------
  // Replies
  // ---------------------------------------------------------------------------

  /** The signal the read loop emits for one reply object, if any. */
  function EventOf(o: JsonObject): Option<Event>
  {
    var t := StringAt(o, "type");
    if t == "register_response" then
      Some(if BoolAt(o, "success") then RegistrationSuccessful else RegistrationFailed(StringAt(o, "message")))
    else if t == "login_response" then
      Some(if BoolAt(o, "success") then LoginSuccessful else LoginFailed(StringAt(o, "message")))
    else if t == "message" then
      Some(MessageReceived(StringAt(o, "sender"), StringAt(o, "content"), StringAt(o, "timestamp")))
    else if t == "user_list" then Some(UserListReceived(Strings(ArrayAt(o, "users"))))
    else if t == "search_results" then Some(SearchResultsReceived(Strings(ArrayAt(o, "results"))))
    else None
  }

  /** The signals for a run of payloads, in order: non-objects and unknown types emit nothing. */
  function EventsOf(c: JsonCodec, payloads: seq<seq<Byte>>): (es: seq<Event>)
    ensures |es| <= |payloads|
    ensures NoObject(c, payloads) ==> es == []
  {
    if payloads == [] then []
    else
      var n := |payloads| - 1;
      var init := EventsOf(c, payloads[..n]);
      assert NoObject(c, payloads) ==> NoObject(c, payloads[..n]) by {
        assert forall i :: 0 <= i < n ==> payloads[..n][i] == payloads[i];
      }
      init + EventsFrom(c, payloads[n])
  }

  /** The signal of one payload, if it is an object of a known type. */
  function EventsFrom(c: JsonCodec, payload: seq<Byte>): (es: seq<Event>)
    ensures |es| <= 1
  {
    match c.decode(payload)
    case None => []
    case Some(o) => if EventOf(o).Some? then [EventOf(o).value] else []
  }

  lemma EventsOfSnoc(c: JsonCodec, payloads: seq<seq<Byte>>, p: seq<Byte>)
    ensures EventsOf(c, payloads + [p]) == EventsOf(c, payloads) + EventsFrom(c, p)
  {
    assert (payloads + [p])[..|payloads|] == payloads;
  }

  /**
   * Every reply the server sends is read as the matching signal, with the
   * server's message text and entry lists unchanged. The error push has no
   * handler on the client, so it emits nothing.
   */
  lemma RepliesRead(ok: bool, entries: seq<string>, sender: string, content: string, now: string, error: string)
    ensures EventOf(ChatServer.RegisterResponse(ok)) ==
      Some(if ok then RegistrationSuccessful else RegistrationFailed("Username already exists"))
    ensures EventOf(ChatServer.LoginResponse(ok)) ==
      Some(if ok then LoginSuccessful else LoginFailed("Invalid credentials"))
    ensures EventOf(ChatServer.MessagePush(sender, content, now)) == Some(MessageReceived(sender, content, now))
    ensures EventOf(ChatServer.UserListResponse(entries)) == Some(UserListReceived(entries))
    ensures EventOf(ChatServer.SearchResultsResponse(entries)) == Some(SearchResultsReceived(entries))
    ensures EventOf(ChatServer.ErrorPush(error)) == None
  {
    StringsOfStringArray(entries);
  }

  /**
   * What one frame carries, end to end: with a lawful codec, a frame the
   * server writes decodes on the client as exactly the object sent.
   */
  lemma FrameCarriesObject(c: JsonCodec, o: JsonObject)
    requires Lawful(c) && |c.encode(o)| < U32Limit
    ensures Drain(0, EncodeFrame(c.encode(o))) == Drained([c.encode(o)], 0, [])
    ensures EventsOf(c, [c.encode(o)]) == if EventOf(o).Some? then [EventOf(o).value] else []
  {
    var p := c.encode(o);
    var none: seq<seq<Byte>> := [];
    assert [p][1..] == none;
    assert EncodeAll([p]) + [] == EncodeFrame(p);
    assert AllFit([p]);
    DrainEncodeAll([p], []);
    EventsOfSnoc(c, none, p);
    assert none + [p] == [p];
  }

  lemma AppendAssoc(a: seq<Event>, b: seq<Event>, c: seq<Event>)
    ensures (a + b) + c == a + (b + c)
  {
  }

  // ---------------------------------------------------------------------------
  // The client object
  // ---------------------------------------------------------------------------

  /** `class NetworkClient`; `socket` is None while no socket has been created. */
  class NetworkClient {
    var socket: Option<SocketState>
    var inbox: seq<Byte>
    var outbox: seq<Byte>
    var currentMessageSize: nat
    var events: seq<Event>
    const codec: JsonCodec

    ghost predicate Valid()
      reads this
    {
      currentMessageSize < U32Limit
    }

    /** A new client has no socket. */
    constructor (codec: JsonCodec)
      ensures Valid() && this.codec == codec
      ensures socket == None && inbox == [] && outbox == [] && currentMessageSize == 0 && events == []
    {
      this.codec := codec;
      socket := None;
      inbox, outbox, currentMessageSize, events := [], [], 0, [];
    }

    predicate Connected()
      reads this
    {
      socket == Some(ConnectedState)
    }

    /** What sending an object writes: its frame when connected, nothing otherwise. */
    function Sent(json: JsonObject): seq<Byte>
      reads this
    {
      if Connected() then EncodeFrame(codec.encode(json)) else []
    }

    /** `sendMessage`: nothing is written without a connected socket. */
    method SendMessage(json: JsonObject)
      modifies this`outbox
      ensures outbox == old(outbox) + Sent(json)
      ensures !Connected() ==> outbox == old(outbox)
    {
      if !Connected() {
        return;
      }
      var data := codec.encode(json);
      var sizeData := Be32(|data| % U32Limit);
      outbox := outbox + sizeData;
      outbox := outbox + data;
    }

    method RegisterUser(username: string, password: string, fullName: string, department: string, position: string)
      modifies this`outbox
      ensures outbox == old(outbox) + Sent(RegisterRequest(username, password, fullName, department, position))
    {
      SendMessage(RegisterRequest(username, password, fullName, department, position));
    }

    method LoginUser(username: string, password: string)
      modifies this`outbox
      ensures outbox == old(outbox) + Sent(LoginRequest(username, password))
    {
      SendMessage(LoginRequest(username, password));
    }

    method SendChatMessage(message: string)
      modifies this`outbox
      ensures outbox == old(outbox) + Sent(ChatMessageRequest(message))
    {
      SendMessage(ChatMessageRequest(message));
    }

    method RequestUserList()
      modifies this`outbox
      ensures outbox == old(outbox) + Sent(UserListRequest())
    {
      SendMessage(UserListRequest());
    }

    method SearchUsers(query: string)
      modifies this`outbox
      ensures outbox == old(outbox) + Sent(SearchRequest(query))
    {
      SendMessage(SearchRequest(query));
    }

    method SendLogout()
      modifies this`outbox
      ensures outbox == old(outbox) + Sent(LogoutRequest())
    {
      SendMessage(LogoutRequest());
    }

    /** One iteration of the read loop up to the payload read, as on the server. */
    method ReadFrame() returns (data: Option<seq<Byte>>)
      requires |inbox| >= 4 && currentMessageSize < U32Limit
      modifies this`inbox, this`currentMessageSize
      ensures currentMessageSize < U32Limit
      ensures data.None? ==> old(Drain(currentMessageSize, inbox)) == Drained([], currentMessageSize, inbox)
      ensures data.Some? ==>
        && currentMessageSize == 0 && |inbox| < old(|inbox|)
        && old(Drain(currentMessageSize, inbox)) == After([data.value], Drain(0, inbox))
    {
      if currentMessageSize == 0 {
        currentMessageSize := ReadBe32(inbox[..4]);
        inbox := inbox[4..];
      }
      if |inbox| < currentMessageSize {
        return None;
      }
      data := Some(inbox[..currentMessageSize]);
      inbox := inbox[currentMessageSize..];
      currentMessageSize := 0;
    }

    /** The body of the read loop after a payload is taken: at most one signal, for a reply object of a known type. */
    method HandlePayload(data: seq<Byte>)
      modifies this`events
      ensures events == old(events) + EventsFrom(codec, data)
    {
      var doc := codec.decode(data);
      if doc.None? {
        assert events + [] == events;
        return;
      }
      var event := EventOf(doc.value);
      if event.Some? {
        events := events + [event.value];
      } else {
        assert events + [] == events;
      }
    }

    /** One iteration of the read loop: the frame, if all of it is buffered, and its signal. */
    method ReadStep() returns (data: Option<seq<Byte>>)
      requires Valid() && |inbox| >= 4
      modifies this`inbox, this`currentMessageSize, this`events
      ensures Valid()
      ensures data.None? ==>
        old(Drain(currentMessageSize, inbox)) == Drained([], currentMessageSize, inbox) && events == old(events)
      ensures data.Some? ==>
        && |inbox| < old(|inbox|)
        && old(Drain(currentMessageSize, inbox)) == After([data.value], Drain(currentMessageSize, inbox))
        && events == old(events) + EventsFrom(codec, data.value)
    {
      data := ReadFrame();
      if data.Some? {
        HandlePayload(data.value);
      }
    }

    /**
     * `onReadyRead`: nothing happens without a socket; otherwise the decode
     * loop takes the payloads `Drain` determines and emits one signal for
     * each that is a reply object of a known type, in order.
     */
    method OnReadyRead() returns (ghost payloads: seq<seq<Byte>>)
      requires Valid()
      modifies this`inbox, this`currentMessageSize, this`events
      ensures Valid()
      ensures socket.None? ==>
        payloads == [] && inbox == old(inbox) && currentMessageSize == old(currentMessageSize) && events == old(events)
      ensures socket.Some? ==> Drained(payloads, currentMessageSize, inbox) == old(Drain(currentMessageSize, inbox))
      ensures events == old(events) + EventsOf(codec, payloads)
    {
      payloads := [];
      if socket.None? {
        return;
      }
      ghost var start, earlier := Drain(currentMessageSize, inbox), events;
      while |inbox| >= 4
        invariant Valid()
        invariant After(payloads, Drain(currentMessageSize, inbox)) == start
        invariant events == earlier + EventsOf(codec, payloads)
        decreases |inbox|
      {
        var data := ReadStep();
        if data.None? {
          assert payloads + [] == payloads;
          return;
        }
        AfterAfter(payloads, [data.value], Drain(currentMessageSize, inbox));
        EventsOfSnoc(codec, payloads, data.value);
        AppendAssoc(earlier, EventsOf(codec, payloads), EventsFrom(codec, data.value));
        payloads := payloads + [data.value];
      }
      assert Drain(currentMessageSize, inbox) == Drained([], currentMessageSize, inbox);
      assert payloads + [] == payloads;
    }
  }
}
