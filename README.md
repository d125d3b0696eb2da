# CorporateMessenger protocol core, modelled in Dafny

This project models the core of CorporateMessenger, a Qt chat server and client:

- **Framing.** Every JSON message that the server session (`ClientSession`) and the client (`NetworkClient`) exchange is sent as a frame: a big-endian quint32 length, then the payload.
- **Incremental read loop.** Both sides run the same loop over the socket's receive buffer. Its only state is `currentMessageSize`.
- **Session state machine.** `handleMessage` dispatches on the request's `"type"` field: register, login, logout, user list, search and chat.
- **Registry.** `class Server` keeps the logged-in sessions by username. It keeps the directory's online flags in step with that map and routes chat messages.
- **User directory.** `class Database` is a `QMap` from username to `User`.
  - It registers users, rejecting duplicates.
  - It authenticates against a salted hash.
  - It keeps each user's online flag.
  - It answers filtered queries with the password blanked, and a case-insensitive substring search.
  - It saves and loads the `username|hash|fullName|department|position` line format.
- **Legacy codec.** `common/Message.cpp` is a pipe-delimited message codec, `type|sender|recipient|timestamp|length|content`, with a type↔name table.

Modules, one per concern:

- `Framing` (framing.dfy):
  - the frame encoding;
  - `Drain`, the reference definition of the read loop;
  - the round trip and chunking lemmas.
- `Json` (json.dfy):
  - JSON values and the accessors `toString`, `toBool` and `toArray`;
  - the `QJsonDocument` codec, passed in as a parameter.
- `Text` (text.dfy): the QString order, ASCII lower-casing, `contains`, `split` and decimal printing.
- `Directory` (directory.dfy): the user directory and `class Database`. The `QMap` is a sequence of records kept in strictly increasing key order.
- `ChatServer` (chatserver.dfy): the `Server` and `ClientSession` classes. They refer to each other, so they share one module.
- `ChatClient` (chatclient.dfy): `class NetworkClient`, the request builders and the reply-to-signal mapping.
- `LegacyMessage` (legacymessage.dfy):
  - `serialize` and `deserialize`;
  - the `stoi`, `stoll` and `stoull` conversions they rely on;
  - the `istringstream`/`getline` reading.
- `Wrappers` (wrappers.dfy): `Option`.

Sockets are byte sequences:

- `inbox` holds what has been received and not yet read.
- `outbox` holds everything written.

The client appends every signal it emits to `events`.

The model keeps the code's behaviour as written:

- **The read guard also holds back short payloads.** The guard `bytesAvailable() >= 4` also gates a payload whose header has already been read, so a pending payload of 1 to 3 bytes waits for more input (`Framing.ShortPayloadWaits`).
- **There is no maximum frame size.** A frame's length is cast to quint32.
- **A second login overwrites.** `addClient` replaces an existing entry.
- **Protected requests are ignored silently.** A user-list, search or chat request from a session that is not logged in gets no reply.
- **Rejections are ordinary responses.** A refused registration or login gets its usual response with `success` false. The only error frame is the one sent to the sender of a chat message whose recipient is offline.
- **A delivered chat message gets no reply.** Only the recipient's socket is written to.
- **A header is consumed before its payload has arrived.** Its length is kept in `currentMessageSize`, and a later iteration reads only the payload (`Framing.DrainReadsHeader`, `Framing.DrainWaits`).
- **Chat messages from the client have no recipient.** `sendChatMessage` writes none, so the server routes such a message to the username `""` (`ChatClient.ChatMessageHasNoRecipient`).

## Model

| member | source | states |
|---|---|---|
| `Framing.Be32` | server/ClientSession.cpp:55-58 | The `QDataStream` big-endian quint32: four bytes, most significant first. `ReadBe32OfBe32` shows that `ReadBe32` reads it back. |
| `Framing.ReadBe32` | server/ClientSession.cpp:71-74 | The header read back as a big-endian quint32, always below 2^32. `Be32OfReadBe32` shows that every 4-byte header is `Be32` of it. |
| `Framing.EncodeFrame` | server/ClientSession.cpp:50-65 | A frame is 4 header bytes followed by exactly the payload. When the payload's length fits a quint32, the header decodes to that length. |
| `Framing.ReadBe32OfBe32` | server/ClientSession.cpp:55-58 | Reading a big-endian quint32 back gives the number written. |
| `Framing.Be32OfReadBe32` | server/ClientSession.cpp:71-74 | Every 4-byte header is the encoding of the number read from it. |
| `Framing.Drain` | server/ClientSession.cpp:67-98 | The read loop stops only when fewer than 4 bytes remain or the pending payload is not all buffered. It never grows the buffer, and the pending length always fits a quint32. |
| `Framing.DrainConsumesPrefix` | server/ClientSession.cpp:68-86 | Bytes are taken only from the front: what the loop leaves is a suffix of its input. |
| `Framing.DrainWaits` | server/ClientSession.cpp:78-82 | A length already read persists, and nothing is consumed, until its payload is fully buffered. |
| `Framing.DrainTakesPending` | server/ClientSession.cpp:84-86 | With a length pending, exactly that many bytes are taken as the payload, and decoding restarts with `currentMessageSize == 0`. |
| `Framing.DrainReadsHeader` | server/ClientSession.cpp:70-76 | A header is read only when no length is pending. The payload behind it is taken only if it is all there; otherwise its length becomes the pending length. |
| `Framing.DrainEncodeAll` | server/ClientSession.cpp:67-98 | Decoding a run of frames gives back their payloads in order. An incomplete trailer of under 4 bytes is left in the buffer. |
| `Framing.DrainSplit` | server/ClientSession.cpp:67-98 | Two calls of the loop over split input give what one call over the whole input gives, unless the first call stops with a pending length of 1 to 3. |
| `Framing.ShortPayloadWaits` | server/ClientSession.cpp:68-82 | Once a header announcing 2 bytes has been read, those 2 bytes alone are not delivered. They are delivered when they arrive together with the header. |
| `Framing.ZeroLengthFrame` | server/ClientSession.cpp:84-94 | A zero-length frame yields an empty payload, and decoding goes on with the bytes behind it. |
| `Json.StringAt` | server/ClientSession.cpp:101 | `json[key].toString()` is the string stored under the key, and "" for a missing key or a value that is not a string. |
| `Json.BoolAt` | client/NetworkClient.cpp:182 | `toBool()` is true exactly when the key holds `true`. |
| `Json.ArrayAt` | client/NetworkClient.cpp:209 | `toArray()` is the stored array, and empty for a missing key or a value that is not an array. |
| `Json.StringArray` | server/ClientSession.cpp:171 | Appending strings to a QJsonArray keeps their order and count. |
| `Json.Strings` | client/NetworkClient.cpp:210-213 | The string list built from an array has one element per item, in order, each the item's `toString()`. |
| `Json.StringsOfStringArray` | client/NetworkClient.cpp:209-214 | A list of strings survives being sent as an array and read back. |
| `Text.Lower` | server/Database.cpp:85-91 | Lower-casing keeps the length and maps each character through ASCII `toLower`. |
| `Text.Split` | server/Database.cpp:165 | Splitting at the separator always yields at least one part. |
| `Text.SplitCons` | server/Database.cpp:165 | The text before the first separator is the first part, and splitting resumes after the separator. |
| `Text.SplitNoSep` | server/Database.cpp:165 | Text without a separator is a single part. |
| `Text.NatToString` | common/Message.cpp:21 | A printed natural number is a non-empty run of decimal digits. |
| `Text.DigitsValueOfNat` | common/Message.cpp:54 | A printed natural number reads back as the same number. |
| `Directory.SortedUnique` | server/Database.cpp:26 | The map holds at most one record per username. |
| `Directory.Find` | server/Database.cpp:49-50 | A lookup succeeds exactly when the username is present, and returns a stored record with that name. |
| `Directory.HashPassword` | server/Database.cpp:184-190 | The stored password is SHA-256, a parameter, of the password followed by the fixed salt `salt_secret_key`. `RegisteredAuthenticates` shows a registered password then authenticates. |
| `Directory.Insert` | server/Database.cpp:26 | `users[name] = u` keeps key order and replaces any record of that name. The map grows by one only for a new name. |
| `Directory.Select` | server/Database.cpp:70-78 | The filter loop returns, blanked, exactly the records that pass the test, and never more records than the map holds. |
| `Directory.SelectSorted` | server/Database.cpp:59-63 | The list queries return records in key order. |
| `Directory.GetAllUsers` | server/Database.cpp:55-65 | Every record, password blanked, in key order. |
| `Directory.GetOnlineUsers` | server/Database.cpp:67-79 | Exactly the online records, password blanked, in key order. |
| `Directory.SearchUsers` | server/Database.cpp:81-102 | Exactly the records whose lower-cased username, full name or department contains the lower-cased query, password blanked, in key order. |
| `Directory.SearchEmptyQuery` | server/Database.cpp:85-95 | An empty query matches every record, so the search lists every user. |
| `Directory.GetUsersByDepartment` | server/Database.cpp:104-116 | Exactly the records whose department equals the argument (case-sensitive), password blanked, in key order. |
| `Directory.UserExists` | server/Database.cpp:41-44 | True exactly when a record has that username. |
| `Directory.GetUser` | server/Database.cpp:46-53 | The stored record, hash included, when the name is present; otherwise the empty offline `User()`. |
| `Directory.IsUserOnline` | server/Database.cpp:126-133 | True exactly when the named record exists and is online; false for an unknown name. |
| `Directory.AuthenticateUser` | server/Database.cpp:31-39 | True exactly when the name is stored with the hash of the salted password; false for an unknown name. |
| `Directory.RegisteredAuthenticates` | server/Database.cpp:15-39 | After registration the user can log in with the password registered, and is offline. |
| `Directory.SetOnlineIn` | server/Database.cpp:118-124 | The directory with the named record's online flag set and every other record, and the order, kept. `SetOnlineEffect` shows an unknown name leaves it unchanged and key order is kept. |
| `Directory.SetOnlineEffect` | server/Database.cpp:118-124 | Setting the flag keeps key order and does nothing for an unknown name. It sets the named user's flag and leaves every other name's record and flag unchanged. |
| `Directory.OnlineExactlyAdd` | server/Server.cpp:31-37 | Adding a stored user's session and marking the user online keeps "in the registry iff online" true. |
| `Directory.OnlineExactlyRemove` | server/Server.cpp:39-45 | Removing a name and marking it offline keeps "in the registry iff online" true, whether or not the name was known. |
| `Directory.SaveLine` | server/Database.cpp:145-149 | One line of the users file: username, password hash, full name, department and position, separated by the pipe character, without the online flag. |
| `Directory.SaveLines` | server/Database.cpp:135-153 | One line per record, in the map's key order. `SaveLoadRoundTrip` shows loading them gives the records back, offline. |
| `Directory.ParseLine` | server/Database.cpp:165-174 | A line with at least five fields after splitting at the separator gives an offline record from the first five; any other line gives nothing. `ParseSaveLine` shows a saved record parses back. |
| `Directory.LoadLines` | server/Database.cpp:162-178 | Loading lines in order keeps the map in key order; later lines for a username win. Every record loaded is offline, so a directory with no one online still has no one online. |
| `Directory.ParseSaveLine` | server/Database.cpp:165-174 | A line written by `save` for a record with no pipe character in any field loads as the same record, offline. |
| `Directory.SaveLoadRoundTrip` | server/Database.cpp:135-182 | Saving the directory and loading the file into an empty map gives back every record, in order, offline. |
| `Directory.Database.constructor` | server/Database.cpp:7-9 | The new directory holds what loading the file's lines gives, and every user in it is offline. |
| `Directory.Database.RegisterUser` | server/Database.cpp:15-29 | Refuses, changing nothing, exactly when the username exists. Otherwise it adds one record with the hashed password, offline, after which login with that password succeeds. |
| `Directory.Database.SetUserOnline` | server/Database.cpp:118-124 | Only the named user's flag changes; an unknown name changes nothing. |
| `Directory.Database.Load` | server/Database.cpp:155-182 | The loop reads the lines in order; each line with at least five pipe-separated fields replaces the record of its username. |
| `Directory.Database.LoadLine` | server/Database.cpp:164-177 | One line with at least five pipe-separated fields is stored under its username, offline; other lines are skipped. |
| `ChatServer.ParseRequest` | server/ClientSession.cpp:100-212 | The request `handleMessage` sees: the `type` string picks the branch and each branch reads its own fields with `toString()`, so a missing field reads as empty. A chat message takes its recipient from the `recipient` field. Any other type is `Other`. `RequestsParse` shows each client request parses as intended. |
| `ChatServer.RegisterResponse` | server/ClientSession.cpp:112-123 | The `register_response` object: `success` is the outcome, and `message` reads `Registration successful` or `Username already exists`. |
| `ChatServer.LoginResponse` | server/ClientSession.cpp:131-146 | The `login_response` object: `success` is the outcome, and `message` reads `Login successful` or `Invalid credentials`. |
| `ChatServer.UserListResponse` | server/ClientSession.cpp:175-177 | The `user_list` object with the entries, in order, as a string array under `users`. |
| `ChatServer.SearchResultsResponse` | server/ClientSession.cpp:198-200 | The `search_results` object with the entries, in order, as a string array under `results`. |
| `ChatServer.MessagePush` | server/ClientSession.cpp:32-40 | The `message` push with the sender, the content, and the timestamp given as the clock reading. |
| `ChatServer.ErrorPush` | server/ClientSession.cpp:42-48 | The `error` push with its text under `message`. |
| `ChatServer.OfflineError` | server/Server.cpp:73 | The text sent to the sender of a chat message whose recipient is not logged in: `User is offline: ` and the recipient. |
| `ChatServer.Entry` | server/ClientSession.cpp:166-170 | A user's entry: username, full name, department, position and the given status, joined by the separator. `EntryFields` shows it splits back into those five fields (see Left out for `%n` markers). |
| `ChatServer.Status` | server/ClientSession.cpp:194 | `online` for a user who is online and `offline` otherwise. |
| `ChatServer.UnknownTypeIgnored` | server/ClientSession.cpp:100-213 | A request whose type is none of the six known types takes no branch. |
| `ChatServer.EntryFields` | server/ClientSession.cpp:166-170 | A user entry splits back into the four displayed fields and the status. |
| `ChatServer.UserListEntries` | server/ClientSession.cpp:164-173 | The user-list reply holds an "online" entry for each listed user except the caller, and no other entry. |
| `ChatServer.UserListExcludesCaller` | server/ClientSession.cpp:164-172 | Every user-list entry has five fields, does not name the caller, and ends in "online". |
| `ChatServer.SearchEntries` | server/ClientSession.cpp:188-196 | One entry per search result, in order, each tagged with that user's status. |
| `ChatServer.SearchEntriesTagged` | server/ClientSession.cpp:188-196 | Each search entry, in order, gives its user's four fields and "online" or "offline" as its flag says. |
| `ChatServer.BuildUserList` | server/ClientSession.cpp:162-173 | The loop builds exactly the user-list entries. |
| `ChatServer.BuildSearchResults` | server/ClientSession.cpp:186-196 | The loop builds one entry per found user, in order, tagged by its online flag. |
| `ChatServer.Server.constructor` | server/Server.cpp:4-17 | A new server has no clients. Over a directory whose users are all offline, which is what loading gives, the registry and the online flags start consistent. |
| `ChatServer.Server.RegisterUser` | server/Server.cpp:23-25 | Registration is the directory's, result unchanged. The registry stays consistent with the online flags. |
| `ChatServer.Server.AuthenticateUser` | server/Server.cpp:27-29 | The directory's answer: the name is stored with the hash of the password. |
| `ChatServer.Server.GetOnlineUsers` | server/Server.cpp:47-49 | The directory's online users, passwords blanked. |
| `ChatServer.Server.SearchUsers` | server/Server.cpp:51-53 | The directory's search results, passwords blanked. |
| `ChatServer.Server.AddClient` | server/Server.cpp:31-37 | The session is stored under the name, overwriting any earlier entry, and the user is marked online. For a stored user, the registry stays consistent with the online flags. |
| `ChatServer.Server.RemoveClient` | server/Server.cpp:39-45 | The name leaves the registry and is offline. An unknown name changes nothing, and consistency is kept. |
| `ChatServer.Server.DeliveryTarget` | server/Server.cpp:55-76 | The session a chat message writes to: the recipient's, if it is registered; otherwise the sender's, if it is; otherwise none. |
| `ChatServer.Server.DeliverMessage` | server/Server.cpp:55-76 | A registered recipient gets exactly one message frame. Otherwise a registered sender gets one "User is offline: " error. No other session is written to. |
| `ChatServer.ClientSession.constructor` | server/ClientSession.cpp:10-22 | A new session has received and sent nothing, is not logged in, and has no pending length. |
| `ChatServer.ClientSession.SendResponse` | server/ClientSession.cpp:50-65 | Appends exactly the frame of the compact JSON to the socket. |
| `ChatServer.ClientSession.SendMessage` | server/ClientSession.cpp:32-40 | Appends one `message` push with sender, content and the server's time. |
| `ChatServer.ClientSession.SendError` | server/ClientSession.cpp:42-48 | Appends one `error` push with the text. |
| `ChatServer.ClientSession.HandleRegister` | server/ClientSession.cpp:103-126 | The directory registers the user iff the name is new, and exactly one `register_response` with that outcome is sent. |
| `ChatServer.ClientSession.HandleLogin` | server/ClientSession.cpp:127-151 | On success the session takes the name, is authenticated, is registered (replacing any earlier entry) and is online. On failure nothing changes. Either way exactly one `login_response` is sent. |
| `ChatServer.ClientSession.Admit` | server/ClientSession.cpp:134-137 | The session takes the name, is authenticated and registered under it, and the user is online. |
| `ChatServer.ClientSession.HandleLogout` | server/ClientSession.cpp:152-158 | A logged-in session leaves the registry and goes offline; the session is logged out either way, and nothing is sent. |
| `ChatServer.ClientSession.HandleUserList` | server/ClientSession.cpp:159-181 | A logged-in session gets one `user_list` reply of the online users other than itself; otherwise nothing is sent. |
| `ChatServer.ClientSession.HandleSearch` | server/ClientSession.cpp:182-204 | A logged-in session gets one `search_results` reply of the search; otherwise nothing is sent. |
| `ChatServer.ClientSession.HandleChat` | server/ClientSession.cpp:205-212 | A logged-in session's message is routed as `deliverMessage` does. Only the chosen target's socket is written to, and nothing is written when the session is not logged in. |
| `ChatServer.ClientSession.HandleMessage` | server/ClientSession.cpp:100-213 | The parsed request is handled as `Handled` states. Register stores a new user and replies with the outcome. Login replies with the outcome and, on success, registers the session and marks the user online. Logout of a logged-in session unregisters it and marks the user offline. A logged-in user-list or search request gets its listing. A logged-in chat message is pushed to the recipient, or an offline error goes to the sender. Unknown types, and protected requests from a session that is not logged in, change nothing. Only a chat message writes to another session. The registry stays consistent. |
| `ChatServer.ClientSession.Dispatch` | server/ClientSession.cpp:103-212 | Each kind of parsed request has the effect `Handled` states for it, the same list as for `HandleMessage`. |
| `ChatServer.ClientSession.HandleAccount` | server/ClientSession.cpp:103-158 | Register, login and logout have the effects `AccountEffect` states: the reply, the session's login state, the registry entry and the directory record, including the online flag. No other session's socket is written to. |
| `ChatServer.ClientSession.HandleQuery` | server/ClientSession.cpp:159-212 | For a logged-in session, the list and search requests get their listing, and a chat message is pushed to the recipient or an offline error goes to the sender (`QueryEffect`). When the session is not logged in, nothing is written. Only a chat message writes to another session, and it writes to no socket but its target's, the session's own included. |
| `ChatServer.ClientSession.ReadFrame` | server/ClientSession.cpp:70-86 | One iteration consumes a header only when none is pending. It takes the payload, and resets the size, only when the payload is all buffered. It advances as `Drain` does. |
| `ChatServer.ClientSession.HandlePayload` | server/ClientSession.cpp:90-96 | A payload that decodes to a JSON object is handled as `handleMessage` handles its request. Any other payload is dropped and changes nothing. |
| `ChatServer.ClientSession.ReadStep` | server/ClientSession.cpp:68-97 | One loop iteration advances the decoder as `Drain` does. A payload taken that decodes to a JSON object is handled as `handleMessage` handles its request. Otherwise nothing else changes. |
| `ChatServer.ClientSession.OnReadyRead` | server/ClientSession.cpp:67-98 | The loop takes exactly the payloads `Drain` determines and leaves its decoder state. When no payload is a JSON object, nothing else changes. The registry stays consistent. |
| `ChatServer.ClientSession.OnDisconnected` | server/ClientSession.cpp:215-223 | A logged-in session leaves the registry and goes offline; otherwise nothing changes. |
| `ChatClient.RegisterRequest` | client/NetworkClient.cpp:53-67 | The `register` request with username, password, full name, department and position. |
| `ChatClient.LoginRequest` | client/NetworkClient.cpp:69-78 | The `login` request with username and password. |
| `ChatClient.ChatMessageRequest` | client/NetworkClient.cpp:80-86 | The `message` request with the content only and no recipient. |
| `ChatClient.UserListRequest` | client/NetworkClient.cpp:88-93 | The `user_list_request` request, with no other field. |
| `ChatClient.SearchRequest` | client/NetworkClient.cpp:95-101 | The `search_users` request with the query. |
| `ChatClient.LogoutRequest` | client/NetworkClient.cpp:103-108 | The `logout` request, with no other field. |
| `ChatClient.RequestFields` | client/NetworkClient.cpp:53-108 | Each request builder sets "type" and its own fields, and no others. |
| `ChatClient.RequestsParse` | client/NetworkClient.cpp:53-108 | The server reads each built request as the request meant: register, login, user list, search, logout. |
| `ChatClient.ChatMessageHasNoRecipient` | client/NetworkClient.cpp:80-86 | A chat message from the client reaches the server addressed to the empty username. |
| `ChatClient.EventOf` | client/NetworkClient.cpp:178-223 | The signal for one reply object, by its `type`: registration or login success, or failure with the message; a received message with sender, content and timestamp; the user list or search results as strings. Any other type yields nothing. `RepliesRead` shows each server reply yields its signal. |
| `ChatClient.EventsOf` | client/NetworkClient.cpp:150-224 | At most one signal per payload; when no payload is a JSON object, no signal is emitted. |
| `ChatClient.EventsFrom` | client/NetworkClient.cpp:172-223 | One payload emits at most one signal. |
| `ChatClient.RepliesRead` | client/NetworkClient.cpp:181-223 | Each server reply becomes its signal: success for a true `success` flag, otherwise failure with the server's message. It carries the sender, content and timestamp, and the entry list in order. The error push emits nothing. |
| `ChatClient.FrameCarriesObject` | client/NetworkClient.cpp:145-225 | A frame the server writes decodes on the client as one payload, which becomes the object's signal. |
| `ChatClient.NetworkClient.constructor` | client/NetworkClient.cpp:8-13 | A new client has no socket, empty buffers, no pending length and no signals. |
| `ChatClient.NetworkClient.SendMessage` | client/NetworkClient.cpp:110-129 | A connected socket gets exactly the frame of the compact JSON. Without a connected socket nothing is written. |
| `ChatClient.NetworkClient.RegisterUser` | client/NetworkClient.cpp:53-67 | Sends the register request. |
| `ChatClient.NetworkClient.LoginUser` | client/NetworkClient.cpp:69-78 | Sends the login request. |
| `ChatClient.NetworkClient.SendChatMessage` | client/NetworkClient.cpp:80-86 | Sends the chat request with the content only. |
| `ChatClient.NetworkClient.RequestUserList` | client/NetworkClient.cpp:88-93 | Sends the user-list request. |
| `ChatClient.NetworkClient.SearchUsers` | client/NetworkClient.cpp:95-101 | Sends the search request. |
| `ChatClient.NetworkClient.SendLogout` | client/NetworkClient.cpp:103-108 | Sends the logout request. |
| `ChatClient.NetworkClient.ReadFrame` | client/NetworkClient.cpp:152-168 | The same header, payload and reset discipline as the server's loop, advancing as `Drain` does. |
| `ChatClient.NetworkClient.HandlePayload` | client/NetworkClient.cpp:172-223 | Appends the payload's signal, if it is a reply object of a known type; otherwise nothing. |
| `ChatClient.NetworkClient.ReadStep` | client/NetworkClient.cpp:150-224 | One loop iteration advances the decoder as `Drain` does and appends the payload's signal, if any. |
| `ChatClient.NetworkClient.OnReadyRead` | client/NetworkClient.cpp:145-225 | Without a socket nothing happens. Otherwise the loop takes exactly the payloads `Drain` determines and emits their signals, in order. |
| `LegacyMessage.Code` | common/Message.h:12-23 | `static_cast<int>` of the type: the enumerators count from 0 in declaration order, and an unnamed value keeps its int. |
| `LegacyMessage.TypeOfCode` | common/Message.cpp:33 | `static_cast<MessageType>` of an int: 0 to 9 are the enumerators in order, any other int an unnamed value. `CodeRoundTrip` shows the two casts are inverse. |
| `LegacyMessage.CodeRoundTrip` | common/Message.h:12-23 | Casting a type to int and back is the identity, on every int and on every type a cast can produce. |
| `LegacyMessage.TypeToString` | common/Message.cpp:73-87 | The name of each enumerator, `ERROR` for `ERR_MSG`, and `UNKNOWN` for an unnamed value. |
| `LegacyMessage.StringToType` | common/Message.cpp:89-101 | The enumerator a name denotes, and `ERR_MSG` for `ERROR` and for every string outside the table. `TypeStringRoundTrip` shows the table reads back. |
| `LegacyMessage.TypeStringRoundTrip` | common/Message.cpp:73-101 | Every named type survives `typeToString` then `stringToType`. An unnamed value prints "UNKNOWN" and reads back as `ERR_MSG`. The ten names survive the other way round. |
| `LegacyMessage.UnknownStringIsError` | common/Message.cpp:89-101 | Every string outside the table reads as `ERR_MSG`. |
| `LegacyMessage.SkipSpace` | common/Message.cpp:33 | Scanning a number first skips exactly the leading white space: what is left is a suffix of the input, everything skipped is white space, and what is left does not start with white space. |
| `LegacyMessage.Stoi` | common/Message.cpp:33 | `stoi` yields a 32-bit int or throws. |
| `LegacyMessage.Stoll` | common/Message.cpp:48 | `stoll` yields a 64-bit int or throws. |
| `LegacyMessage.Stoull` | common/Message.cpp:54 | `stoull` yields an unsigned 64-bit value or throws. A negative number is taken modulo 2^64. |
| `LegacyMessage.ConvertIntToString` | common/Message.cpp:17-21 | Each conversion reads back an integer printed by `operator<<` when it is within range. |
| `LegacyMessage.GetLineField` | common/Message.cpp:32-53 | `getline` with the pipe delimiter extracts a field free of pipes and resumes after the delimiter. |
| `LegacyMessage.ReadContent` | common/Message.cpp:58-61 | The content read has exactly the declared length. It holds the available characters, then NULs for those missing. |
| `LegacyMessage.Serialize` | common/Message.cpp:15-24 | The type code, sender, recipient, timestamp and the content's length, each followed by the separator, then the content. `DeserializeSerialize` shows `deserialize` reads it back. |
| `LegacyMessage.Deserialize` | common/Message.cpp:26-64 | Starts from `Message()` stamped with the clock reading and reads the five fields in order, then the content, or yields the exception a conversion throws. |
| `LegacyMessage.ReadType` | common/Message.cpp:31-34 | A type field that `getline` found is converted by `stoi` and cast, and a throw ends decoding. A missing field keeps the default type. |
| `LegacyMessage.ReadSender` | common/Message.cpp:36-39 | The sender is the field `getline` found, or stays empty when there is none. |
| `LegacyMessage.ReadRecipient` | common/Message.cpp:41-44 | The recipient is the field `getline` found, or stays empty when there is none. |
| `LegacyMessage.ReadTimestamp` | common/Message.cpp:46-49 | A timestamp field that `getline` found is converted by `stoll`, and a throw ends decoding. A missing field keeps the clock reading. |
| `LegacyMessage.ReadLength` | common/Message.cpp:51-61 | A length field is converted by `stoull`, and a missing one means 0. A throw ends decoding. Only a length above 0 reads that many characters of content. |
| `LegacyMessage.DeserializeSerialize` | common/Message.cpp:15-64 | `deserialize(serialize(m)) == m` for every well-formed message whose sender and recipient hold no pipe character. The content may hold pipes. |
| `LegacyMessage.DeserializeFields` | common/Message.cpp:26-64 | Five pipe-free fields whose numbers convert are read into the message field by field, and only the declared length of the rest is read. |
| `LegacyMessage.ZeroLengthReadsNothing` | common/Message.cpp:52-61 | A declared content length of 0 leaves the content empty, whatever follows. |
| `LegacyMessage.EmptyIsDefault` | common/Message.cpp:5-7 | An empty string deserializes as `Message()`: a `SEND_MESSAGE` with empty fields and the current time. |
| `LegacyMessage.EmptyTypeThrows` | common/Message.cpp:32-34 | An empty type field makes `stoi` throw `invalid_argument`. |
| `LegacyMessage.NegativeLengthWraps` | common/Message.cpp:53-55 | A declared length of "-1" becomes 2^64 - 1 characters. |

## Left out

- **Sockets, signals and lifetime.**
  - Connecting, accepting connections, and the `connected`, `disconnected` and `errorOccurred` wiring: `connectToServer`, `onConnected`, `onError`, `Server::onNewConnection` and `ClientSession::start`. `NetworkClient::onDisconnected` only emits a signal.
  - `deleteLater` and `shared_ptr` lifetime.
  - Each socket is two byte sequences.
- **Mutexes.** `QMutexLocker` and `clientsMutex` are concurrency; every operation here is atomic and sequential.
- **SHA-256.** `hashPassword` takes SHA-256 as a function parameter; hex rendering is part of that parameter.
- **`QJsonDocument`.** Compact serialisation and `fromJson` form a codec given as a parameter. The lemmas that need a round trip assume `Lawful` of it: parsing inverts serialising, and an empty document is not an object. JSON numbers are not distinguished from null, because the protocol never reads one.
- **`QString::toLower`.** It is modelled as ASCII lower-casing, without Unicode case tables.
- **QString ordering.** It is lexicographic on code units. UTF-16 surrogate encoding is not modelled.
- **Files.** Opening, reading and writing are left out. `save` is the line format (`Directory.SaveLines`) and `load` takes the file as its lines. Splitting the file at newlines, and records holding a newline, are outside the model.
- **Save after registration.** `registerUser` also calls `save()`, and the destructor saves. These are file writes, so they are not modelled.
- **Clock.** `QDateTime::currentDateTime` and `std::time` are a `now` parameter. `getFormattedTime` (common/Message.cpp:66-71) is left out because it depends on `localtime` and the locale.
- **Logging.** `qDebug` and `qWarning` output.
- ChatServer.Entry: the chained `QString::arg` substitutes each field in turn, and each call replaces the lowest-numbered `%n` marker left in the string. A field that itself holds a `%n` marker would therefore shift or absorb later fields. This applies to `%1` as well, and to `%5` in search entries. The model concatenates the fields as given.
- ChatServer.ClientSession.OnReadyRead: the effect of handling each payload is stated one iteration at a time, by `ReadStep`. The contract of the whole loop does not compose those effects into one description of several requests handled in order. It states the decoder state, the payloads taken, that nothing else changes when no payload is a JSON object, and that the registry stays consistent.
- **Byte strings in the legacy codec.** A `std::string` is modelled as a sequence of characters, one per byte. Its `length()` is the byte count only when every character stands for one byte. UTF-8 encoding of other characters is not modelled.
- LegacyMessage.ReadContent: allocation failure of `resize` for a huge declared length (`length_error`, `bad_alloc`) is not modelled.
- **Legacy messages.** `LegacyMessage.NewMessage` and `LegacyMessage.DefaultMessage` just build a value. Their properties are stated through `EmptyIsDefault` and `DeserializeSerialize`. The `Message::Message` constructors stamp the message with the clock, which is the `now` parameter.
- **Out of scope.** `server.cpp`, `server/main.cpp`, the client's dialogs and main window, and `client/main.cpp` are process set-up and user interface, not protocol logic.
