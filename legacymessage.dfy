/**
 * The legacy text message of common/Message.cpp: `serialize` writes
 * `type|sender|recipient|timestamp|length|content`, and `deserialize` reads
 * it back field by field from an `istringstream` with `getline(…, '|')`,
 * converting numbers with `stoi`/`stoll`/`stoull` and reading the content
 * by its declared length, so the content may itself contain '|'.
 */
module LegacyMessage {
  import opened Wrappers
  import opened Text

  // ---------------------------------------------------------------------------
  // Message types
  // ---------------------------------------------------------------------------

  /**
   * `enum class MessageType`. A `static_cast` from an int outside 0..9 is
   * legal and yields an unnamed value, kept here as `Unnamed(code)`.
   */
  datatype MessageType =
    | Register
    | Login
    | Logout
    | UserList
    | SearchUser
    | SendMessage
    | ReceiveMessage
    | StatusUpdate
    | Success
    | ErrMsg
    | Unnamed(code: int)

  const Int32Min: int := -0x8000_0000
  const Int32Limit: int := 0x8000_0000
  const Int64Min: int := -0x8000_0000_0000_0000
  const Int64Limit: int := 0x8000_0000_0000_0000
  const U64Limit: int := 0x1_0000_0000_0000_0000

  /** An unnamed value is an int the enumerators do not cover. */
  predicate WellFormedType(t: MessageType)
  {
    t.Unnamed? ==> !(0 <= t.code <= 9) && Int32Min <= t.code < Int32Limit
  }

  /** `static_cast<int>(type)`: enumerators count from 0. */
  function Code(t: MessageType): int
  {
    match t
    case Register => 0
    case Login => 1
    case Logout => 2
    case UserList => 3
    case SearchUser => 4
    case SendMessage => 5
    case ReceiveMessage => 6
    case StatusUpdate => 7
    case Success => 8
    case ErrMsg => 9
    case Unnamed(c) => c
  }

  /** `static_cast<MessageType>(code)`. */
  function TypeOfCode(code: int): MessageType
  {
    if code == 0 then Register
    else if code == 1 then Login
    else if code == 2 then Logout
    else if code == 3 then UserList
    else if code == 4 then SearchUser
    else if code == 5 then SendMessage
    else if code == 6 then ReceiveMessage
    else if code == 7 then StatusUpdate
    else if code == 8 then Success
    else if code == 9 then ErrMsg
    else Unnamed(code)
  }

  /** The two casts are inverse: on every int, and on every well-formed type. */
  lemma CodeRoundTrip(code: int, t: MessageType)
    ensures Code(TypeOfCode(code)) == code
    ensures WellFormedType(t) ==> TypeOfCode(Code(t)) == t
    ensures Int32Min <= code < Int32Limit ==> WellFormedType(TypeOfCode(code))
  {
  }

  /** `typeToString`: "UNKNOWN" for an unnamed value. */
  function TypeToString(t: MessageType): string
  {
    match t
    case Register => "REGISTER"
    case Login => "LOGIN"
    case Logout => "LOGOUT"
    case UserList => "USER_LIST"
    case SearchUser => "SEARCH_USER"
    case SendMessage => "SEND_MESSAGE"
    case ReceiveMessage => "RECEIVE_MESSAGE"
    case StatusUpdate => "STATUS_UPDATE"
    case Success => "SUCCESS"
    case ErrMsg => "ERROR"
    case Unnamed(_) => "UNKNOWN"
  }

  /** `stringToType`: every unrecognised string reads as `ERR_MSG`. */
  function StringToType(s: string): MessageType
  {
    if s == "REGISTER" then Register
    else if s == "LOGIN" then Login
    else if s == "LOGOUT" then Logout
    else if s == "USER_LIST" then UserList
    else if s == "SEARCH_USER" then SearchUser
    else if s == "SEND_MESSAGE" then SendMessage
    else if s == "RECEIVE_MESSAGE" then ReceiveMessage
    else if s == "STATUS_UPDATE" then StatusUpdate
    else if s == "SUCCESS" then Success
    else if s == "ERROR" then ErrMsg
    else ErrMsg
  }

  const TypeNames: seq<string> := ["REGISTER", "LOGIN", "LOGOUT", "USER_LIST", "SEARCH_USER",
    "SEND_MESSAGE", "RECEIVE_MESSAGE", "STATUS_UPDATE", "SUCCESS", "ERROR"]

  /**
   * The table reads back: every named type survives `typeToString` then
   * `stringToType` (`ERR_MSG` through "ERROR"), an unnamed one comes back as
   * `ERR_MSG` through "UNKNOWN", and the ten names survive the other way round.
   */
  lemma TypeStringRoundTrip(t: MessageType, s: string)
    ensures !t.Unnamed? ==> StringToType(TypeToString(t)) == t
    ensures t.Unnamed? ==> TypeToString(t) == "UNKNOWN" && StringToType(TypeToString(t)) == ErrMsg
    ensures s in TypeNames ==> TypeToString(StringToType(s)) == s
  {
  }

  /** Any string outside the table is `ERR_MSG`. */
  lemma UnknownStringIsError(s: string)
    requires s !in TypeNames
    ensures StringToType(s) == ErrMsg
  {
  }

  // ---------------------------------------------------------------------------
  // Messages
  // ---------------------------------------------------------------------------

  /** `class Message`; `timestamp` is a `time_t`. */
  datatype Message = Message(kind: MessageType, sender: string, recipient: string, content: string, timestamp: int)

  /** `Message()`: a `SEND_MESSAGE` with empty fields, stamped with the clock reading `now`. */
  function DefaultMessage(now: int): Message
  {
    Message(SendMessage, "", "", "", now)
  }

  /** `Message(type, sender, recipient, content)`, stamped with `now`. */
  function NewMessage(kind: MessageType, sender: string, recipient: string, content: string, now: int): Message
  {
    Message(kind, sender, recipient, content, now)
  }

  /** `serialize`: the content's length is written before it, so the content may hold '|'. */
  function Serialize(m: Message): string
  {
    Fields(IntToString(Code(m.kind)), m.sender, m.recipient, IntToString(m.timestamp), NatToString(|m.content|), m.content)
  }

  /** The wire layout: five fields, each followed by '|', then the rest. */
  function Fields(code: string, sender: string, recipient: string, time: string, length: string, rest: string): string
  {
    code + "|" + (sender + "|" + (recipient + "|" + (time + "|" + (length + "|" + rest))))
  }

  // ---------------------------------------------------------------------------
  // The standard-library conversions deserialize relies on
  // ---------------------------------------------------------------------------

  /** `isspace` in the C locale. */
  predicate IsSpace(c: char)
  {
    c == ' ' || c == '\t' || c == '\n' || c == '\U{000B}' || c == '\U{000C}' || c == '\r'
  }

  function SkipSpace(s: string): (t: string)
    ensures |t| <= |s| && t == s[|s| - |t|..]
    ensures forall i :: 0 <= i < |s| - |t| ==> IsSpace(s[i])
    ensures t != [] ==> !IsSpace(t[0])
  {
    if s != [] && IsSpace(s[0]) then SkipSpace(s[1..]) else s
  }

  /** Nothing is skipped before a character that is not white space. */
  lemma SkipNoSpace(s: string)
    requires s == [] || !IsSpace(s[0])
    ensures SkipSpace(s) == s
  {
  }

  /** The length of the run of decimal digits `s` starts with. */
  function DigitRun(s: string): (k: nat)
    ensures k <= |s|
    ensures forall i :: 0 <= i < k ==> IsDigit(s[i])
    ensures k < |s| ==> !IsDigit(s[k])
  {
    if s != [] && IsDigit(s[0]) then 1 + DigitRun(s[1..]) else 0
  }

  /** A number as `strtol`-like scanning finds it: a sign and the magnitude of the digits. */
  datatype Scanned = Scanned(negative: bool, magnitude: nat)

  /**
   * `strtol`/`strtoull` in base 10: leading white space, an optional sign,
   * then the longest run of digits; what follows is ignored. None when there
   * are no digits.
   */
  function ScanInteger(s: string): Option<Scanned>
  {
    var t := SkipSpace(s);
    if t != [] && (t[0] == '-' || t[0] == '+') then ScanDigitRun(t[0] == '-', t[1..])
    else ScanDigitRun(false, t)
  }

  function ScanDigitRun(negative: bool, u: string): Option<Scanned>
  {
    var k := DigitRun(u);
    if k == 0 then None else Some(Scanned(negative, DigitsValue(u[..k])))
  }

  function SignedValue(n: Scanned): int
  {
    if n.negative then -(n.magnitude as int) else n.magnitude
  }

  /** What a conversion yields, or the exception it throws. */
  datatype Conversion = Converted(value: int) | InvalidArgument | OutOfRange

  /** `std::stoi`: an `int`, `out_of_range` beyond 32 bits. */
  function Stoi(s: string): (r: Conversion)
    ensures r.Converted? ==> Int32Min <= r.value < Int32Limit
  {
    match ScanInteger(s)
    case None => InvalidArgument
    case Some(n) =>
      if Int32Min <= SignedValue(n) < Int32Limit then Converted(SignedValue(n)) else OutOfRange
  }

  /** `std::stoll`: a `long long`, `out_of_range` beyond 64 bits. */
  function Stoll(s: string): (r: Conversion)
    ensures r.Converted? ==> Int64Min <= r.value < Int64Limit
  {
    match ScanInteger(s)
    case None => InvalidArgument
    case Some(n) =>
      if Int64Min <= SignedValue(n) < Int64Limit then Converted(SignedValue(n)) else OutOfRange
  }

  /**
   * `std::stoull`: an `unsigned long long`; a '-' negates the magnitude
   * modulo 2^64, and only a magnitude beyond 64 bits is `out_of_range`.
   */
  function Stoull(s: string): (r: Conversion)
    ensures r.Converted? ==> 0 <= r.value < U64Limit
  {
    match ScanInteger(s)
    case None => InvalidArgument
    case Some(n) =>
      if n.magnitude >= U64Limit then OutOfRange
      else Converted(if n.negative && n.magnitude > 0 then U64Limit - n.magnitude else n.magnitude)
  }

  /** A run of digits, after an optional '-', scans as itself. */
  lemma ScanDigits(sign: string, s: string)
    requires sign == "" || sign == "-"
    requires s != [] && forall i :: 0 <= i < |s| ==> IsDigit(s[i])
    ensures ScanInteger(sign + s) == Some(Scanned(sign == "-", DigitsValue(s)))
  {
    var t := sign + s;
    if sign == "-" {
      assert t[0] == '-' && t[1..] == s;
    } else {
      assert t == s && IsDigit(t[0]);
    }
    SkipNoSpace(t);
    ScanWholeRun(sign == "-", s);
  }

  lemma ScanWholeRun(negative: bool, s: string)
    requires s != [] && forall i :: 0 <= i < |s| ==> IsDigit(s[i])
    ensures ScanDigitRun(negative, s) == Some(Scanned(negative, DigitsValue(s)))
  {
    DigitRunAll(s);
    assert s[..|s|] == s;
  }

  lemma {:induction false} DigitRunAll(s: string)
    requires forall i :: 0 <= i < |s| ==> IsDigit(s[i])
    ensures DigitRun(s) == |s|
  {
    if s != [] {
      DigitRunAll(s[1..]);
    }
  }

  /** How `operator<<` prints an integer is read back by the scanner. */
  lemma ScanIntToString(i: int)
    ensures ScanInteger(IntToString(i)) == Some(Scanned(i < 0, if i < 0 then -i else i))
  {
    var digits := NatToString(if i < 0 then -i else i);
    DigitsValueOfNat(if i < 0 then -i else i);
    if i < 0 {
      ScanDigits("-", digits);
    } else {
      ScanDigits("", digits);
      assert "" + digits == digits;
    }
  }

  /** Each conversion reads back a printed integer within its range. */
  lemma ConvertIntToString(i: int)
    ensures Int32Min <= i < Int32Limit ==> Stoi(IntToString(i)) == Converted(i)
    ensures Int64Min <= i < Int64Limit ==> Stoll(IntToString(i)) == Converted(i)
    ensures 0 <= i < U64Limit ==> Stoull(IntToString(i)) == Converted(i)
  {
    ScanIntToString(i);
  }

  // ---------------------------------------------------------------------------
  // The input stream
  // ---------------------------------------------------------------------------

  /**
   * An `istringstream` as `deserialize` uses it: the characters not yet
   * extracted while the stream is good, None once a read has hit the end
   * (after which every further read fails and extracts nothing).
   */
  type Stream = Option<string>

  /** The outcome of one `getline(iss, token, '|')`: the token if it succeeded, and the stream after. */
  datatype Line = Line(token: Option<string>, next: Stream)

  /** The index of the first `sep` in `s`. */
  function FirstIndex(s: string, sep: char): (i: nat)
    requires sep in s
    ensures i < |s| && s[i] == sep && sep !in s[..i]
  {
    if s[0] == sep then 0
    else
      var j := FirstIndex(s[1..], sep);
      assert s[..j + 1] == [s[0]] + s[1..][..j];
      j + 1
  }

  /**
   * `std::getline` with delimiter '|': fails on a stream that is not good or
   * has nothing left; otherwise extracts up to the first '|', which it
   * discards, or to the end, which makes the stream no longer good.
   */
  function GetLine(s: Stream): (l: Line)
    ensures l.token.None? ==> l.next.None?
  {
    match s
    case None => Line(None, None)
    case Some(rest) =>
      if rest == [] then Line(None, None)
      else if '|' in rest then
        var i := FirstIndex(rest, '|');
        Line(Some(rest[..i]), Some(rest[i + 1..]))
      else Line(Some(rest), None)
  }

  /** A field free of '|' comes off first, and reading resumes after its delimiter. */
  lemma GetLineField(field: string, rest: string)
    requires '|' !in field
    ensures GetLine(Some(field + "|" + rest)) == Line(Some(field), Some(rest))
  {
    var s := field + "|" + rest;
    assert s[|field|] == '|';
    var i := FirstIndex(s, '|');
    assert s[..i] == field;
    assert s[i + 1..] == rest;
  }

  /** `'\0'` repeated. */
  function Nuls(n: nat): (z: string)
    ensures |z| == n && forall i :: 0 <= i < n ==> z[i] == '\0'
  {
    seq(n, i => '\0')
  }

  /**
   * `content.resize(n)` then `iss.read(&content[0], n)`: the characters
   * available, up to `n`, then NULs for those that were not there.
   */
  function ReadContent(s: Stream, n: nat): (c: string)
    ensures |c| == n
    ensures forall i :: 0 <= i < n ==> c[i] == if s.Some? && i < |s.value| then s.value[i] else '\0'
  {
    match s
    case None => Nuls(n)
    case Some(rest) => if |rest| >= n then rest[..n] else rest + Nuls(n - |rest|)
  }

  // ---------------------------------------------------------------------------
  // Deserializing
  // ---------------------------------------------------------------------------

  /** `deserialize`, or the `std::invalid_argument`/`std::out_of_range` a conversion throws. */
  datatype Decoded = Decoded(message: Message) | Threw(error: Conversion)

  /** A field's text: the token when its `getline` succeeded, otherwise what the message held. */
  function FieldText(l: Line, otherwise: string): string
  {
    if l.token.Some? then l.token.value else otherwise
  }

  /**
   * `deserialize`: starts from `Message()` (stamped `now`) and overwrites
   * the fields one `getline` at a time, each only if its `getline` succeeds.
   */
  function Deserialize(data: string, now: int): Decoded
  {
    ReadType(GetLine(Some(data)), DefaultMessage(now))
  }

  /** The type field, through `stoi`. */
  function ReadType(l: Line, msg: Message): Decoded
  {
    if l.token.None? then ReadSender(GetLine(l.next), msg)
    else match Stoi(l.token.value)
      case Converted(code) => ReadSender(GetLine(l.next), msg.(kind := TypeOfCode(code)))
      case e => Threw(e)
  }

  function ReadSender(l: Line, msg: Message): Decoded
  {
    ReadRecipient(GetLine(l.next), msg.(sender := FieldText(l, msg.sender)))
  }

  function ReadRecipient(l: Line, msg: Message): Decoded
  {
    ReadTimestamp(GetLine(l.next), msg.(recipient := FieldText(l, msg.recipient)))
  }

  /** The timestamp field, through `stoll`. */
  function ReadTimestamp(l: Line, msg: Message): Decoded
  {
    if l.token.None? then ReadLength(GetLine(l.next), msg)
    else match Stoll(l.token.value)
      case Converted(time) => ReadLength(GetLine(l.next), msg.(timestamp := time))
      case e => Threw(e)
  }

  /**
   * The length field, through `stoull` (0 when its `getline` fails), then
   * the content, read only for a length above 0.
   */
  function ReadLength(l: Line, msg: Message): Decoded
  {
    var length := if l.token.None? then Converted(0) else Stoull(l.token.value);
    match length
    case Converted(n) => Decoded(if n > 0 then msg.(content := ReadContent(l.next, n)) else msg)
    case e => Threw(e)
  }

  /** The messages `serialize` can write: a `time_t` stamp and a type a cast can produce. */
  predicate WellFormed(m: Message)
  {
    WellFormedType(m.kind) && Int64Min <= m.timestamp < Int64Limit && |m.content| < U64Limit
  }

  /**
   * Deserializing inverts serializing for every well-formed message whose
   * sender and recipient hold no '|'; the content may hold any character.
   */
  lemma DeserializeSerialize(m: Message, now: int)
    requires WellFormed(m) && '|' !in m.sender && '|' !in m.recipient
    ensures Deserialize(Serialize(m), now) == Decoded(m)
  {
    var c, t, l := IntToString(Code(m.kind)), IntToString(m.timestamp), NatToString(|m.content|);
    SerializedNumbers(m);
    DeserializeFields(c, m.sender, m.recipient, t, l, m.content, now);
    CodeInRange(m.kind);
    ReadWhole(m.content);
  }

  lemma ReadWhole(s: string)
    ensures ReadContent(Some(s), |s|) == s
  {
    assert s[..|s|] == s;
  }

  /** The numbers `serialize` prints hold no '|' and convert back. */
  lemma SerializedNumbers(m: Message)
    requires WellFormed(m)
    ensures var c, t, l := IntToString(Code(m.kind)), IntToString(m.timestamp), NatToString(|m.content|);
      '|' !in c && '|' !in t && '|' !in l
      && Stoi(c) == Converted(Code(m.kind)) && Stoll(t) == Converted(m.timestamp)
      && Stoull(l) == Converted(|m.content|)
  {
    CodeInRange(m.kind);
    NumberHasNoSep(Code(m.kind));
    NumberHasNoSep(m.timestamp);
    NumberHasNoSep(|m.content|);
    ConvertIntToString(Code(m.kind));
    ConvertIntToString(m.timestamp);
    ConvertIntToString(|m.content|);
  }

  lemma CodeInRange(t: MessageType)
    requires WellFormedType(t)
    ensures Int32Min <= Code(t) < Int32Limit && TypeOfCode(Code(t)) == t
  {
  }

  /**
   * Five '|'-free fields whose numbers convert are read into the message
   * field by field, and only the declared length of the rest is read.
   */
  lemma DeserializeFields(code: string, sender: string, recipient: string, time: string, length: string,
                          rest: string, now: int)
    requires '|' !in code && '|' !in sender && '|' !in recipient && '|' !in time && '|' !in length
    requires Stoi(code).Converted? && Stoll(time).Converted? && Stoull(length).Converted?
    ensures var n := Stoull(length).value;
      Deserialize(Fields(code, sender, recipient, time, length, rest), now)
      == Decoded(Message(TypeOfCode(Stoi(code).value), sender, recipient,
                         if n > 0 then ReadContent(Some(rest), n) else "", Stoll(time).value))
  {
    var r4 := length + "|" + rest;
    var r3 := time + "|" + r4;
    var r2 := recipient + "|" + r3;
    var r1 := sender + "|" + r2;
    GetLineField(code, r1);
    GetLineField(sender, r2);
    GetLineField(recipient, r3);
    GetLineField(time, r4);
    GetLineField(length, rest);
  }

  /** A printed number holds no '|'. */
  lemma NumberHasNoSep(i: int)
    ensures '|' !in IntToString(i)
    ensures i >= 0 ==> IntToString(i) == NatToString(i)
  {
  }

  /** A declared length of 0 leaves the content empty, whatever follows. */
  lemma ZeroLengthReadsNothing(code: int, sender: string, recipient: string, time: int, rest: string, now: int)
    requires Int32Min <= code < Int32Limit && Int64Min <= time < Int64Limit
    requires '|' !in sender && '|' !in recipient
    ensures Deserialize(IntToString(code) + "|" + sender + "|" + recipient + "|" + IntToString(time) + "|0|" + rest, now)
      == Decoded(Message(TypeOfCode(code), sender, recipient, "", time))
  {
    var c, t := IntToString(code), IntToString(time);
    assert IntToString(0) == "0";
    assert c + "|" + sender + "|" + recipient + "|" + t + "|0|" + rest == Fields(c, sender, recipient, t, "0", rest);
    NumberHasNoSep(code);
    NumberHasNoSep(time);
    ConvertIntToString(code);
    ConvertIntToString(time);
    ConvertIntToString(0);
    DeserializeFields(c, sender, recipient, t, "0", rest, now);
  }

  /** An empty string reads as the default message: every `getline` fails. */
  lemma EmptyIsDefault(now: int)
    ensures Deserialize("", now) == Decoded(DefaultMessage(now))
  {
  }

  /** A type field with no digits throws `std::invalid_argument`. */
  lemma EmptyTypeThrows(rest: string, now: int)
    ensures Deserialize("|" + rest, now) == Threw(InvalidArgument)
  {
    GetLineField("", rest);
    assert "" + "|" + rest == "|" + rest;
  }

  /** `stoull` wraps a negative length: "-1" declares 2^64 - 1 characters. */
  lemma NegativeLengthWraps()
    ensures Stoull("-1") == Converted(U64Limit - 1)
  {
    SkipNoSpace("-1");
    assert "-1"[1..] == "1";
    DigitRunAll("1");
    assert "1"[..1] == "1";
  }
}
