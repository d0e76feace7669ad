/**
 * One refusal, from the backend to a recording and back out to a client: crates/heyl-grpc/src/status.rs,
 * crates/heyl-grpc/src/corpus.rs, crates/heyl-grpc/src/server.rs, and the client's trailer parser,
 * vendor/tonic-web/src/call.rs.
 */
module Errors {
  import opened Wrappers
  import Text

  datatype ApiError =
    | Unauthenticated(code: Option<int>)
    | PermissionDenied(code: Option<int>)
    | BadRequest(code: Option<int>, message: string)
    | ClientOutdated
    | Backend(status: int, code: Option<int>, message: string, detail: string)
    | Transport(reason: string)
    | Unimplemented(method_: string)
    | MalformedResponse(what: string)

  /** `DomainError`, as the details of a status carry it. */
  datatype Detail = Detail(code: int, userTitle: string, userDetail: string)

  /** A gRPC status: its code, its message, and the decoded details if there were any. */
  datatype Status = Status(code: nat, message: string, details: Option<Detail>)

  const UNKNOWN := 2
  const INVALID_ARGUMENT := 3
  const PERMISSION_DENIED := 7
  const UNIMPLEMENTED := 12
  const INTERNAL := 13
  const UNAUTHENTICATED := 16

  const MISSING_CREDENTIALS := 30100
  const REJECTED_CREDENTIALS := 30420
  const BAD_REQUEST := 10400

  predicate Contains(s: string, part: string) { exists i {:trigger s[i..]} :: 0 <= i <= |s| && part <= s[i..] }

  const NO_STATUS := "missing grpc-status"
  const NO_FINAL_STATUS := "stream was terminated without a final status"

  predicate IsTruncatedResponse(message: string) {
    Contains(message, NO_STATUS) || Contains(message, NO_FINAL_STATUS)
  }

  // ---- status to error

  function ToApiError(s: Status): ApiError {
    var code := match s.details case Some(d) => Some(d.code) case None => None;
    var message := if s.details.Some? && s.details.value.userTitle != "" then s.details.value.userTitle else s.message;
    var detail := if s.details.Some? then s.details.value.userDetail else "";
    if s.code == UNKNOWN && IsTruncatedResponse(s.message) then Transport(s.message)
    else Classified(s.code, code, message, detail)
  }

  function Classified(status: int, code: Option<int>, message: string, detail: string): ApiError {
    if code == Some(MISSING_CREDENTIALS) || status == UNAUTHENTICATED then Unauthenticated(code)
    else if code == Some(REJECTED_CREDENTIALS) || status == PERMISSION_DENIED then PermissionDenied(code)
    else if code == Some(BAD_REQUEST) then BadRequest(code, message)
    else Backend(status, code, message, detail)
  }

  lemma ContainsMeaning(s: string, part: string)
    ensures Contains(s, part) <==> exists front, back :: s == front + part + back
  {
    if Contains(s, part) {
      var i :| 0 <= i <= |s| && part <= s[i..];
      assert s == s[..i] + part + s[i + |part|..];
    }
    if front, back :| s == front + part + back {
      assert s[|front|..] == part + back;
    }
  }

  lemma TruncatedMeaning(message: string)
    ensures IsTruncatedResponse(message) <==>
      || (exists front, back :: message == front + "missing grpc-status" + back)
      || (exists front, back :: message == front + "stream was terminated without a final status" + back)
  {
    ContainsMeaning(message, NO_STATUS);
    ContainsMeaning(message, NO_FINAL_STATUS);
    hide Contains;
  }

  /**
   * How a status is read: an UNKNOWN one that was cut short is a failure of the transport; else heylogin's code
   * decides before the status does, credentials before requests; and the text shown is the title of the details
   * if they have one, and the status's own message if not.
   */
  lemma StatusMeaning(s: Status)
    ensures var e := ToApiError(s);
      var cut := s.code == 2 && IsTruncatedResponse(s.message);
      var code := if s.details.Some? then Some(s.details.value.code) else None;
      && (e == Transport(s.message) <==> cut) && (e.Transport? ==> cut)
      && (e == Unauthenticated(code) <==> !cut && (code == Some(30100) || s.code == 16))
      && (e == PermissionDenied(code) <==>
            !cut && code != Some(30100) && s.code != 16 && (code == Some(30420) || s.code == 7))
      && (e.BadRequest? <==> !cut && s.code != 16 && s.code != 7 && code == Some(10400))
      && (e.BadRequest? ==> e.code == code)
      && (e.Backend? ==> e.status == s.code && e.code == code)
      && (e.BadRequest? || e.Backend? ==>
            e.message == if s.details.Some? && s.details.value.userTitle != "" then s.details.value.userTitle
                         else s.message)
      && (e.Backend? ==> e.detail == if s.details.Some? then s.details.value.userDetail else "")
      && (e.Backend? <==> !cut && s.code != 16 && s.code != 7 && code !in {Some(30100), Some(30420), Some(10400)})
  {
    hide IsTruncatedResponse;
  }

  // ---- error to record and back

  datatype RecordedError = RecordedError(status: int, domainCode: Option<int>, message: string)

  /** `Display` of the variants that travel only as text. */
  function Show(e: ApiError): string
    requires !e.BadRequest? && !e.Backend?
  {
    match e
    case Unauthenticated(_) => "not authenticated"
    case PermissionDenied(_) => "permission denied"
    case ClientOutdated => "this client version is no longer accepted"
    case Transport(reason) => "transport failure: " + reason
    case Unimplemented(m) => m + " is not implemented by this API"
    case MalformedResponse(what) => "backend response is missing " + what
  }

  function Recorded(e: ApiError): RecordedError {
    match e
    case Unauthenticated(code) => RecordedError(UNAUTHENTICATED, code, Show(e))
    case PermissionDenied(code) => RecordedError(PERMISSION_DENIED, code, Show(e))
    case BadRequest(code, message) => RecordedError(INVALID_ARGUMENT, code, message)
    case Backend(status, code, message, _) => RecordedError(status, code, message)
    case _ => RecordedError(UNKNOWN, None, Show(e))
  }

  function Replayed(r: RecordedError): ApiError {
    if r.status == UNAUTHENTICATED then Unauthenticated(r.domainCode)
    else if r.status == PERMISSION_DENIED then PermissionDenied(r.domainCode)
    else if r.status == INVALID_ARGUMENT then BadRequest(r.domainCode, r.message)
    else Backend(r.status, r.domainCode, r.message, "")
  }

  // ---- error to the wire

  function Sanitise(message: string): (s: string)
    ensures |s| == |message| && Clean(s)
    ensures forall i :: 0 <= i < |s| ==> s[i] == message[i] || (s[i] == ' ' && message[i] in {'\r', '\n', ':'})
  {
    seq(|message|, i requires 0 <= i < |message| => if message[i] in {'\r', '\n', ':'} then ' ' else message[i])
  }

  /** Text that carries none of the trailer block's own framing. */
  predicate Clean(s: string) { forall i :: 0 <= i < |s| ==> s[i] !in {'\r', '\n', ':'} }

  function WireError(e: ApiError): (int, Option<int>, string) {
    match e
    case Unauthenticated(code) => (UNAUTHENTICATED, code, "unauthenticated")
    case PermissionDenied(code) => (PERMISSION_DENIED, code, "permission denied")
    case BadRequest(code, message) => (INVALID_ARGUMENT, code, Sanitise(message))
    case Backend(status, code, message, _) => (status, code, Sanitise(message))
    case Unimplemented(m) => (UNIMPLEMENTED, None, Sanitise("the scenario has no record for " + m))
    case _ => (UNKNOWN, None, Sanitise(Show(e)))
  }

  /** What percent-decoding a message to UTF-8 gives: its text, or the library's report that it has none. */
  datatype Decoding = Decoded(text: string) | Undecodable(report: string)

  /** Base64 of the protobuf details, and the client's decoding of a message: library code. */
  datatype Wire = Wire(pack: (int, Detail) -> string, unpack: string -> Option<Detail>, decode: string -> Decoding)

  predicate IsAlphanumeric(c: char) { '0' <= c <= '9' || 'a' <= c <= 'z' || 'A' <= c <= 'Z' }

  predicate Base64(s: string) { forall i :: 0 <= i < |s| ==> IsAlphanumeric(s[i]) || s[i] == '+' || s[i] == '/' }

  /** The details come back as they were packed; nothing is promised of messages. */
  ghost predicate Ideal(wire: Wire) {
    forall status, d :: Base64(wire.pack(status, d)) && wire.unpack(wire.pack(status, d)) == Some(d)
  }

  const CRLF := "\r\n"
  const STATUS_KEY := "grpc-status"
  const MESSAGE_KEY := "grpc-message"
  const DETAILS_KEY := "grpc-status-details-bin"

  function Integer(n: int): (s: string)
    ensures Clean(s)
  {
    if n < 0 then "-" + Text.Decimal(-n) else Text.Decimal(n)
  }

  function Line(key: string, value: string): string { key + ":" + value }

  function Block(lines: seq<string>): string {
    if lines == [] then "" else lines[0] + CRLF + Block(lines[1..])
  }

  function TrailerLines(wire: Wire, e: ApiError): seq<string> {
    var (status, code, message) := WireError(e);
    [Line(STATUS_KEY, Integer(status)), Line(MESSAGE_KEY, message)]
    + if code.Some? then [Line(DETAILS_KEY, wire.pack(status, Detail(code.value, message, "")))] else []
  }

  function Trailers(wire: Wire, e: ApiError): string { Block(TrailerLines(wire, e)) }

  // ---- the wire to a status

  /** The first line break, or the end. */
  function LineEnd(s: string): (n: nat)
    ensures n <= |s|
  {
    if s == "" || CRLF <= s then 0 else 1 + LineEnd(s[1..])
  }

  /** The lines of a block; what follows the last line break is dropped. */
  function Lines(s: string): seq<string> {
    var n := LineEnd(s);
    if n + 2 <= |s| then [s[..n]] + Lines(s[n + 2..]) else []
  }

  /** Where a character first stands, or the end. */
  function IndexOf(s: string, c: char): (n: nat)
    ensures n <= |s|
    ensures n < |s| ==> s[n] == c
    ensures forall i :: 0 <= i < n ==> s[i] != c
  {
    if s == "" || s[0] == c then 0 else 1 + IndexOf(s[1..], c)
  }

  /** `is_ascii_whitespace`. */
  predicate IsSpace(c: char) { c in {' ', '\t', '\n', '\r', '\U{0C}'} }

  function TrimStart(s: string): (t: string)
    ensures t == "" || !IsSpace(t[0])
  {
    Text.DropWhile(IsSpace, s)
  }

  /** A header value is visible characters, spaces, tabs and anything beyond ASCII: section 5.5 of RFC 9110. */
  predicate IsHeaderValue(s: string) { forall i :: 0 <= i < |s| ==> s[i] == '\t' || (' ' <= s[i] && s[i] != '\U{7F}') }

  /** A header name is a token, section 5.6.2 of RFC 9110. */
  predicate IsHeaderName(s: string) {
    s != "" && forall i :: 0 <= i < |s| ==>
      IsAlphanumeric(s[i]) || s[i] in {'!', '#', '$', '%', '&', '\'', '*', '+', '-', '.', '^', '_', '`', '|', '~'}
  }

  function Lower(s: string): (t: string)
    ensures |t| == |s|
    ensures (forall i :: 0 <= i < |s| ==> !('A' <= s[i] <= 'Z')) ==> t == s
  {
    seq(|s|, i requires 0 <= i < |s| => if 'A' <= s[i] <= 'Z' then s[i] + 32 as char else s[i])
  }

  const NO_COLON := "trailers couldn't parse key/value"
  const BAD_NAME := "Unable to parse HeaderName: invalid HTTP header name"
  const BAD_VALUE := "Unable to parse HeaderValue: failed to parse header value"

  /** One trailer: a name up to the first colon, and the rest without leading space. */
  function ReadTrailer(line: string): Result<(string, string), string> {
    var n := IndexOf(line, ':');
    if n == |line| then Err(NO_COLON)
    else if !IsHeaderName(line[..n]) then Err(BAD_NAME)
    else if !IsHeaderValue(TrimStart(line[n + 1..])) then Err(BAD_VALUE)
    else Ok((Lower(line[..n]), TrimStart(line[n + 1..])))
  }

  /** Every trailer, a repeated name keeping its last value; the first that cannot be read decides otherwise. */
  function ReadTrailers(lines: seq<string>): Result<map<string, string>, string> {
    if lines == [] then Ok(map[])
    else
      var earlier :- ReadTrailers(lines[..|lines| - 1]);
      var (name, value) :- ReadTrailer(lines[|lines| - 1]);
      Ok(earlier[name := value])
  }

  /** A status number the client does not know is UNKNOWN. */
  function CodeOf(s: string): nat {
    if s != "" && Text.AllDigits(s) && Text.Value(s) <= 16 && Text.Decimal(Text.Value(s)) == s
    then Text.Value(s) else UNKNOWN
  }

  /** The status a header map holds; one whose message cannot be decoded is UNKNOWN. */
  function FromHeaders(wire: Wire, headers: map<string, string>): Status {
    var details := if DETAILS_KEY in headers then wire.unpack(headers[DETAILS_KEY]) else None;
    if STATUS_KEY !in headers then Status(UNKNOWN, NO_STATUS, None)
    else match if MESSAGE_KEY in headers then wire.decode(headers[MESSAGE_KEY]) else Decoded("")
      case Decoded(text) => Status(CodeOf(headers[STATUS_KEY]), text, details)
      case Undecodable(report) => Status(UNKNOWN, report, details)
  }

  /** The status a client reads from a trailer block; a block it cannot read is INTERNAL. */
  function Received(wire: Wire, trailers: string): Status {
    match ReadTrailers(Lines(trailers))
    case Ok(headers) => FromHeaders(wire, headers)
    case Err(what) => Status(INTERNAL, what, None)
  }

  /** A header name is lower-cased letter by letter, A to Z and nothing else. */
  lemma LowerMeaning(s: string, i: nat)
    requires i < |s|
    ensures Lower(s)[i] as int == if 65 <= s[i] as int <= 90 then s[i] as int + 32 else s[i] as int
  {
  }

  /** A trailer is refused for want of a colon, for its name, or for its value, in that order. */
  lemma TrailerMeaning(line: string)
    ensures ReadTrailer(line) == Err(NO_COLON) <==> ':' !in line
    ensures forall name, value :: ':' !in name && line == name + ":" + value ==>
      ReadTrailer(line) ==
        if !IsHeaderName(name) then Err(BAD_NAME)
        else if !IsHeaderValue(TrimStart(value)) then Err(BAD_VALUE)
        else Ok((Lower(name), TrimStart(value)))
  {
    hide IsHeaderName, IsHeaderValue, TrimStart, Lower;
    var n := IndexOf(line, ':');
    forall name, value | ':' !in name && line == name + ":" + value
      ensures IndexOf(line, ':') == |name| && line[..|name|] == name && line[|name| + 1..] == value
    {
      IndexOfIs(line, ':', |name|);
    }
  }

  /** Leading space is trimmed and nothing else. */
  lemma {:induction false} TrimMeaning(space: string, s: string)
    requires forall i :: 0 <= i < |space| ==> space[i] in {' ', '\t', '\n', '\r', '\U{0C}'}
    requires s == "" || s[0] !in {' ', '\t', '\n', '\r', '\U{0C}'}
    ensures TrimStart(space + s) == s
  {
    if space == "" {
      assert space + s == s;
    } else {
      assert (space + s)[1..] == space[1..] + s;
      TrimMeaning(space[1..], s);
    }
  }

  /** What a header may hold, by code point: a name everything visible but the delimiters, a value all but controls. */
  lemma HeaderCharacters(c: char)
    ensures var n := c as int;
      && (IsHeaderValue([c]) <==> n == 9 || (32 <= n && n != 127))
      && (IsHeaderName([c]) <==>
            33 <= n <= 126 && n !in {34, 40, 41, 44, 47, 58, 59, 60, 61, 62, 63, 64, 91, 92, 93, 123, 125})
    ensures IsHeaderValue("") && !IsHeaderName("")
  {
    assert [c][0] == c;
  }

  /** Of a name given twice the later value counts, and the first trailer that cannot be read is what is reported. */
  lemma TrailersMeaning(lines: seq<string>, last: string)
    ensures ReadTrailers(lines).Err? ==> ReadTrailers(lines + [last]) == ReadTrailers(lines)
    ensures ReadTrailers(lines).Ok? && ReadTrailer(last).Err? ==>
      ReadTrailers(lines + [last]).Err? && ReadTrailers(lines + [last]).error == ReadTrailer(last).error
    ensures ReadTrailers(lines).Ok? && ReadTrailer(last).Ok? ==>
      var read := ReadTrailer(last).value;
      ReadTrailers(lines + [last]) == Ok(ReadTrailers(lines).value[read.0 := read.1])
  {
    assert (lines + [last])[..|lines|] == lines;
    hide ReadTrailer;
  }

  /** The numbers 0 to 16 in decimal are themselves, and any other text is UNKNOWN. */
  lemma CodeMeaning(s: string)
    ensures forall n: nat :: n <= 16 && s == Text.Decimal(n) ==> CodeOf(s) == n
    ensures (forall n: nat | n <= 16 :: s != Text.Decimal(n)) ==> CodeOf(s) == 2
  {
    if s != "" && Text.AllDigits(s) && Text.Value(s) <= 16 && Text.Decimal(Text.Value(s)) == s {
    }
  }

  /** A block without a status reads as a response cut short, whatever else it holds. */
  lemma NoStatusMeaning(wire: Wire, headers: map<string, string>)
    requires "grpc-status" !in headers
    ensures FromHeaders(wire, headers) == Status(2, "missing grpc-status", None)
    ensures ToApiError(FromHeaders(wire, headers)).Transport?
  {
    assert NO_STATUS <= NO_STATUS[0..];
  }

  /** Without a message the text is empty; the details are read from their own header. */
  lemma HeadersMeaning(wire: Wire, headers: map<string, string>)
    requires "grpc-status" in headers
    ensures var s := FromHeaders(wire, headers);
      && (s.details == if "grpc-status-details-bin" in headers then wire.unpack(headers["grpc-status-details-bin"])
                       else None)
      && (if "grpc-message" in headers && wire.decode(headers["grpc-message"]).Undecodable?
          then s.code == 2 && s.message == wire.decode(headers["grpc-message"]).report
          else s.code == CodeOf(headers["grpc-status"])
               && s.message == if "grpc-message" in headers then wire.decode(headers["grpc-message"]).text else "")
  {
  }

  // ---- the trailer block splits as it was built

  predicate NoBreaks(s: string) { forall i :: 0 <= i < |s| ==> s[i] !in {'\r', '\n'} }

  lemma {:induction false} LineEndOf(line: string, rest: string)
    requires NoBreaks(line)
    ensures LineEnd(line + CRLF + rest) == |line|
  {
    var s := line + CRLF + rest;
    if line == "" {
      assert s == CRLF + rest;
    } else {
      assert s[0] == line[0];
      assert s[1..] == line[1..] + CRLF + rest;
      LineEndOf(line[1..], rest);
    }
  }

  lemma {:induction false} LinesOfBlock(lines: seq<string>)
    requires forall i :: 0 <= i < |lines| ==> NoBreaks(lines[i])
    ensures Lines(Block(lines)) == lines
  {
    if lines != [] {
      var s := Block(lines);
      LineEndOf(lines[0], Block(lines[1..]));
      assert s[|lines[0]| + 2..] == Block(lines[1..]);
      LinesOfBlock(lines[1..]);
      assert s[..|lines[0]|] == lines[0];
      assert [lines[0]] + lines[1..] == lines;
    }
  }

  /** What follows the last line break is dropped. */
  lemma {:induction false} TailDropped(lines: seq<string>, tail: string)
    requires NoBreaks(tail) && forall i :: 0 <= i < |lines| ==> NoBreaks(lines[i])
    ensures Lines(Block(lines) + tail) == lines
  {
    if lines == [] {
      NoLineEnd(tail);
      assert Block(lines) + tail == tail;
    } else {
      var s, rest := Block(lines) + tail, Block(lines[1..]) + tail;
      assert s == lines[0] + CRLF + rest;
      LineEndOf(lines[0], rest);
      assert s[|lines[0]| + 2..] == rest;
      TailDropped(lines[1..], tail);
      assert s[..|lines[0]|] == lines[0];
      assert [lines[0]] + lines[1..] == lines;
    }
  }

  lemma {:induction false} NoLineEnd(s: string)
    requires NoBreaks(s)
    ensures LineEnd(s) == |s|
  {
    if s != "" {
      assert CRLF[0] == '\r' && s[0] != '\r';
      NoLineEnd(s[1..]);
    }
  }

  /** The trailer block of an error, written out. */
  lemma TrailersAre(wire: Wire, e: ApiError)
    ensures var (status, code, message) := WireError(e);
      Trailers(wire, e) ==
        "grpc-status" + ":" + Integer(status) + "\r\n"
        + ("grpc-message" + ":" + message + "\r\n"
           + if code == None then ""
             else "grpc-status-details-bin" + ":" + wire.pack(status, Detail(code.value, message, "")) + "\r\n" + "")
  {
    var (status, code, message) := WireError(e);
    var lines := TrailerLines(wire, e);
    hide WireError, Integer;
    var one, two := Line(STATUS_KEY, Integer(status)), Line(MESSAGE_KEY, message);
    if code == None {
      assert lines == [one, two];
      assert [two][1..] == [] && Block([two]) == two + CRLF + "";
      assert lines[1..] == [two] && Block(lines) == one + CRLF + Block([two]);
    } else {
      var three := Line(DETAILS_KEY, wire.pack(status, Detail(code.value, message, "")));
      assert lines == [one, two, three];
      assert [three][1..] == [] && Block([three]) == three + CRLF + "";
      assert [two, three][1..] == [three] && Block([two, three]) == two + CRLF + Block([three]);
      assert lines[1..] == [two, three] && Block(lines) == one + CRLF + Block([two, three]);
    }
  }

  lemma IntegerMeaning(n: int)
    ensures n >= 0 ==> Text.AllDigits(Integer(n)) && Text.Value(Integer(n)) == n
    ensures n < 0 ==> Integer(n)[0] == '-' && Text.AllDigits(Integer(n)[1..]) && Text.Value(Integer(n)[1..]) == -n
  {
    if n < 0 { assert Integer(n)[1..] == Text.Decimal(-n); }
  }

  /** What is sent for an error that was recorded: the status and the code it was recorded with, and its text. */
  lemma SentIs(live: ApiError)
    ensures Sent(live) ==
      match live
      case Unauthenticated(code) => (16, code, "unauthenticated")
      case PermissionDenied(code) => (7, code, "permission denied")
      case BadRequest(code, message) => (3, code, Sanitise(message))
      case ClientOutdated => (2, None, Sanitise("this client version is no longer accepted"))
      case Transport(reason) => (2, None, Sanitise("transport failure: " + reason))
      case Unimplemented(m) => (2, None, Sanitise(m + " is not implemented by this API"))
      case MalformedResponse(what) => (2, None, Sanitise("backend response is missing " + what))
      case Backend(status, code, message, _) =>
        if status == 16 then (16, code, "unauthenticated")
        else if status == 7 then (7, code, "permission denied")
        else (status, code, Sanitise(message))
  {
    hide Sanitise;
  }

  /** What replay itself sends for a call it has no record of. */
  lemma UnrecordedIs(m: string)
    ensures WireError(Unimplemented(m)) == (12, None, Sanitise("the scenario has no record for " + m))
  {
  }

  lemma WireMessageClean(e: ApiError)
    ensures Clean(WireError(e).2)
  {
  }

  /** Whatever the message held, the block splits into exactly the lines that were written. */
  lemma TrailersSplit(wire: Wire, e: ApiError)
    requires Ideal(wire)
    ensures Lines(Trailers(wire, e)) == TrailerLines(wire, e)
  {
    hide Lines, Block, WireError, Integer;
    var (status, code, message) := WireError(e);
    WireMessageClean(e);
    if code.Some? { assert Base64(wire.pack(status, Detail(code.value, message, ""))); }
    LinesOfBlock(TrailerLines(wire, e));
  }

  // ---- what of them the client can read

  lemma {:induction false} IndexOfIs(s: string, c: char, n: nat)
    requires n <= |s| && (n < |s| ==> s[n] == c) && forall i :: 0 <= i < n ==> s[i] != c
    ensures IndexOf(s, c) == n
  {
    var m := IndexOf(s, c);
    assert m <= n && n <= m;
  }

  /** A name the parser accepts and leaves as it is. */
  predicate PlainName(key: string) {
    IsHeaderName(key) && forall i :: 0 <= i < |key| ==> !('A' <= key[i] <= 'Z')
  }

  lemma NamesPlain()
    ensures PlainName(STATUS_KEY) && PlainName(MESSAGE_KEY) && PlainName(DETAILS_KEY)
    ensures STATUS_KEY != MESSAGE_KEY && STATUS_KEY != DETAILS_KEY && MESSAGE_KEY != DETAILS_KEY
  {
    hide PlainName;
    assert |STATUS_KEY| == 11 && |MESSAGE_KEY| == 12 && |DETAILS_KEY| == 23;
    LettersAndDashes(STATUS_KEY);
    LettersAndDashes(MESSAGE_KEY);
    LettersAndDashes(DETAILS_KEY);
  }

  lemma LettersAndDashes(key: string)
    requires key != "" && forall i :: 0 <= i < |key| ==> 'a' <= key[i] <= 'z' || key[i] == '-'
    ensures PlainName(key)
  {
  }

  /** A trailer is read up to its first colon, and only if what follows is a header value. */
  lemma ReadLine(key: string, value: string)
    requires PlainName(key)
    ensures ReadTrailer(Line(key, value)) ==
      if IsHeaderValue(TrimStart(value)) then Ok((key, TrimStart(value))) else Err(BAD_VALUE)
  {
    var line := Line(key, value);
    IndexOfIs(line, ':', |key|);
    assert line[..|key|] == key && line[|key| + 1..] == value;
  }

  lemma ReadNext(lines: seq<string>, key: string, value: string)
    requires PlainName(key) && ReadTrailers(lines).Ok?
    ensures ReadTrailers(lines + [Line(key, value)]) ==
      if IsHeaderValue(TrimStart(value)) then Ok(ReadTrailers(lines).value[key := TrimStart(value)]) else Err(BAD_VALUE)
  {
    ReadLine(key, value);
    assert (lines + [Line(key, value)])[..|lines|] == lines;
  }

  lemma ReadAfterRefusal(lines: seq<string>, last: string)
    requires ReadTrailers(lines).Err?
    ensures ReadTrailers(lines + [last]) == ReadTrailers(lines)
  {
    assert (lines + [last])[..|lines|] == lines;
  }

  /** Digits, a sign and base64 hold nothing to trim and nothing to refuse. */
  lemma PlainValue(s: string)
    requires forall i :: 0 <= i < |s| ==> IsAlphanumeric(s[i]) || s[i] in {'+', '/', '-'}
    ensures IsHeaderValue(s) && TrimStart(s) == s
  {
  }

  lemma TwoTrailers(number: string, message: string)
    requires forall i :: 0 <= i < |number| ==> IsAlphanumeric(number[i]) || number[i] in {'+', '/', '-'}
    ensures ReadTrailers([Line(STATUS_KEY, number), Line(MESSAGE_KEY, message)]) ==
      if IsHeaderValue(TrimStart(message)) then Ok(map[STATUS_KEY := number, MESSAGE_KEY := TrimStart(message)])
      else Err(BAD_VALUE)
  {
    hide ReadTrailers, IsHeaderValue, PlainName, TrimStart;
    NamesPlain();
    PlainValue(number);
    assert ReadTrailers([]) == Ok(map[]) by { ReadNothing(); }
    var one := [] + [Line(STATUS_KEY, number)];
    ReadNext([], STATUS_KEY, number);
    ReadNext(one, MESSAGE_KEY, message);
    assert one + [Line(MESSAGE_KEY, message)] == [Line(STATUS_KEY, number), Line(MESSAGE_KEY, message)];
    assert map[][STATUS_KEY := number][MESSAGE_KEY := TrimStart(message)]
        == map[STATUS_KEY := number, MESSAGE_KEY := TrimStart(message)];
  }

  lemma ReadNothing()
    ensures ReadTrailers([]) == Ok(map[])
  {
  }

  /** What the client makes of what is sent: the text without leading space, if it is a header value and decodes. */
  function Delivered(wire: Wire, sent: (int, Option<int>, string)): Status
    requires 0 <= sent.0
  {
    var (status, code, message) := sent;
    var details := if code.Some? then Some(Detail(code.value, message, "")) else None;
    if !IsHeaderValue(TrimStart(message)) then Status(INTERNAL, BAD_VALUE, None)
    else match wire.decode(TrimStart(message))
      case Decoded(text) => Status(status, text, details)
      case Undecodable(report) => Status(UNKNOWN, report, details)
  }

  /** The client receives the status, the code and the message that were sent, or refuses the block. */
  lemma ReceivedIs(wire: Wire, e: ApiError)
    requires Ideal(wire) && 0 <= WireError(e).0 <= 16
    ensures Received(wire, Trailers(wire, e)) == Delivered(wire, WireError(e))
  {
    var (status, code, message) := WireError(e);
    TrailersSplit(wire, e);
    hide Lines, Block, WireError, Text.Decimal, Text.Value, ReadTrailers, TrimStart, IsHeaderValue, CodeOf, FromHeaders;
    StatusRead(status);
    EveryTrailer(wire, Integer(status), status, code, message);
    HeadersRead(wire, Integer(status), TrimStart(message), None);
    if code.Some? {
      HeadersRead(wire, Integer(status), TrimStart(message), Some(wire.pack(status, Detail(code.value, message, ""))));
    }
  }

  lemma HeadersRead(wire: Wire, number: string, text: string, packed: Option<string>)
    ensures var two := map[STATUS_KEY := number, MESSAGE_KEY := text];
      FromHeaders(wire, if packed.Some? then two[DETAILS_KEY := packed.value] else two) ==
        var details := if packed.Some? then wire.unpack(packed.value) else None;
        match wire.decode(text)
        case Decoded(message) => Status(CodeOf(number), message, details)
        case Undecodable(report) => Status(UNKNOWN, report, details)
  {
    hide CodeOf;
    NamesPlain();
  }

  lemma EveryTrailer(wire: Wire, number: string, status: int, code: Option<int>, message: string)
    requires Ideal(wire)
    requires forall i :: 0 <= i < |number| ==> IsAlphanumeric(number[i]) || number[i] in {'+', '/', '-'}
    ensures var two := map[STATUS_KEY := number, MESSAGE_KEY := TrimStart(message)];
      var lines := [Line(STATUS_KEY, number), Line(MESSAGE_KEY, message)]
        + if code.Some? then [Line(DETAILS_KEY, wire.pack(status, Detail(code.value, message, "")))] else [];
      ReadTrailers(lines) ==
        if !IsHeaderValue(TrimStart(message)) then Err(BAD_VALUE)
        else if code.Some? then Ok(two[DETAILS_KEY := wire.pack(status, Detail(code.value, message, ""))])
        else Ok(two)
  {
    hide ReadTrailers, PlainName, TrimStart, IsHeaderValue;
    var two := [Line(STATUS_KEY, number), Line(MESSAGE_KEY, message)];
    TwoTrailers(number, message);
    if code.Some? {
      var packed := wire.pack(status, Detail(code.value, message, ""));
      assert Base64(packed);
      if ReadTrailers(two).Ok? {
        PlainValue(packed);
        NamesPlain();
        ReadNext(two, DETAILS_KEY, packed);
      } else {
        ReadAfterRefusal(two, Line(DETAILS_KEY, packed));
      }
    } else {
      assert two + [] == two;
    }
  }

  lemma StatusRead(status: nat)
    requires status <= 16
    ensures CodeOf(Text.Decimal(status)) == status
  {
  }

  // ---- the round trip

  /** Live error, recorded, replayed by the scenario server, and read by the client again. */
  function Trip(wire: Wire, live: ApiError): ApiError {
    ToApiError(Received(wire, Trailers(wire, Replayed(Recorded(live)))))
  }

  /** What a caller acts on: the variant, heylogin's code, and the status of a plain backend error. */
  predicate SameRefusal(a: ApiError, b: ApiError) {
    match (a, b)
    case (Unauthenticated(x), Unauthenticated(y)) => x == y
    case (PermissionDenied(x), PermissionDenied(y)) => x == y
    case (BadRequest(x, _), BadRequest(y, _)) => x == y
    case (Backend(s, x, _, _), Backend(t, y, _, _)) => s == t && x == y
    case (Transport(_), Transport(_)) => true
    case _ => false
  }

  /** What the replay server sends for a live error. */
  function Sent(live: ApiError): (int, Option<int>, string) { WireError(Replayed(Recorded(live))) }

  /** The text of it that reaches the client's parser. */
  function SentText(live: ApiError): string { TrimStart(Sent(live).2) }

  /** The refusals that heylogin's code alone identifies, or that are UNKNOWN already. */
  predicate KnownByCode(live: ApiError) {
    match live
    case Unauthenticated(code) => code == Some(MISSING_CREDENTIALS)
    case PermissionDenied(code) => code == Some(REJECTED_CREDENTIALS)
    case BadRequest(_, _) => true
    case Backend(status, _, _, _) => status == UNKNOWN
    case _ => false
  }

  /**
   * What has to hold of the text sent. One that is no header value makes any error INTERNAL without a code.
   * One that does not decode makes it UNKNOWN. One that reads as cut short makes an UNKNOWN error Transport.
   */
  predicate TextArrives(wire: Wire, live: ApiError) {
    if !IsHeaderValue(SentText(live)) then live.Backend? && live.status == INTERNAL && live.code == None
    else match wire.decode(SentText(live))
      case Decoded(text) => Sent(live).0 == UNKNOWN && IsTruncatedResponse(text) <==> live.Transport?
      case Undecodable(report) =>
        if IsTruncatedResponse(report) then live.Transport? else KnownByCode(live)
  }

  /** A classified refusal is sent with its code, and with a number that classifies with it as the same refusal. */
  lemma ClassifiedTwice(status: int, code: Option<int>, message: string, detail: string, title: string)
    requires 1 <= status <= 16
    ensures var live := Classified(status, code, message, detail);
      && 1 <= Sent(live).0 <= 16 && Sent(live).1 == code
      && SameRefusal(live, Classified(Sent(live).0, Sent(live).1, title, ""))
  {
  }

  /** Its code alone, under UNKNOWN, classifies as the same refusal exactly when the code identifies it. */
  lemma ClassifiedByCode(status: int, code: Option<int>, message: string, detail: string, title: string)
    requires 1 <= status <= 16
    ensures var live := Classified(status, code, message, detail);
      SameRefusal(live, Classified(UNKNOWN, code, title, "")) <==> KnownByCode(live)
  {
  }

  lemma TripIs(wire: Wire, live: ApiError)
    requires Ideal(wire) && 0 <= Sent(live).0 <= 16
    ensures Trip(wire, live) == ToApiError(Delivered(wire, Sent(live)))
  {
    hide Trailers, Received, WireError, Recorded, Replayed, ToApiError, Delivered;
    ReceivedIs(wire, Replayed(Recorded(live)));
  }

  /** How a status with heylogin's details, or none, is read. */
  lemma ReadBack(status: nat, message: string, code: Option<int>, title: string)
    ensures var details := if code.Some? then Some(Detail(code.value, title, "")) else None;
      ToApiError(Status(status, message, details)) ==
        if status == UNKNOWN && IsTruncatedResponse(message) then Transport(message)
        else Classified(status, code, if code.Some? && title != "" then title else message, "")
  {
  }

  /**
   * Every refusal the client can raise from a live status comes back from a replay as the same refusal
   * exactly when the text sent for it arrives.
   */
  lemma RefusalSurvives(wire: Wire, s: Status)
    requires Ideal(wire) && 1 <= s.code <= 16
    ensures var live := ToApiError(s); SameRefusal(live, Trip(wire, live)) <==> TextArrives(wire, live)
  {
    var live := ToApiError(s);
    hide IsTruncatedResponse, Trip, IsHeaderValue;
    if s.code == UNKNOWN && IsTruncatedResponse(s.message) {
      assert live == Transport(s.message) && Sent(live).0 == UNKNOWN && Sent(live).1 == None;
      TripIs(wire, live);
    } else {
      var code := match s.details case Some(d) => Some(d.code) case None => None;
      var message :=
        if s.details.Some? && s.details.value.userTitle != "" then s.details.value.userTitle else s.message;
      var detail := if s.details.Some? then s.details.value.userDetail else "";
      assert live == Classified(s.code, code, message, detail);
      ClassifiedSurvives(wire, s.code, code, message, detail);
    }
  }

  lemma ClassifiedSurvives(wire: Wire, status: int, code: Option<int>, message: string, detail: string)
    requires Ideal(wire) && 1 <= status <= 16
    ensures var live := Classified(status, code, message, detail);
      SameRefusal(live, Trip(wire, live)) <==> TextArrives(wire, live)
  {
    var live := Classified(status, code, message, detail);
    var title := Sent(live).2;
    assert !live.Transport?;
    ClassifiedTwice(status, code, message, detail, title);
    TripIs(wire, live);
    if !IsHeaderValue(SentText(live)) {
      ReadBack(INTERNAL, BAD_VALUE, None, "");
      assert Trip(wire, live) == Backend(INTERNAL, None, BAD_VALUE, "");
    } else {
      match wire.decode(SentText(live)) {
        case Decoded(text) =>
          var shown := if code.Some? && title != "" then title else text;
          ReadBack(Sent(live).0, text, code, title);
          ClassifiedTwice(status, code, message, detail, shown);
        case Undecodable(report) =>
          var shown := if code.Some? && title != "" then title else report;
          ReadBack(UNKNOWN, report, code, title);
          ClassifiedByCode(status, code, message, detail, shown);
      }
    }
  }

  /** Of what arrives as text, only an error of status UNKNOWN can read as cut short: any other survives. */
  lemma OtherRefusalsSurvive(wire: Wire, s: Status)
    requires Ideal(wire) && 1 <= s.code <= 16
    requires var live := ToApiError(s); !live.Transport? && !(live.Backend? && live.status == UNKNOWN)
    requires var text := SentText(ToApiError(s)); IsHeaderValue(text) && wire.decode(text).Decoded?
    ensures var live := ToApiError(s); SameRefusal(live, Trip(wire, live))
  {
    var live := ToApiError(s);
    LiveKind(s);
    hide IsHeaderValue, Trip, TrimStart, ToApiError, IsTruncatedResponse, Sent, SameRefusal;
    RefusalSurvives(wire, s);
    NotSentUnknown(live);
  }

  lemma LiveKind(s: Status)
    ensures var live := ToApiError(s);
      live.Unauthenticated? || live.PermissionDenied? || live.BadRequest? || live.Backend? || live.Transport?
  {
    hide IsTruncatedResponse;
  }

  lemma NotSentUnknown(live: ApiError)
    requires live.Unauthenticated? || live.PermissionDenied? || live.BadRequest?
          || (live.Backend? && live.status != UNKNOWN)
    ensures Sent(live).0 != UNKNOWN
  {
  }

  lemma SanitiseKeeps(before: string, reason: string, part: string)
    requires Contains(reason, part) && Clean(part)
    ensures Contains(Sanitise(before + reason), part)
  {
    var i :| 0 <= i <= |reason| && part <= reason[i..];
    var shown := before + reason;
    var sent, n := Sanitise(shown), |before| + i;
    assert shown[n..] == reason[i..];
    forall k | 0 <= k < |part| ensures sent[n..][k] == part[k] {
      assert part[k] == reason[i..][k] == shown[n + k];
    }
    assert part <= sent[n..];
  }

  lemma StillCutShort(before: string, reason: string)
    requires IsTruncatedResponse(reason)
    ensures IsTruncatedResponse(Sanitise(before + reason))
  {
    if Contains(reason, NO_STATUS) {
      SanitiseKeeps(before, reason, NO_STATUS);
    } else {
      SanitiseKeeps(before, reason, NO_FINAL_STATUS);
    }
  }

  /** A response really cut short stays one, where its text is a header value and decoding leaves it alone. */
  lemma TransportSurvives(wire: Wire, s: Status)
    requires Ideal(wire) && 1 <= s.code <= 16 && ToApiError(s).Transport?
    requires var text := SentText(ToApiError(s)); IsHeaderValue(text) && wire.decode(text) == Decoded(text)
    ensures Trip(wire, ToApiError(s)).Transport?
  {
    hide IsTruncatedResponse, Trip, IsHeaderValue;
    assert IsTruncatedResponse(s.message) && ToApiError(s) == Transport(s.message);
    var sent := Sanitise(Show(ToApiError(s)));
    assert sent[0] == Show(ToApiError(s))[0] == 't';
    assert SentText(ToApiError(s)) == sent;
    StillCutShort("transport failure: ", s.message);
    RefusalSurvives(wire, s);
  }

  lemma ColonHidesMarker(m: string)
    requires m == "missing:grpc-status"
    ensures !IsTruncatedResponse(m) && Sanitise(m) == NO_STATUS && IsTruncatedResponse(NO_STATUS)
  {
    assert |m| == |NO_STATUS| == 19 && |NO_FINAL_STATUS| > 19;
    assert m[7] == ':' && NO_STATUS[7] == ' ';
    assert !(NO_STATUS <= m[0..]);
    var sent := Sanitise(m);
    assert sent == NO_STATUS;
    assert NO_STATUS <= sent[0..];
  }

  /** A colon in a message can turn it into the marker: it is the sanitised text that counts. */
  lemma MarkerFromColon(wire: Wire, s: Status)
    requires Ideal(wire) && s == Status(UNKNOWN, "missing:grpc-status", None)
    requires wire.decode(NO_STATUS) == Decoded(NO_STATUS)
    ensures ToApiError(s).Backend? && Trip(wire, ToApiError(s)).Transport?
  {
    hide IsTruncatedResponse, Trip, Sanitise;
    ColonHidesMarker(s.message);
    assert ToApiError(s) == Backend(UNKNOWN, None, s.message, "");
    assert Sent(ToApiError(s)) == (UNKNOWN, None, NO_STATUS);
    hide ToApiError, Sent;
    TripIs(wire, ToApiError(s));
    MarkerIsText();
    hide IsHeaderValue, TrimStart;
    assert Delivered(wire, (UNKNOWN, None, NO_STATUS)) == Status(UNKNOWN, NO_STATUS, None);
    ReadBack(UNKNOWN, NO_STATUS, None, "");
  }

  lemma MarkerIsText()
    ensures IsHeaderValue(NO_STATUS) && TrimStart(NO_STATUS) == NO_STATUS
  {
    assert |NO_STATUS| == 19;
  }

  /** A control character other than a line break reaches the wire, and the client refuses the block for it. */
  lemma ControlCharacterRefused(wire: Wire, s: Status)
    requires Ideal(wire) && s == Status(5, "a\U{1}b", None)
    ensures ToApiError(s) == Backend(5, None, s.message, "")
    ensures Trip(wire, ToApiError(s)) == Backend(INTERNAL, None, BAD_VALUE, "")
  {
    hide Trip;
    var live := ToApiError(s);
    assert Sent(live).2 == Sanitise(s.message) == s.message;
    assert SentText(live) == s.message && s.message[1] == '\U{1}';
    TripIs(wire, live);
  }
}
