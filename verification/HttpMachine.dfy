/**
 * The push parser seen one byte at a time.
 *
 * `Core` holds the fields of `struct http_parser` that the modelled states use. `Step` is what one
 * byte does to them, `Run` is a whole byte string fed one byte per call. `Beyond` stands for every
 * state whose handling is not modelled (URL, header names, other header values, responses, upgrade):
 * it absorbs the rest of the input, so every statement about `Run` is about runs that stay inside.
 */
module HttpMachine {
  import opened Wrappers

  const ULLONG_MAX: nat := 0xFFFF_FFFF_FFFF_FFFF
  const HTTP_MAX_HEADER_SIZE: nat := 80 * 1024
  const CR := '\r'
  const LF := '\n'

  datatype Kind = Request | Response

  datatype Method =
    | DELETE | GET | HEAD | POST | PUT | CONNECT | OPTIONS | TRACE | PATCH | PURGE | LINK | UNLINK
    | CHECK | CLOSE | COMMIT | COPY | COUNT | DUMP | FLUSH | INFO | LOCK | MOVE | OPEN | QUIT
    | RESTORE | SEARCH | UNLOCK | UPDATE | UPSERT | WAL

  datatype State =
    | Dead | StartReq | StartRes | ReqMethod | SpacesBeforeUrl
    | HeaderFieldStart
    | HeaderValueDiscardWs | HeaderValueDiscardWsAlmostDone | HeaderValueDiscardLws
    | HeaderValueStart | HeaderValue | HeaderValueLws | HeaderAlmostDone
    | ChunkSizeStart | ChunkSize | ChunkParameters | ChunkSizeAlmostDone
    | HeadersAlmostDone | HeadersDone
    | ChunkData | ChunkDataAlmostDone | ChunkDataDone
    | BodyIdentity | BodyIdentityEof | MessageDone
    | Beyond

  // The header being read: its value is interpreted only for Content-Length; the others are the
  // values that set a flag once the header line ends.
  datatype HeaderState = HContentLength | HKeepAlive | HClose | HConnectionUpgrade | HChunked | HGeneral

  datatype Errno =
    | OK | InvalidEofState | HeaderOverflow | ClosedConnection | InvalidMethod | LfExpected
    | InvalidHeaderToken | InvalidContentLength | UnexpectedContentLength | InvalidChunkSize | Strict

  datatype Flags = Flags(chunked: bool, keepAlive: bool, close: bool, connectionUpgrade: bool,
                         trailing: bool, upgrade: bool, contentLength: bool)

  const NO_FLAGS := Flags(false, false, false, false, false, false, false)

  datatype Event =
    | MessageBegin
    | HeadersComplete
    | Body(data: string)
    | ChunkHeader(length: nat)
    | ChunkComplete
    | MessageComplete

  // What the first line of the message fixed, and the caller's leniency.
  datatype Line = Line(kind: Kind, httpMajor: nat, httpMinor: nat, statusCode: nat, lenient: bool)

  datatype Core = Core(
    line: Line, state: State, header: HeaderState, flags: Flags,
    nread: nat, contentLength: nat, reqMethod: Method, index: nat, errno: Errno)

  datatype Out = Out(core: Core, events: seq<Event>)

  // ----- character classes

  predicate IsAlpha(ch: char) {
    'a' <= ch <= 'z' || 'A' <= ch <= 'Z'
  }

  predicate IsNum(ch: char) {
    '0' <= ch <= '9'
  }

  function Digit(ch: char): (d: nat)
    requires IsNum(ch)
    ensures d < 10
  {
    ch as int - '0' as int
  }

  predicate IsHeaderChar(ch: char) {
    ch == CR || ch == LF || ch == '\t' || (ch as int > 31 && ch as int != 127)
  }

  /** The value of a hexadecimal digit, -1 for every other character. */
  function Unhex(ch: char): (v: int)
    ensures -1 <= v < 16
  {
    if '0' <= ch <= '9' then ch as int - '0' as int
    else if 'a' <= ch <= 'f' then ch as int - 'a' as int + 10
    else if 'A' <= ch <= 'F' then ch as int - 'A' as int + 10
    else -1
  }

  // ----- request methods

  function MethodName(m: Method): (name: string)
    ensures 3 <= |name| <= 7
  {
    match m
    case DELETE => "DELETE"   case GET => "GET"         case HEAD => "HEAD"       case POST => "POST"
    case PUT => "PUT"         case CONNECT => "CONNECT" case OPTIONS => "OPTIONS" case TRACE => "TRACE"
    case PATCH => "PATCH"     case PURGE => "PURGE"     case LINK => "LINK"       case UNLINK => "UNLINK"
    case CHECK => "CHECK"     case CLOSE => "CLOSE"     case COMMIT => "COMMIT"   case COPY => "COPY"
    case COUNT => "COUNT"     case DUMP => "DUMP"       case FLUSH => "FLUSH"     case INFO => "INFO"
    case LOCK => "LOCK"       case MOVE => "MOVE"       case OPEN => "OPEN"       case QUIT => "QUIT"
    case RESTORE => "RESTORE" case SEARCH => "SEARCH"   case UNLOCK => "UNLOCK"   case UPDATE => "UPDATE"
    case UPSERT => "UPSERT"   case WAL => "WAL"
  }

  /** The method guessed from the first letter alone. */
  function FirstGuess(ch: char): Option<Method> {
    match ch
    case 'C' => Some(COUNT)   case 'D' => Some(DUMP)    case 'F' => Some(FLUSH)  case 'G' => Some(GET)
    case 'H' => Some(HEAD)    case 'I' => Some(INFO)    case 'L' => Some(LOCK)   case 'M' => Some(MOVE)
    case 'O' => Some(OPTIONS) case 'P' => Some(PUT)     case 'Q' => Some(QUIT)   case 'R' => Some(RESTORE)
    case 'S' => Some(SEARCH)  case 'T' => Some(TRACE)   case 'U' => Some(UNLOCK) case 'W' => Some(WAL)
    case _ => None
  }

  /** A letter that contradicts the current guess may still continue another method. */
  function Reguess(m: Method, index: nat, ch: char): (r: Option<Method>)
    ensures r.Some? ==> index < |MethodName(r.value)|
  {
    match (m, index, ch)
    case (COUNT, 1, 'L') => Some(CLOSE)
    case (COUNT, 1, 'H') => Some(CHECK)
    case (COUNT, 2, 'M') => Some(COMMIT)
    case (COUNT, 2, 'N') => Some(CONNECT)
    case (COUNT, 2, 'P') => Some(COPY)
    case (DUMP, 1, 'E') => Some(DELETE)
    case (LOCK, 1, 'I') => Some(LINK)
    case (OPTIONS, 2, 'E') => Some(OPEN)
    case (PUT, 1, 'O') => Some(POST)
    case (PUT, 1, 'A') => Some(PATCH)
    case (PUT, 2, 'R') => Some(PURGE)
    case (UNLOCK, 1, 'P') => Some(UPDATE)
    case (UPDATE, 2, 'S') => Some(UPSERT)
    case (UNLOCK, 3, 'I') => Some(UNLINK)
    case _ => None
  }

  // ----- end of a message

  predicate NeedsEof(c: Core) {
    c.line.kind == Response
    && c.line.statusCode / 100 != 1 && c.line.statusCode != 204 && c.line.statusCode != 304
    && !c.flags.chunked && c.contentLength == ULLONG_MAX
  }

  predicate ShouldKeepAlive(c: Core) {
    (if c.line.httpMajor > 0 && c.line.httpMinor > 0 then !c.flags.close else c.flags.keepAlive)
    && !NeedsEof(c)
  }

  function NewMessage(c: Core): State {
    if !ShouldKeepAlive(c) then Dead
    else if c.line.kind == Request then StartReq
    else StartRes
  }

  // ----- what one byte does in each state

  function Fail(c: Core, e: Errno): (o: Out)
    ensures Wf(c) ==> Wf(o.core)
  {
    Out(c.(errno := e), [])
  }

  function Goto(c: Core, s: State): Out {
    Out(c.(state := s), [])
  }

  function OnMessageDone(c: Core): (o: Out)
    ensures Wf(c) ==> Wf(o.core)
  {
    Out(c.(state := NewMessage(c)), [MessageComplete])
  }

  function OnHeadersDone(c: Core, ch: char): (o: Out)
    ensures Wf(c) ==> Wf(o.core)
  {
    if ch != LF then Fail(c, Strict)
    else
      var c := c.(nread := 0);
      if c.flags.chunked then Goto(c, ChunkSizeStart)
      else if c.contentLength == 0 then OnMessageDone(c)
      else if c.contentLength != ULLONG_MAX then Goto(c, BodyIdentity)
      else if NeedsEof(c) then Goto(c, BodyIdentityEof)
      else OnMessageDone(c)
  }

  function OnHeadersAlmostDone(c: Core, ch: char): (o: Out)
    ensures Wf(c) ==> Wf(o.core)
  {
    if ch != LF then Fail(c, Strict)
    else if c.flags.trailing then
      var o := OnMessageDone(c);
      Out(o.core, [ChunkComplete] + o.events)
    else if c.flags.chunked && c.flags.contentLength then Fail(c, UnexpectedContentLength)
    else if (c.flags.upgrade && c.flags.connectionUpgrade) || c.reqMethod == CONNECT then Goto(c, Beyond)
    else
      var o := OnHeadersDone(c.(state := HeadersDone), ch);
      Out(o.core, [HeadersComplete] + o.events)
  }

  function OnHeaderFieldStart(c: Core, ch: char): (o: Out)
    ensures Wf(c) ==> Wf(o.core)
  {
    if ch == CR then Goto(c, HeadersAlmostDone)
    else if ch == LF then OnHeadersAlmostDone(c.(state := HeadersAlmostDone), ch)
    else Goto(c, Beyond)
  }

  function FinishHeader(c: Core): Core {
    match c.header
    case HKeepAlive => c.(flags := c.flags.(keepAlive := true))
    case HClose => c.(flags := c.flags.(close := true))
    case HChunked => c.(flags := c.flags.(chunked := true))
    case HConnectionUpgrade => c.(flags := c.flags.(connectionUpgrade := true))
    case _ => c
  }

  function OnHeaderValueStart(c: Core, ch: char): (o: Out)
    ensures Wf(c) ==> Wf(o.core)
  {
    if c.header != HContentLength then Goto(c, Beyond)
    else
      var c := c.(state := HeaderValue, index := 0);
      if !IsNum(ch) then Fail(c, InvalidContentLength)
      else if c.flags.contentLength then Fail(c, UnexpectedContentLength)
      else Out(c.(flags := c.flags.(contentLength := true), contentLength := Digit(ch)), [])
  }

  function OnHeaderAlmostDone(c: Core, ch: char): (o: Out)
    ensures Wf(c) ==> Wf(o.core)
  {
    if ch != LF then Fail(c, LfExpected) else Goto(c, HeaderValueLws)
  }

  /** One byte inside a Content-Length value: the new value, or the error. */
  function ValueNext(lenient: bool, length: nat, ch: char): (r: (Errno, nat))
    ensures r.0 != OK ==> r.1 == length
    ensures r.0 == OK && ch != ' ' ==> r.1 < ULLONG_MAX
  {
    if !lenient && !IsHeaderChar(ch) then (InvalidHeaderToken, length)
    else if ch == ' ' then (OK, length)
    else if !IsNum(ch) then (InvalidContentLength, length)
    else if (ULLONG_MAX - 10) / 10 < length then (InvalidContentLength, length)
    else (OK, length * 10 + Digit(ch))
  }

  /** A byte that does not end the value is counted twice when it comes in a call of its own. */
  function OnHeaderValue(c: Core, ch: char): (o: Out)
    ensures Wf(c) && c.state.HeaderValue? ==> Wf(o.core)
    ensures o.events == []
  {
    if c.header != HContentLength then Goto(c, Beyond)
    else if ch == CR then Goto(c, HeaderAlmostDone)
    else if ch == LF then OnHeaderAlmostDone(c.(state := HeaderAlmostDone), ch)
    else
      var (e, length) := ValueNext(c.line.lenient, c.contentLength, ch);
      if e != OK then Fail(c, e) else CountAgain(c.(contentLength := length))
  }

  function CountAgain(c: Core): (o: Out)
    ensures Wf(c) ==> Wf(o.core)
  {
    var c := c.(nread := c.nread + 1);
    if c.nread > HTTP_MAX_HEADER_SIZE then Fail(c, HeaderOverflow) else Out(c, [])
  }

  function OnHeaderValueLws(c: Core, ch: char): (o: Out)
    ensures Wf(c) ==> Wf(o.core)
  {
    if ch == ' ' || ch == '\t' then OnHeaderValueStart(c.(state := HeaderValueStart), ch)
    else OnHeaderFieldStart(FinishHeader(c).(state := HeaderFieldStart), ch)
  }

  function OnHeaderValueDiscardWs(c: Core, ch: char): (o: Out)
    ensures Wf(c) ==> Wf(o.core)
  {
    if ch == ' ' || ch == '\t' then Out(c, [])
    else if ch == CR then Goto(c, HeaderValueDiscardWsAlmostDone)
    else if ch == LF then Goto(c, HeaderValueDiscardLws)
    else OnHeaderValueStart(c, ch)
  }

  function OnHeaderValueDiscardLws(c: Core, ch: char): (o: Out)
    ensures Wf(c) ==> Wf(o.core)
  {
    if ch == ' ' || ch == '\t' then Goto(c, HeaderValueDiscardWs)
    else OnHeaderFieldStart(FinishHeader(c).(state := HeaderFieldStart), ch)
  }

  function OnStartReq(c: Core, ch: char): (o: Out)
    ensures Wf(c) && c.state.StartReq? ==> Wf(o.core)
  {
    if ch == CR || ch == LF then Out(c, [])
    else
      var c := c.(flags := NO_FLAGS, contentLength := ULLONG_MAX);
      if !IsAlpha(ch) then Fail(c, InvalidMethod)
      else
        var c := c.(reqMethod := DELETE, index := 1);
        match FirstGuess(ch)
        case None => Fail(c, InvalidMethod)
        case Some(m) => Out(c.(reqMethod := m, state := ReqMethod), [MessageBegin])
  }

  function OnReqMethod(c: Core, ch: char): (o: Out)
    ensures Wf(c) && c.state.ReqMethod? ==> Wf(o.core)
  {
    var name := MethodName(c.reqMethod);
    var next := c.(index := c.index + 1);
    if ch == '\0' then Fail(c, InvalidMethod)
    else if ch == ' ' && c.index == |name| then Goto(next, SpacesBeforeUrl)
    else if c.index < |name| && ch == name[c.index] then Out(next, [])
    else if IsAlpha(ch) && Reguess(c.reqMethod, c.index, ch).Some? then
      Out(next.(reqMethod := Reguess(c.reqMethod, c.index, ch).value), [])
    else Fail(c, InvalidMethod)
  }

  function OnChunkSizeStart(c: Core, ch: char): (o: Out)
    ensures Wf(c) && c.flags.chunked ==> Wf(o.core)
  {
    if Unhex(ch) == -1 then Fail(c, InvalidChunkSize)
    else Out(c.(contentLength := Unhex(ch), state := ChunkSize), [])
  }

  function OnChunkSize(c: Core, ch: char): (o: Out)
    ensures Wf(c) && c.state.ChunkSize? ==> Wf(o.core)
  {
    if ch == CR then Goto(c, ChunkSizeAlmostDone)
    else if Unhex(ch) == -1 then
      if ch == ';' || ch == ' ' then Goto(c, ChunkParameters) else Fail(c, InvalidChunkSize)
    else if (ULLONG_MAX - 16) / 16 < c.contentLength then Fail(c, InvalidContentLength)
    else Out(c.(contentLength := c.contentLength * 16 + Unhex(ch)), [])
  }

  function OnChunkSizeAlmostDone(c: Core, ch: char): (o: Out)
    ensures Wf(c) && c.state.ChunkSizeAlmostDone? ==> Wf(o.core)
  {
    if ch != LF then Fail(c, Strict)
    else
      var c := c.(nread := 0);
      Out(if c.contentLength == 0
          then c.(flags := c.flags.(trailing := true), state := HeaderFieldStart)
          else c.(state := ChunkData),
          [ChunkHeader(c.contentLength)])
  }

  function OnChunkData(c: Core, ch: char): (o: Out)
    requires c.contentLength > 0
    ensures Wf(c) && c.state.ChunkData? ==> Wf(o.core)
  {
    var c := c.(contentLength := c.contentLength - 1);
    Out(if c.contentLength == 0 then c.(state := ChunkDataAlmostDone) else c, [Body([ch])])
  }

  function OnChunkDataDone(c: Core, ch: char): (o: Out)
    ensures Wf(c) && c.flags.chunked ==> Wf(o.core)
  {
    if ch != LF then Fail(c, Strict)
    else Out(c.(nread := 0, state := ChunkSizeStart), [ChunkComplete])
  }

  function OnBodyIdentity(c: Core, ch: char): (o: Out)
    requires c.contentLength > 0
    ensures Wf(c) ==> Wf(o.core)
  {
    var c := c.(contentLength := c.contentLength - 1);
    if c.contentLength > 0 then Out(c, [Body([ch])])
    else
      var o := OnMessageDone(c.(state := MessageDone));
      Out(o.core, [Body([ch])] + o.events)
  }

  predicate ParsingHeader(s: State) {
    !(s.ChunkData? || s.ChunkDataAlmostDone? || s.ChunkDataDone? || s.BodyIdentity?
      || s.BodyIdentityEof? || s.MessageDone? || s.Beyond?)
  }

  /** The states in which a byte is handled on its own, with no slice of the input being collected. */
  predicate OneByteState(s: State, h: HeaderState) {
    !(s.ChunkData? || s.ChunkDataAlmostDone? || s.BodyIdentity? || s.BodyIdentityEof?
      || (s.HeaderValue? && h.HContentLength?))
  }

  function Dispatch(c: Core, ch: char): (o: Out)
    requires Wf(c)
    ensures Wf(o.core)
  {
    match c.state
    case Dead => if ch == CR || ch == LF then Out(c, []) else Fail(c, ClosedConnection)
    case StartReq => OnStartReq(c, ch)
    case StartRes => Goto(c, Beyond)
    case ReqMethod => OnReqMethod(c, ch)
    case SpacesBeforeUrl => if ch == ' ' then Out(c, []) else Goto(c, Beyond)
    case HeaderFieldStart => OnHeaderFieldStart(c, ch)
    case HeaderValueDiscardWs => OnHeaderValueDiscardWs(c, ch)
    case HeaderValueDiscardWsAlmostDone => if ch != LF then Fail(c, Strict) else Goto(c, HeaderValueDiscardLws)
    case HeaderValueDiscardLws => OnHeaderValueDiscardLws(c, ch)
    case HeaderValueStart => OnHeaderValueStart(c, ch)
    case HeaderValue => OnHeaderValue(c, ch)
    case HeaderValueLws => OnHeaderValueLws(c, ch)
    case HeaderAlmostDone => OnHeaderAlmostDone(c, ch)
    case ChunkSizeStart => OnChunkSizeStart(c, ch)
    case ChunkSize => OnChunkSize(c, ch)
    case ChunkParameters => if ch == CR then Goto(c, ChunkSizeAlmostDone) else Out(c, [])
    case ChunkSizeAlmostDone => OnChunkSizeAlmostDone(c, ch)
    case HeadersAlmostDone => OnHeadersAlmostDone(c, ch)
    case HeadersDone => OnHeadersDone(c, ch)
    case ChunkData => OnChunkData(c, ch)
    case ChunkDataAlmostDone => if ch != CR then Fail(c, Strict) else Goto(c, ChunkDataDone)
    case ChunkDataDone => OnChunkDataDone(c, ch)
    case BodyIdentity => OnBodyIdentity(c, ch)
    case BodyIdentityEof => Out(c, [Body([ch])])
    case MessageDone => OnMessageDone(c)
    case Beyond => Out(c, [])
  }

  predicate InChunk(s: State) {
    s.ChunkSizeStart? || s.ChunkSize? || s.ChunkParameters? || s.ChunkSizeAlmostDone?
    || s.ChunkData? || s.ChunkDataAlmostDone? || s.ChunkDataDone?
  }

  /**
   * The assertions of `http_parser_execute` about lengths and flags as one invariant: a body or
   * chunk-data state has bytes left to read, a finished chunk has none, and a chunk state belongs to a
   * chunked message.
   */
  predicate Wf(c: Core) {
    && c.contentLength <= ULLONG_MAX
    && (c.state.ReqMethod? ==> c.index <= |MethodName(c.reqMethod)|)
    && (c.state.ChunkData? || c.state.BodyIdentity? ==> 0 < c.contentLength < ULLONG_MAX)
    && (c.state.ChunkSize? || c.state.ChunkSizeAlmostDone? || c.state.ChunkParameters? ==> c.contentLength < ULLONG_MAX)
    && (c.state.ChunkDataAlmostDone? ==> c.contentLength == 0)
    && (InChunk(c.state) ==> c.flags.chunked)
  }

  // ----- whole runs

  /** One byte, including the header-size count. A parser in error, or beyond the model, ignores it. */
  function Step(c: Core, ch: char): (o: Out)
    requires Wf(c)
    ensures Wf(o.core)
    ensures c.errno != OK ==> o == Out(c, [])
  {
    if c.errno != OK || c.state.Beyond? then Out(c, [])
    else if !ParsingHeader(c.state) then Dispatch(c, ch)
    else if c.nread + 1 > HTTP_MAX_HEADER_SIZE then Fail(c.(nread := c.nread + 1), HeaderOverflow)
    else Dispatch(c.(nread := c.nread + 1), ch)
  }

  function Run(c: Core, s: string): (o: Out)
    requires Wf(c)
    ensures Wf(o.core)
  {
    if s == [] then Out(c, [])
    else
      var o := Run(c, s[..|s| - 1]);
      var last := Step(o.core, s[|s| - 1]);
      Out(last.core, o.events + last.events)
  }

  /** Where the input is cut does not matter to a run: it composes over concatenation. */
  lemma {:induction false} RunConcat(c: Core, a: string, b: string)
    requires Wf(c)
    ensures Run(c, a + b).core == Run(Run(c, a).core, b).core
    ensures Run(c, a + b).events == Run(c, a).events + Run(Run(c, a).core, b).events
  {
    hide Step;
    if b == [] {
      assert a + b == a;
    } else {
      var b' := b[..|b| - 1];
      assert (a + b)[..|a + b| - 1] == a + b';
      RunConcat(c, a, b');
    }
  }

  lemma RunSnoc(c: Core, s: string, ch: char)
    requires Wf(c)
    ensures Run(c, s + [ch]).core == Step(Run(c, s).core, ch).core
    ensures Run(c, s + [ch]).events == Run(c, s).events + Step(Run(c, s).core, ch).events
  {
    hide Step;
    assert (s + [ch])[..|s|] == s;
  }

  /** An error is final. */
  lemma {:induction false} RunError(c: Core, s: string)
    requires Wf(c) && c.errno != OK
    ensures Run(c, s) == Out(c, [])
  {
    if s != [] { RunError(c, s[..|s| - 1]); }
  }

  /**
   * The assertion at the start of a chunk size: the size line is counted from its first byte, so the
   * count is 0 before that byte and 1 when it is looked at.
   */
  predicate SizeCounted(c: Core) {
    c.errno == OK && c.state.ChunkSizeStart? ==> c.nread == 0
  }

  lemma CountedHeaders(c: Core, ch: char)
    requires c.errno == OK && !c.state.ChunkSizeStart?
    ensures SizeCounted(OnHeadersDone(c, ch).core) && SizeCounted(OnMessageDone(c).core)
    ensures SizeCounted(OnHeadersAlmostDone(c, ch).core)
  {
  }

  lemma CountedFields(c: Core, ch: char)
    requires c.errno == OK && !c.state.ChunkSizeStart?
    ensures SizeCounted(OnHeaderFieldStart(c, ch).core) && SizeCounted(OnHeaderValueStart(c, ch).core)
  {
    hide OnHeadersAlmostDone, SizeCounted;
    CountedHeaders(c.(state := HeadersAlmostDone), ch);
    CountedElsewhere(OnHeaderValueStart(c, ch).core);
    CountedElsewhere(OnHeaderFieldStart(c, ch).core);
  }

  lemma CountedElsewhere(c: Core)
    ensures !c.state.ChunkSizeStart? || c.errno != OK ==> SizeCounted(c)
  {
  }

  lemma CountedLws(c: Core, ch: char)
    requires c.errno == OK && !c.state.ChunkSizeStart?
    ensures SizeCounted(OnHeaderValueLws(c, ch).core) && SizeCounted(OnHeaderValueDiscardLws(c, ch).core)
    ensures SizeCounted(OnHeaderValueDiscardWs(c, ch).core)
  {
    hide OnHeaderFieldStart, OnHeaderValueStart, SizeCounted;
    CountedFields(FinishHeader(c).(state := HeaderFieldStart), ch);
    CountedFields(c.(state := HeaderValueStart), ch);
    CountedFields(c, ch);
    CountedElsewhere(OnHeaderValueLws(c, ch).core);
    CountedElsewhere(OnHeaderValueDiscardLws(c, ch).core);
    CountedElsewhere(OnHeaderValueDiscardWs(c, ch).core);
  }

  lemma CountedRequest(c: Core, ch: char)
    requires c.errno == OK && !c.state.ChunkSizeStart?
    ensures SizeCounted(OnStartReq(c, ch).core) && SizeCounted(OnReqMethod(c, ch).core)
    ensures SizeCounted(OnHeaderAlmostDone(c, ch).core) && SizeCounted(OnHeaderValue(c, ch).core)
  {
    hide MethodName, FirstGuess, Reguess, ValueNext;
  }

  lemma CountedBody(c: Core, ch: char)
    requires c.errno == OK && !c.state.ChunkSizeStart?
    ensures SizeCounted(OnChunkSize(c, ch).core) && SizeCounted(OnChunkSizeAlmostDone(c, ch).core)
    ensures SizeCounted(OnChunkDataDone(c, ch).core)
    ensures c.contentLength > 0 ==> SizeCounted(OnChunkData(c, ch).core) && SizeCounted(OnBodyIdentity(c, ch).core)
  {
  }

  lemma CountedDispatch(c: Core, ch: char)
    requires Wf(c) && c.errno == OK
    ensures SizeCounted(Dispatch(c, ch).core)
  {
    hide OnHeadersDone, OnMessageDone, OnHeadersAlmostDone, OnHeaderFieldStart, OnHeaderValueStart, OnHeaderValue,
         OnHeaderAlmostDone, OnHeaderValueLws, OnHeaderValueDiscardWs, OnHeaderValueDiscardLws, OnStartReq,
         OnReqMethod, OnChunkSize, OnChunkSizeAlmostDone, OnChunkData, OnChunkDataDone, OnBodyIdentity, Wf;
    LengthLeft(c);
    match c.state
    case StartReq => CountedRequest(c, ch);
    case ReqMethod => CountedRequest(c, ch);
    case HeaderAlmostDone => CountedRequest(c, ch);
    case HeaderValue => CountedRequest(c, ch);
    case HeaderFieldStart => CountedFields(c, ch);
    case HeaderValueStart => CountedFields(c, ch);
    case HeaderValueLws => CountedLws(c, ch);
    case HeaderValueDiscardLws => CountedLws(c, ch);
    case HeaderValueDiscardWs => CountedLws(c, ch);
    case HeadersDone => CountedHeaders(c, ch);
    case HeadersAlmostDone => CountedHeaders(c, ch);
    case MessageDone => CountedHeaders(c, ch);
    case ChunkSize => CountedBody(c, ch);
    case ChunkSizeAlmostDone => CountedBody(c, ch);
    case ChunkDataDone => CountedBody(c, ch);
    case ChunkData => CountedBody(c, ch);
    case BodyIdentity => CountedBody(c, ch);
    case _ =>
  }

  lemma LengthLeft(c: Core)
    requires Wf(c)
    ensures c.state.ChunkData? || c.state.BodyIdentity? ==> c.contentLength > 0
  {
  }

  lemma SizeCountedStep(c: Core, ch: char)
    requires Wf(c) && SizeCounted(c)
    ensures SizeCounted(Step(c, ch).core)
  {
    hide Dispatch;
    if c.errno == OK {
      CountedDispatch(c, ch);
      CountedDispatch(c.(nread := c.nread + 1), ch);
    }
  }

  lemma {:induction false} SizeCountedRun(c: Core, s: string)
    requires Wf(c) && SizeCounted(c)
    ensures SizeCounted(Run(c, s).core)
  {
    hide Step, SizeCounted, Wf;
    if s != [] {
      SizeCountedRun(c, s[..|s| - 1]);
      SizeCountedStep(Run(c, s[..|s| - 1]).core, s[|s| - 1]);
    }
  }
}
