/**
 * What ends a message and what may follow it: requests without a body, responses read to the end of the
 * connection, and whether a next request is read (section 3.3.3 and section 6.3 of RFC 7230).
 */
module HttpMessages {
  import opened Wrappers
  import opened HttpMachine
  import opened HttpMethods
  import opened HttpFraming

  /** The connection persists: since HTTP/1.1 unless it is to be closed, before only if it is to be kept. */
  predicate Persists(line: Line, close: bool, keepAlive: bool) {
    if line.httpMajor >= 1 && line.httpMinor >= 1 then !close else keepAlive
  }

  /** Once the connection is to be closed, only line breaks are let through. */
  lemma DeadStep(c: Core, ch: char)
    requires Wf(c) && c.state.Dead?
    ensures Step(c, ch).core.state.Dead? && Step(c, ch).events == []
    ensures c.errno == OK && c.nread < HTTP_MAX_HEADER_SIZE ==>
              Step(c, ch).core.errno == if ch == CR || ch == LF then OK else ClosedConnection
    ensures Step(c, ch).core.errno == OK ==> Step(c, ch).core.nread == c.nread + 1
  {
    hide MethodName, Reguess, FirstGuess, ValueNext;
  }

  lemma {:induction false} DeadRun(c: Core, s: string)
    requires Wf(c) && c.errno == OK && c.state.Dead? && c.nread + |s| <= HTTP_MAX_HEADER_SIZE
    ensures var r := Run(c, s);
            && r.core.state.Dead? && r.events == []
            && r.core.errno == (if Trim(s) == [] then OK else ClosedConnection)
            && (r.core.errno == OK ==> r.core.nread == c.nread + |s|)
  {
    hide Step;
    if s != [] {
      var s', ch := s[..|s| - 1], s[|s| - 1];
      DeadRun(c, s');
      assert s == s' + [ch];
      TrimSnoc(s', ch);
      DeadStep(Run(c, s').core, ch);
    }
  }

  /**
   * After a request, the next word is taken as a method exactly if the connection persists and the word
   * is the name of that method; if the connection does not persist, anything but line breaks is an error.
   */
  lemma NextRequest(flags: Flags, line: Line, c: Core, w: string, m: Method)
    requires Wf(c) && MessageEnded(flags, line, c) && line.kind == Request
    requires ' ' !in w && |w| + 3 <= HTTP_MAX_HEADER_SIZE
    ensures Accepted(Run(c, w + " ").core, m) <==>
            Persists(line, flags.close, flags.keepAlive) && Trim(w) == MethodName(m)
    ensures !Persists(line, flags.close, flags.keepAlive) ==> Run(c, w + " ").core.errno == ClosedConnection
  {
    hide Run, MethodName, Trim;
    if Persists(line, flags.close, flags.keepAlive) {
      MethodExact(c, w, m);
    } else {
      DeadRun(c, w + " ");
      TrimSnoc(w, ' ');
    }
  }

  lemma ThenNext(c: Core, s: string, flags: Flags, line: Line, w: string, m: Method)
    requires Wf(c) && MessageEnded(flags, line, Run(c, s).core) && line.kind == Request
    requires ' ' !in w && |w| + 3 <= HTTP_MAX_HEADER_SIZE
    ensures Accepted(Run(c, s + (w + " ")).core, m) <==>
            Persists(line, flags.close, flags.keepAlive) && Trim(w) == MethodName(m)
  {
    hide Run, MethodName, Trim, Wf, Accepted, MessageEnded, Persists;
    RunConcat(c, s, w + " ");
    NextRequest(flags, line, Run(c, s).core, w, m);
  }

  /** After a chunked request. */
  lemma AfterChunked(c: Core, head: string, ks: seq<Chunk>, last: SizeLine, w: string, m: Method)
    requires BeforeChunks(c, head) && WfChunked(ks, last) && c.line.kind == Request
    requires ' ' !in w && |w| + 3 <= HTTP_MAX_HEADER_SIZE
    ensures var flags := if c.state.HeaderValueLws? then FinishHeader(c).flags else c.flags;
            Accepted(Run(c, head + ChunkedBody(ks, last) + (w + " ")).core, m) <==>
            Persists(c.line, flags.close, flags.keepAlive) && Trim(w) == MethodName(m)
  {
    hide Run, MethodName, Trim, Wf, Accepted, MessageEnded, Persists, BeforeChunks, WfChunked, ChunkedBody, FinishHeader;
    StartWf(c, head);
    ChunkedRun(c, head, ks, last, "");
    ThenNext(c, head + ChunkedBody(ks, last), if c.state.HeaderValueLws? then FinishHeader(c).flags else c.flags, c.line, w, m);
  }

  /** After a request with a declared length. */
  lemma AfterLength(c: Core, digits: string, body: string, w: string, m: Method)
    requires AtLengthValue(c) && PlainBody(c) && IsLength(digits) && c.line.kind == Request
    requires c.nread + 2 * |digits| + 4 <= HTTP_MAX_HEADER_SIZE
    requires LengthValue(digits) == |body| <= ULLONG_MAX - 6
    requires ' ' !in w && |w| + 3 <= HTTP_MAX_HEADER_SIZE
    ensures Accepted(Run(c, digits + [CR, LF] + [CR, LF] + body + (w + " ")).core, m) <==>
            Persists(c.line, c.flags.close, c.flags.keepAlive) && Trim(w) == MethodName(m)
  {
    hide Run, MethodName, Trim, Accepted, MessageEnded, Persists, LengthValue;
    ContentLengthRun(c, digits, body, "");
    ThenNext(c, digits + [CR, LF] + [CR, LF] + body, c.flags, c.line, w, m);
  }

  // ----- headers that announce no length

  /** The last header line has been read, and neither a length nor chunked coding was announced. */
  predicate Unframed(c: Core) {
    && Wf(c) && c.errno == OK && c.state.HeaderValueLws? && c.nread + 2 <= HTTP_MAX_HEADER_SIZE
    && c.contentLength == ULLONG_MAX && c.header != HChunked && PlainBody(FinishHeader(c))
  }

  /** Responses that have no body whatever their headers say. */
  predicate Bodiless(status: nat) {
    100 <= status < 200 || status == 204 || status == 304
  }

  lemma UnframedLf(c: Core)
    requires Wf(c) && c.errno == OK && c.state.HeadersAlmostDone? && PlainBody(c) && c.contentLength == ULLONG_MAX
    requires c.nread < HTTP_MAX_HEADER_SIZE
    ensures Step(c, LF) ==
            if c.line.kind == Request || Bodiless(c.line.statusCode)
            then Out(c.(nread := 0, state := NewMessage(c)), [HeadersComplete, MessageComplete])
            else Out(c.(nread := 0, state := BodyIdentityEof), [HeadersComplete])
  {
    assert Step(c, LF) == OnHeadersAlmostDone(c.(nread := c.nread + 1), LF);
    assert 100 <= c.line.statusCode < 200 <==> c.line.statusCode / 100 == 1;
  }

  /** A request without a length, or a response that has no body, ends with its headers. */
  lemma UnframedEnd(c: Core)
    requires Unframed(c)
    ensures var o, f := Run(c, [CR, LF]), FinishHeader(c);
            if c.line.kind == Request || Bodiless(c.line.statusCode)
            then o.events == [HeadersComplete, MessageComplete] && MessageEnded(f.flags, c.line, o.core)
            else o == Out(f.(nread := 0, state := BodyIdentityEof), [HeadersComplete])
  {
    hide Run, Step;
    RunTwo(c, CR, LF);
    ChunkedCr(c);
    UnframedLf(Step(c, CR).core);
  }

  /** The headers that close or keep the connection do so. */
  lemma AfterUnframed(c: Core, w: string, m: Method)
    requires Unframed(c) && c.line.kind == Request
    requires ' ' !in w && |w| + 3 <= HTTP_MAX_HEADER_SIZE
    ensures Accepted(Run(c, [CR, LF] + (w + " ")).core, m) <==>
            && Persists(c.line, c.flags.close || c.header == HClose, c.flags.keepAlive || c.header == HKeepAlive)
            && Trim(w) == MethodName(m)
  {
    hide Run, MethodName, Trim, Accepted, MessageEnded, Persists;
    UnframedEnd(c);
    ThenNext(c, [CR, LF], FinishHeader(c).flags, c.line, w, m);
  }

  /** Any other response is read to the end of the connection: every further byte is its body. */
  lemma {:induction false} EofRun(c: Core, s: string)
    requires Wf(c) && c.errno == OK && c.state.BodyIdentityEof?
    ensures Run(c, s) == Out(c, Singles(s))
  {
    hide Step;
    if s != [] {
      var s', ch := s[..|s| - 1], s[|s| - 1];
      EofRun(c, s');
      EofByte(c, ch);
      assert Singles(s) == Singles(s') + [Body([ch])];
    }
  }

  lemma EofByte(c: Core, ch: char)
    requires Wf(c) && c.errno == OK && c.state.BodyIdentityEof?
    ensures Step(c, ch) == Out(c, [Body([ch])])
  {
  }

  lemma UnframedResponse(c: Core, s: string)
    requires Unframed(c) && c.line.kind == Response && !Bodiless(c.line.statusCode)
    ensures var o := Run(c, [CR, LF] + s);
            && o.core == FinishHeader(c).(nread := 0, state := BodyIdentityEof)
            && BodyBytes(o.events) == s && Completions(o.events) == 0
  {
    hide Run, BodyBytes, Completions;
    UnframedEnd(c);
    RunConcat(c, [CR, LF], s);
    EofRun(Run(c, [CR, LF]).core, s);
    BodyBytesConcat([HeadersComplete], Singles(s));
    BodyBytesSingles(s);
    EndMeans();
  }

  // ----- the beginning of a request

  /** Nothing of an earlier message is left when a request begins: no flag, and no length. */
  lemma RequestForgets(c: Core, ch: char)
    requires Ready(c) && c.nread < HTTP_MAX_HEADER_SIZE && FirstGuess(ch).Some?
    ensures var o := Step(c, ch);
            && o.events == [MessageBegin] && o.core.contentLength == ULLONG_MAX && o.core.line == c.line
            && var f := o.core.flags;
               && !f.chunked && !f.keepAlive && !f.close && !f.connectionUpgrade && !f.trailing && !f.upgrade
               && !f.contentLength
  {
    hide MethodName, Reguess;
    GuessIsAlpha(ch);
  }

  lemma GuessIsAlpha(ch: char)
    requires FirstGuess(ch).Some?
    ensures IsAlpha(ch) && ch != CR && ch != LF
  {
  }

  // ----- digits and limits

  lemma DigitsAre(ch: char)
    ensures IsNum(ch) <==> ch in "0123456789"
    ensures IsNum(ch) ==> "0123456789"[Digit(ch)] == ch
  {
  }

  lemma HexDigitsAre(ch: char)
    ensures Unhex(ch) != -1 <==> ch in "0123456789abcdef" || ch in "0123456789ABCDEF"
    ensures Unhex(ch) != -1 ==> "0123456789abcdef"[Unhex(ch)] == ch || "0123456789ABCDEF"[Unhex(ch)] == ch
  {
  }

  /** The header bytes that may be counted are 81920; lengths have 64 bits. */
  lemma HeaderLimit(c: Core, ch: char)
    requires Wf(c) && c.errno == OK && ParsingHeader(c.state)
    ensures c.nread >= 81920 ==> Step(c, ch).core.errno == HeaderOverflow
    ensures c.nread < 81919 ==> Step(c, ch).core.errno != HeaderOverflow
    ensures ULLONG_MAX + 1 == 0x1_0000_0000 * 0x1_0000_0000
  {
    hide MethodName, Reguess, FirstGuess, OnHeaderValue, OnHeadersAlmostDone, OnHeadersDone;
    if c.nread < 81919 {
      var c' := c.(nread := c.nread + 1);
      HeadersFit(c', ch);
      HeadersFit(c'.(state := HeadersAlmostDone), ch);
      HeadersFit(FinishHeader(c').(state := HeadersAlmostDone), ch);
      if c.state.HeaderValue? { ValueFits(c', ch); }
    }
  }

  lemma HeadersFit(c: Core, ch: char)
    requires c.errno == OK
    ensures OnHeadersAlmostDone(c, ch).core.errno != HeaderOverflow && OnHeadersDone(c, ch).core.errno != HeaderOverflow
  {
  }

  lemma ValueFits(c: Core, ch: char)
    requires c.errno == OK && c.nread < HTTP_MAX_HEADER_SIZE
    ensures OnHeaderValue(c, ch).core.errno != HeaderOverflow
  {
  }

  /** Which error a bad byte in a length is: control characters are refused as such, unless lenient. */
  lemma BadValueByte(c: Core, ch: char)
    requires Wf(c) && c.errno == OK && c.state.HeaderValue? && c.header == HContentLength
    requires c.nread < HTTP_MAX_HEADER_SIZE && !IsNum(ch) && ch != ' ' && ch != CR && ch != LF
    ensures Step(c, ch).core.errno ==
            if !c.line.lenient && ((ch as int < 32 && ch != '\t') || ch as int == 127) then InvalidHeaderToken
            else InvalidContentLength
  {
    hide MethodName, Reguess, FirstGuess;
  }

  // ----- line ends and folded lines

  predicate AtLineStart(c: Core) {
    Wf(c) && c.errno == OK && (c.state.HeaderValueLws? || c.state.HeaderFieldStart?) && c.nread + 2 <= HTTP_MAX_HEADER_SIZE
  }

  /** A bare line feed ends the headers as a carriage return and a line feed do. */
  lemma BareLineFeed(c: Core)
    requires AtLineStart(c)
    ensures var a, b := Step(c, LF), Run(c, [CR, LF]);
            a.events == b.events && a.core == b.core.(nread := a.core.nread)
  {
    hide Run, Step;
    RunTwo(c, CR, LF);
    ChunkedCr(c);
    var f := if c.state.HeaderValueLws? then FinishHeader(c) else c;
    LfFirst(c);
    LfLast(f.(nread := c.nread + 1, state := HeadersAlmostDone));
    CountApart(f.(state := HeadersAlmostDone), c.nread + 1, c.nread + 2);
  }

  lemma LfFirst(c: Core)
    requires AtLineStart(c)
    ensures var f := if c.state.HeaderValueLws? then FinishHeader(c) else c;
            Step(c, LF) == OnHeadersAlmostDone(f.(nread := c.nread + 1, state := HeadersAlmostDone), LF)
  {
    hide MethodName, Reguess, FirstGuess, ValueNext, OnHeadersAlmostDone;
  }

  lemma LfLast(c: Core)
    requires Wf(c) && c.errno == OK && c.state.HeadersAlmostDone? && c.nread < HTTP_MAX_HEADER_SIZE
    ensures Step(c, LF) == OnHeadersAlmostDone(c.(nread := c.nread + 1), LF)
  {
  }

  lemma CountApart(c: Core, m: nat, n: nat)
    ensures var a, b := OnHeadersAlmostDone(c.(nread := m), LF), OnHeadersAlmostDone(c.(nread := n), LF);
            a.events == b.events && a.core == b.core.(nread := a.core.nread)
  {
  }

  /** The protocol changes after the headers exactly for CONNECT and for an upgrade that the connection asks for. */
  lemma ProtocolChange(c: Core)
    requires AtLineStart(c) && c.state.HeaderValueLws? && !c.flags.trailing
    requires !(c.flags.contentLength && FinishHeader(c).flags.chunked)
    ensures Run(c, [CR, LF]).core.state.Beyond? <==>
            c.reqMethod == CONNECT || (c.flags.upgrade && (c.flags.connectionUpgrade || c.header == HConnectionUpgrade))
  {
    hide Run, Step, OnHeadersAlmostDone, FinishHeader;
    RunTwo(c, CR, LF);
    ChunkedCr(c);
    FinishKeeps(c);
    LfLast(Step(c, CR).core);
    ChangesLf(FinishHeader(c).(nread := c.nread + 2, state := HeadersAlmostDone));
  }

  lemma FinishKeeps(c: Core)
    ensures var f := FinishHeader(c);
            && f.errno == c.errno && f.reqMethod == c.reqMethod
            && f.flags.upgrade == c.flags.upgrade && f.flags.trailing == c.flags.trailing
            && f.flags.contentLength == c.flags.contentLength
            && f.flags.connectionUpgrade == (c.flags.connectionUpgrade || c.header == HConnectionUpgrade)
  {
    match c.header
    case HKeepAlive =>
    case HClose =>
    case HChunked =>
    case HConnectionUpgrade =>
    case _ =>
  }

  lemma ChangesLf(c: Core)
    requires !c.flags.trailing && !(c.flags.contentLength && c.flags.chunked) && c.state.HeadersAlmostDone?
    ensures OnHeadersAlmostDone(c, LF).core.state.Beyond? <==>
            c.reqMethod == CONNECT || (c.flags.upgrade && c.flags.connectionUpgrade)
  {
  }

  /** A length whose first line is blank goes on in the next line if that is indented. */
  lemma BlankFirstLine(c: Core, ch: char)
    requires AtLengthValue(c) && c.nread + 3 <= HTTP_MAX_HEADER_SIZE && (ch == ' ' || ch == '\t')
    ensures Run(c, [CR, LF] + [ch]) == Out(c.(nread := c.nread + 3), [])
  {
    hide Run, Step;
    RunConcat(c, [CR, LF], [ch]);
    RunTwo(c, CR, LF);
    BlankCr(c);
    BlankLf(Step(c, CR).core);
    RunOne(Run(c, [CR, LF]).core, ch);
    Indented(Run(c, [CR, LF]).core, ch);
  }

  lemma BlankCr(c: Core)
    requires AtLengthValue(c) && c.nread < HTTP_MAX_HEADER_SIZE
    ensures Step(c, CR) == Out(c.(nread := c.nread + 1, state := HeaderValueDiscardWsAlmostDone), [])
  {
    hide MethodName, Reguess, FirstGuess, ValueNext;
  }

  lemma BlankLf(c: Core)
    requires Wf(c) && c.errno == OK && c.state.HeaderValueDiscardWsAlmostDone? && c.nread < HTTP_MAX_HEADER_SIZE
    ensures Step(c, LF) == Out(c.(nread := c.nread + 1, state := HeaderValueDiscardLws), [])
  {
    hide MethodName, Reguess, FirstGuess, ValueNext;
  }

  lemma Indented(c: Core, ch: char)
    requires Wf(c) && c.errno == OK && c.state.HeaderValueDiscardLws? && c.nread < HTTP_MAX_HEADER_SIZE
    requires ch == ' ' || ch == '\t'
    ensures Step(c, ch) == Out(c.(nread := c.nread + 1, state := HeaderValueDiscardWs), [])
  {
    hide MethodName, Reguess, FirstGuess, ValueNext;
  }

  /** If the next line is not indented, the header ends there like any other, without a value. */
  lemma EmptyValue(c: Core, ch: char)
    requires Wf(c) && c.errno == OK && c.state.HeaderValueDiscardLws? && ch != ' ' && ch != '\t'
    requires c.nread < HTTP_MAX_HEADER_SIZE
    ensures Step(c, ch) == Step(c.(state := HeaderValueLws), ch)
  {
    hide MethodName, Reguess, FirstGuess, ValueNext, OnHeaderFieldStart;
  }

  /** A length that has begun cannot go on in an indented line. */
  lemma FoldRefused(c: Core, ch: char)
    requires Wf(c) && c.errno == OK && c.state.HeaderValueLws? && c.header == HContentLength
    requires c.nread < HTTP_MAX_HEADER_SIZE && (ch == ' ' || ch == '\t')
    ensures Step(c, ch).core.errno == InvalidContentLength && Step(c, ch).events == []
  {
    hide MethodName, Reguess, FirstGuess, ValueNext;
  }
}
