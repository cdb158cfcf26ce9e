/**
 * How a message body is delimited (section 3.3 and section 4.1 of RFC 7230): chunked bodies, bodies
 * of a declared length, and the digits of the declared length itself.
 */
module HttpFraming {
  import opened Wrappers
  import opened HttpMachine

  // ----- runs of one and two bytes

  lemma RunOne(c: Core, ch: char)
    requires Wf(c)
    ensures Run(c, [ch]) == Step(c, ch)
  {
    hide Step;
    assert [ch][..0] == [];
    assert Run(c, []) == Out(c, []);
  }

  lemma RunTwo(c: Core, a: char, b: char)
    requires Wf(c)
    ensures Run(c, [a, b]).core == Step(Step(c, a).core, b).core
    ensures Run(c, [a, b]).events == Step(c, a).events + Step(Step(c, a).core, b).events
  {
    hide Step, Run;
    assert [a, b] == [a] + [b];
    RunConcat(c, [a], [b]);
    RunOne(c, a);
    RunOne(Step(c, a).core, b);
  }

  // ----- body events

  /** One body event per byte: what a parser fed one byte at a time reports. */
  function Singles(s: string): (es: seq<Event>)
    ensures |es| == |s|
    ensures forall i :: 0 <= i < |s| ==> es[i] == Body([s[i]])
  {
    seq(|s|, i requires 0 <= i < |s| => Body([s[i]]))
  }

  /** The bytes handed to the body callback. */
  function BodyBytes(es: seq<Event>): string {
    if es == [] then []
    else BodyBytes(es[..|es| - 1]) + if es[|es| - 1].Body? then es[|es| - 1].data else []
  }

  /** How many messages were reported complete. */
  function Completions(es: seq<Event>): nat {
    if es == [] then 0
    else Completions(es[..|es| - 1]) + if es[|es| - 1].MessageComplete? then 1 else 0
  }

  lemma {:induction false} BodyBytesConcat(a: seq<Event>, b: seq<Event>)
    ensures BodyBytes(a + b) == BodyBytes(a) + BodyBytes(b)
    ensures Completions(a + b) == Completions(a) + Completions(b)
  {
    if b == [] {
      assert a + b == a;
    } else {
      assert (a + b)[..|a + b| - 1] == a + b[..|b| - 1];
      BodyBytesConcat(a, b[..|b| - 1]);
    }
  }

  lemma {:induction false} BodyBytesSingles(s: string)
    ensures BodyBytes(Singles(s)) == s
    ensures Completions(Singles(s)) == 0
  {
    if s != [] {
      var s' := s[..|s| - 1];
      assert Singles(s)[..|s| - 1] == Singles(s');
      assert s == s' + [s[|s| - 1]];
      BodyBytesSingles(s');
    }
  }

  // ----- after a message

  /** Between messages, or in the first line of the next one. */
  predicate Idle(c: Core) {
    c.state.Dead? || c.state.StartReq? || c.state.StartRes? || c.state.ReqMethod? || c.state.SpacesBeforeUrl?
    || c.state.Beyond?
  }

  /** Nothing is reported but the beginning of a message. */
  predicate Quiet(es: seq<Event>) {
    forall i :: 0 <= i < |es| ==> es[i] == MessageBegin
  }

  lemma IdleStep(c: Core, ch: char)
    requires Wf(c) && Idle(c)
    ensures Idle(Step(c, ch).core) && Quiet(Step(c, ch).events)
  {
    hide MethodName, FirstGuess, Reguess;
  }

  lemma {:induction false} IdleRun(c: Core, s: string)
    requires Wf(c) && Idle(c)
    ensures Idle(Run(c, s).core) && Quiet(Run(c, s).events)
  {
    hide Step, Wf, Idle;
    if s != [] {
      IdleRun(c, s[..|s| - 1]);
      IdleStep(Run(c, s[..|s| - 1]).core, s[|s| - 1]);
    }
  }

  lemma {:induction false} QuietMeans(es: seq<Event>)
    requires Quiet(es)
    ensures BodyBytes(es) == [] && Completions(es) == 0
  {
    if es != [] { QuietMeans(es[..|es| - 1]); }
  }

  lemma QuietAdds(a: seq<Event>, b: seq<Event>)
    requires Quiet(b)
    ensures BodyBytes(a + b) == BodyBytes(a) && Completions(a + b) == Completions(a)
  {
    BodyBytesConcat(a, b);
    QuietMeans(b);
  }

  /** Once a message has ended, what follows it adds nothing to its body and does not complete it again. */
  lemma AfterMessage(c: Core, s: string, tail: string)
    requires Wf(c) && Idle(Run(c, s).core)
    ensures var o := Run(c, s + tail);
            && Idle(o.core)
            && BodyBytes(o.events) == BodyBytes(Run(c, s).events)
            && Completions(o.events) == Completions(Run(c, s).events)
  {
    hide Run, Wf, Idle, Quiet, BodyBytes, Completions;
    RunConcat(c, s, tail);
    IdleRun(Run(c, s).core, tail);
    QuietAdds(Run(c, s).events, Run(Run(c, s).core, tail).events);
  }

  // ----- chunk sizes

  predicate IsHex(s: string) {
    forall i :: 0 <= i < |s| ==> Unhex(s[i]) != -1
  }

  function HexValue(s: string): nat
    requires IsHex(s)
  {
    if s == [] then 0 else HexValue(s[..|s| - 1]) * 16 + Unhex(s[|s| - 1])
  }

  predicate AtChunkSize(c: Core) {
    Wf(c) && c.errno == OK && c.state.ChunkSizeStart? && c.nread == 0 && !c.flags.trailing
  }

  lemma SizeFirst(c: Core, ch: char)
    requires AtChunkSize(c) && Unhex(ch) != -1
    ensures Step(c, ch) == Out(c.(state := ChunkSize, nread := 1, contentLength := Unhex(ch)), [])
  {
  }

  lemma SizeNext(c: Core, ch: char)
    requires Wf(c) && c.errno == OK && c.state.ChunkSize? && c.nread < HTTP_MAX_HEADER_SIZE && Unhex(ch) != -1
    ensures var c' := c.(nread := c.nread + 1);
            Step(c, ch) == if c.contentLength * 16 + Unhex(ch) <= ULLONG_MAX - 16
                           then Out(c'.(contentLength := c.contentLength * 16 + Unhex(ch)), [])
                           else Out(c'.(errno := InvalidContentLength), [])
  {
  }

  /**
   * A chunk size is accepted exactly when its value is at most 2^64 - 17, and then the parser holds
   * that value: there is no wrap-around and no confusion with the "absent" marker 2^64 - 1.
   */
  lemma {:induction false} SizeDigits(c: Core, s: string)
    requires AtChunkSize(c) && s != [] && IsHex(s) && |s| <= HTTP_MAX_HEADER_SIZE
    ensures HexValue(s) <= ULLONG_MAX - 16 ==>
              Run(c, s) == Out(c.(state := ChunkSize, nread := |s|, contentLength := HexValue(s)), [])
    ensures HexValue(s) > ULLONG_MAX - 16 ==>
              Run(c, s).core.errno == InvalidContentLength && Run(c, s).events == []
  {
    hide Step;
    var s', ch := s[..|s| - 1], s[|s| - 1];
    if s' == [] {
      SizeFirst(c, ch);
      assert Run(c, s') == Out(c, []) && HexValue(s') == 0;
    } else {
      SizeDigits(c, s');
      if HexValue(s') <= ULLONG_MAX - 16 { SizeNext(Run(c, s').core, ch); }
    }
  }

  /** What may stand between a chunk size and the end of its line. */
  predicate IsExtension(s: string) {
    s == [] || ((s[0] == ';' || s[0] == ' ') && CR !in s)
  }

  predicate InSizeLine(c: Core) {
    Wf(c) && c.errno == OK && (c.state.ChunkSize? || c.state.ChunkParameters?)
  }

  lemma ExtensionByte(c: Core, ch: char)
    requires InSizeLine(c) && c.nread < HTTP_MAX_HEADER_SIZE && ch != CR
    requires c.state.ChunkSize? ==> ch == ';' || ch == ' '
    ensures Step(c, ch) == Out(c.(nread := c.nread + 1, state := ChunkParameters), [])
  {
    hide MethodName, Reguess, FirstGuess, ValueNext;
  }

  /** Chunk extensions are read over. */
  lemma {:induction false} ExtensionRun(c: Core, s: string)
    requires InSizeLine(c) && c.state.ChunkSize? && IsExtension(s) && c.nread + |s| <= HTTP_MAX_HEADER_SIZE
    ensures Run(c, s) == Out(c.(nread := c.nread + |s|, state := if s == [] then ChunkSize else ChunkParameters), [])
  {
    hide Step;
    if s != [] {
      ExtensionRun(c, s[..|s| - 1]);
      ExtensionByte(Run(c, s[..|s| - 1]).core, s[|s| - 1]);
    }
  }

  lemma SizeBad(c: Core, ch: char)
    requires Wf(c) && c.errno == OK && c.nread < HTTP_MAX_HEADER_SIZE && Unhex(ch) == -1
    requires c.state.ChunkSizeStart? || (c.state.ChunkSize? && ch != CR && ch != ';' && ch != ' ')
    ensures Step(c, ch).core.errno == InvalidChunkSize && Step(c, ch).events == []
  {
    hide MethodName, Reguess, FirstGuess, ValueNext;
  }

  /** The hexadecimal digits at the start of a line. */
  function HexPrefix(s: string): (d: string)
    ensures d <= s && IsHex(d) && (|d| < |s| ==> Unhex(s[|d|]) == -1)
  {
    if s != [] && Unhex(s[0]) != -1 then [s[0]] + HexPrefix(s[1..]) else []
  }

  /**
   * A line is accepted as a chunk size exactly if it starts with hexadecimal digits, of value at most
   * 2^64 - 17, and goes on with nothing or with an extension.
   */
  lemma SizeExact(c: Core, s: string)
    requires AtChunkSize(c) && s != [] && |s| <= HTTP_MAX_HEADER_SIZE && CR !in s
    ensures var d := HexPrefix(s);
            Run(c, s).core.errno == OK <==> d != [] && HexValue(d) <= ULLONG_MAX - 16 && IsExtension(s[|d|..])
  {
    hide Step, Run, HexValue, HexPrefix;
    var d := HexPrefix(s);
    var e := s[|d|..];
    assert s == d + e;
    RunConcat(c, d, e);
    if d == [] {
      RunNothing(c);
      SizeRefused(c, e);
    } else {
      SizeDigits(c, d);
      var c1 := Run(c, d).core;
      if c1.errno != OK {
        RunError(c1, e);
      } else if IsExtension(e) {
        ExtensionRun(c1, e);
      } else {
        SizeRefused(c1, e);
      }
    }
  }

  lemma SizeRefused(c: Core, e: string)
    requires Wf(c) && c.errno == OK && c.nread < HTTP_MAX_HEADER_SIZE && e != [] && Unhex(e[0]) == -1
    requires c.state.ChunkSizeStart? || (c.state.ChunkSize? && e[0] != CR && e[0] != ';' && e[0] != ' ')
    ensures Run(c, e).core.errno != OK
  {
    hide Step, Run;
    assert e == [e[0]] + e[1..];
    RunConcat(c, [e[0]], e[1..]);
    RunOne(c, e[0]);
    SizeBad(c, e[0]);
    RunError(Step(c, e[0]).core, e[1..]);
  }

  lemma SizeEnd(c: Core)
    requires InSizeLine(c) && c.nread + 2 <= HTTP_MAX_HEADER_SIZE
    ensures var o := Run(c, [CR, LF]);
            && o.events == [ChunkHeader(c.contentLength)]
            && o.core == if c.contentLength == 0
                         then c.(nread := 0, flags := c.flags.(trailing := true), state := HeaderFieldStart)
                         else c.(nread := 0, state := ChunkData)
  {
    hide Run, Step;
    RunTwo(c, CR, LF);
    SizeCr(c);
    SizeLf(c.(nread := c.nread + 1, state := ChunkSizeAlmostDone));
  }

  lemma SizeCr(c: Core)
    requires InSizeLine(c) && c.nread < HTTP_MAX_HEADER_SIZE
    ensures Step(c, CR) == Out(c.(nread := c.nread + 1, state := ChunkSizeAlmostDone), [])
  {
    hide MethodName, Reguess, FirstGuess, ValueNext;
  }

  lemma SizeLf(c: Core)
    requires Wf(c) && c.errno == OK && c.state.ChunkSizeAlmostDone? && c.nread < HTTP_MAX_HEADER_SIZE
    ensures Step(c, LF) ==
            Out(if c.contentLength == 0
                then c.(nread := 0, flags := c.flags.(trailing := true), state := HeaderFieldStart)
                else c.(nread := 0, state := ChunkData), [ChunkHeader(c.contentLength)])
  {
    hide MethodName, Reguess, FirstGuess, ValueNext;
  }

  // ----- chunk data

  lemma DataByte(c: Core, ch: char)
    requires Wf(c) && c.errno == OK && c.state.ChunkData?
    ensures Step(c, ch) ==
            Out(c.(contentLength := c.contentLength - 1,
                   state := if c.contentLength == 1 then ChunkDataAlmostDone else ChunkData), [Body([ch])])
  {
  }

  lemma {:induction false} RunChunkData(c: Core, s: string)
    requires Wf(c) && c.errno == OK && c.state.ChunkData? && |s| <= c.contentLength
    ensures Run(c, s) ==
            Out(c.(contentLength := c.contentLength - |s|,
                   state := if |s| == c.contentLength then ChunkDataAlmostDone else ChunkData), Singles(s))
  {
    hide Step;
    if s != [] {
      var s', ch := s[..|s| - 1], s[|s| - 1];
      RunChunkData(c, s');
      DataByte(Run(c, s').core, ch);
      assert Singles(s) == Singles(s') + [Body([ch])];
    }
  }

  lemma DataEnd(c: Core)
    requires Wf(c) && c.errno == OK && c.state.ChunkDataAlmostDone?
    ensures Run(c, [CR, LF]) == Out(c.(nread := 0, state := ChunkSizeStart), [ChunkComplete])
  {
    hide Run, Step;
    RunTwo(c, CR, LF);
    AfterChunk(c, CR);
    DataLf(c.(state := ChunkDataDone));
  }

  lemma AfterChunk(c: Core, ch: char)
    requires Wf(c) && c.errno == OK && c.state.ChunkDataAlmostDone?
    ensures Step(c, ch) == if ch != CR then Out(c.(errno := Strict), []) else Out(c.(state := ChunkDataDone), [])
  {
    hide MethodName, Reguess, FirstGuess, ValueNext;
  }

  lemma DataLf(c: Core)
    requires Wf(c) && c.errno == OK && c.state.ChunkDataDone?
    ensures Step(c, LF) == Out(c.(nread := 0, state := ChunkSizeStart), [ChunkComplete])
  {
    hide MethodName, Reguess, FirstGuess, ValueNext;
  }

  // ----- one chunk, and a whole chunked body

  datatype SizeLine = SizeLine(digits: string, extension: string)

  function EncodeLine(l: SizeLine): string {
    l.digits + l.extension + [CR, LF]
  }

  /** Any spelling, within the limits, of a chunk size, with any extension. */
  predicate WfLine(l: SizeLine, size: nat) {
    && IsHex(l.digits) && l.digits != [] && IsExtension(l.extension)
    && |l.digits| + |l.extension| + 2 <= HTTP_MAX_HEADER_SIZE
    && HexValue(l.digits) == size <= ULLONG_MAX - 16
  }

  datatype Chunk = Chunk(line: SizeLine, data: string)

  /** A non-empty chunk with its length in its size line. */
  predicate WfChunk(k: Chunk) {
    k.data != [] && WfLine(k.line, |k.data|)
  }

  function EncodeChunk(k: Chunk): string {
    EncodeLine(k.line) + k.data + [CR, LF]
  }

  function ChunkEvents(k: Chunk): seq<Event> {
    [ChunkHeader(|k.data|)] + Singles(k.data) + [ChunkComplete]
  }

  lemma ReadLine(c: Core, l: SizeLine, size: nat)
    requires AtChunkSize(c) && WfLine(l, size)
    ensures var o := Run(c, EncodeLine(l));
            && o.events == [ChunkHeader(size)]
            && o.core == if size == 0
                         then c.(nread := 0, contentLength := 0, flags := c.flags.(trailing := true),
                                 state := HeaderFieldStart)
                         else c.(nread := 0, contentLength := size, state := ChunkData)
  {
    hide Run, HexValue;
    SizeDigits(c, l.digits);
    var c1 := Run(c, l.digits).core;
    RunConcat(c, l.digits, l.extension);
    ExtensionRun(c1, l.extension);
    var c2 := Run(c1, l.extension).core;
    RunConcat(c, l.digits + l.extension, [CR, LF]);
    SizeEnd(c2);
  }

  lemma OneChunk(c: Core, k: Chunk)
    requires AtChunkSize(c) && WfChunk(k)
    ensures Run(c, EncodeChunk(k)).core == c.(contentLength := 0)
    ensures Run(c, EncodeChunk(k)).events == ChunkEvents(k)
  {
    hide Run, EncodeLine, WfLine;
    var line := EncodeLine(k.line);
    LineSize(k.line, |k.data|);
    ReadLine(c, k.line, |k.data|);
    var c1 := Run(c, line).core;
    RunConcat(c, line, k.data);
    RunChunkData(c1, k.data);
    var c2 := Run(c1, k.data).core;
    RunConcat(c, line + k.data, [CR, LF]);
    DataEnd(c2);
  }

  lemma LineSize(l: SizeLine, size: nat)
    requires WfLine(l, size)
    ensures size <= ULLONG_MAX - 16
  {
  }

  function Encode(ks: seq<Chunk>): string {
    if ks == [] then [] else Encode(ks[..|ks| - 1]) + EncodeChunk(ks[|ks| - 1])
  }

  function Payload(ks: seq<Chunk>): string {
    if ks == [] then [] else Payload(ks[..|ks| - 1]) + ks[|ks| - 1].data
  }

  function AllEvents(ks: seq<Chunk>): seq<Event> {
    if ks == [] then [] else AllEvents(ks[..|ks| - 1]) + ChunkEvents(ks[|ks| - 1])
  }

  lemma {:induction false} Chunks(c: Core, ks: seq<Chunk>)
    requires AtChunkSize(c) && forall k :: k in ks ==> WfChunk(k)
    ensures Run(c, Encode(ks)).events == AllEvents(ks)
    ensures AtChunkSize(Run(c, Encode(ks)).core)
    ensures Run(c, Encode(ks)).core == c.(contentLength := if ks == [] then c.contentLength else 0)
  {
    hide Run, EncodeChunk, WfChunk, ChunkEvents;
    if ks == [] {
      RunNothing(c);
    } else {
      var ks', k := ks[..|ks| - 1], ks[|ks| - 1];
      Chunks(c, ks');
      RunConcat(c, Encode(ks'), EncodeChunk(k));
      OneChunk(Run(c, Encode(ks')).core, k);
    }
  }

  lemma RunNothing(c: Core)
    requires Wf(c)
    ensures Run(c, []) == Out(c, [])
  {
  }

  lemma TrailerEnd(c: Core)
    requires Wf(c) && c.errno == OK && c.state.HeaderFieldStart? && c.flags.trailing && c.nread == 0
    ensures Step(c, CR) == Out(c.(nread := 1, state := HeadersAlmostDone), [])
    ensures var c' := c.(nread := 2, state := HeadersAlmostDone);
            Step(Step(c, CR).core, LF) == Out(c'.(state := NewMessage(c')), [ChunkComplete, MessageComplete])
  {
  }

  /** What is left of a message when it has ended: whether the connection stays is decided by its headers. */
  predicate MessageEnded(flags: Flags, line: Line, r: Core) {
    && r.errno == OK && r.line == line && r.flags.close == flags.close && r.flags.keepAlive == flags.keepAlive
    && r.nread <= 2 && r.state == NewMessage(r)
  }

  /** The last chunk (any number of zeros) and the empty trailer. */
  lemma LastChunk(c: Core, last: SizeLine)
    requires AtChunkSize(c) && WfLine(last, 0)
    ensures Run(c, EncodeLine(last) + [CR]).events == [ChunkHeader(0)]
    ensures Run(c, EncodeLine(last) + [CR, LF]).events == [ChunkHeader(0), ChunkComplete, MessageComplete]
    ensures MessageEnded(c.flags, c.line, Run(c, EncodeLine(last) + [CR, LF]).core)
    ensures Idle(Run(c, EncodeLine(last) + [CR, LF]).core)
  {
    hide Run, HexValue, Step, EncodeLine, WfLine;
    var line := EncodeLine(last);
    ReadLine(c, last, 0);
    var c1 := Run(c, line).core;
    TrailerEnd(c1);
    RunConcat(c, line, [CR]);
    RunOne(c1, CR);
    RunConcat(c, line, [CR, LF]);
    RunTwo(c1, CR, LF);
  }

  lemma {:induction false} AllEventsMean(ks: seq<Chunk>)
    ensures BodyBytes(AllEvents(ks)) == Payload(ks)
    ensures Completions(AllEvents(ks)) == 0
  {
    if ks != [] {
      var ks', k := ks[..|ks| - 1], ks[|ks| - 1];
      AllEventsMean(ks');
      BodyBytesConcat(AllEvents(ks'), ChunkEvents(k));
      ChunkEventsMean(k);
    }
  }

  lemma ChunkEventsMean(k: Chunk)
    ensures BodyBytes(ChunkEvents(k)) == k.data
    ensures Completions(ChunkEvents(k)) == 0
  {
    var head, tail := [ChunkHeader(|k.data|)], [ChunkComplete];
    BodyBytesConcat(head + Singles(k.data), tail);
    BodyBytesConcat(head, Singles(k.data));
    BodyBytesSingles(k.data);
    assert BodyBytes(head) == [] && BodyBytes(tail) == [];
  }

  // ----- from the end of the headers

  /** The headers so far announce a chunked body: no length beside it, and no change of protocol. */
  predicate ChunkedHeaders(c: Core) {
    && c.flags.chunked && !c.flags.contentLength && !c.flags.trailing && c.reqMethod != CONNECT
    && !(c.flags.upgrade && c.flags.connectionUpgrade)
  }

  /** `head` is the rest of the headers of a chunked message. */
  predicate BeforeChunks(c: Core, head: string) {
    && Wf(c) && c.errno == OK && c.nread + |head| <= HTTP_MAX_HEADER_SIZE
    && match c.state
       case HeaderValueLws => head == [CR, LF] && ChunkedHeaders(FinishHeader(c))
       case HeaderFieldStart => head == [CR, LF] && ChunkedHeaders(c)
       case HeadersAlmostDone => head == [LF] && ChunkedHeaders(c)
       case ChunkSizeStart => head == [] && c.nread == 0 && !c.flags.trailing
       case _ => false
  }

  lemma ChunkedLf(c: Core)
    requires Wf(c) && c.errno == OK && c.state.HeadersAlmostDone? && ChunkedHeaders(c) && c.nread < HTTP_MAX_HEADER_SIZE
    ensures Step(c, LF) == Out(c.(nread := 0, state := ChunkSizeStart), [HeadersComplete])
  {
    assert Step(c, LF) == OnHeadersAlmostDone(c.(nread := c.nread + 1), LF);
  }

  lemma ChunkedCr(c: Core)
    requires Wf(c) && c.errno == OK && (c.state.HeaderValueLws? || c.state.HeaderFieldStart?) && c.nread < HTTP_MAX_HEADER_SIZE
    ensures var c' := if c.state.HeaderValueLws? then FinishHeader(c) else c;
            Step(c, CR) == Out(c'.(nread := c.nread + 1, state := HeadersAlmostDone), [])
  {
    hide MethodName, Reguess, FirstGuess, ValueNext;
  }

  /** The headers of a chunked message end in front of its first chunk, with nothing completed. */
  lemma ChunkedHead(c: Core, head: string)
    requires BeforeChunks(c, head)
    ensures AtChunkSize(Run(c, head).core)
    ensures Run(c, head).core.line == c.line
    ensures Run(c, head).core.flags == if c.state.HeaderValueLws? then FinishHeader(c).flags else c.flags
    ensures Run(c, head).events == if head == [] then [] else [HeadersComplete]
  {
    hide Run, Step;
    if head == [] {
      RunNothing(c);
    } else if head == [LF] {
      RunOne(c, LF);
      ChunkedLf(c);
    } else {
      RunTwo(c, CR, LF);
      ChunkedCr(c);
      ChunkedLf(Step(c, CR).core);
    }
  }

  /** A length beside chunked coding is refused. */
  lemma LengthBesideChunks(c: Core)
    requires Wf(c) && c.errno == OK && c.state.HeaderValueLws? && c.header == HChunked && c.nread + 2 <= HTTP_MAX_HEADER_SIZE
    requires c.flags.contentLength && !c.flags.trailing
    ensures Run(c, [CR, LF]).core.errno == UnexpectedContentLength && Run(c, [CR, LF]).events == []
  {
    hide Run, Step;
    RunTwo(c, CR, LF);
    ChunkedCr(c);
    BothRefused(Step(c, CR).core);
  }

  lemma BothRefused(c: Core)
    requires Wf(c) && c.errno == OK && c.state.HeadersAlmostDone? && c.nread < HTTP_MAX_HEADER_SIZE
    requires c.flags.contentLength && c.flags.chunked && !c.flags.trailing
    ensures Step(c, LF).core.errno == UnexpectedContentLength && Step(c, LF).events == []
  {
    assert Step(c, LF) == OnHeadersAlmostDone(c.(nread := c.nread + 1), LF);
  }

  function ChunkedBody(ks: seq<Chunk>, last: SizeLine): string {
    Encode(ks) + (EncodeLine(last) + [CR, LF])
  }

  predicate WfChunked(ks: seq<Chunk>, last: SizeLine) {
    (forall k :: k in ks ==> WfChunk(k)) && WfLine(last, 0)
  }

  lemma Chunked(c: Core, ks: seq<Chunk>, last: SizeLine)
    requires AtChunkSize(c) && WfChunked(ks, last)
    ensures var s := ChunkedBody(ks, last);
            && Run(c, s).events == AllEvents(ks) + [ChunkHeader(0), ChunkComplete, MessageComplete]
            && Run(c, s[..|s| - 1]).events == AllEvents(ks) + [ChunkHeader(0)]
            && Idle(Run(c, s).core) && MessageEnded(c.flags, c.line, Run(c, s).core)
  {
    hide Run, Step, WfChunk, WfLine, Idle, EncodeLine, MessageEnded;
    Chunks(c, ks);
    var c1 := Run(c, Encode(ks)).core;
    LastChunk(c1, last);
    RunConcat(c, Encode(ks), EncodeLine(last) + [CR, LF]);
    RunConcat(c, Encode(ks), EncodeLine(last) + [CR]);
    var s := ChunkedBody(ks, last);
    assert s[..|s| - 1] == Encode(ks) + (EncodeLine(last) + [CR]);
  }

  /**
   * A chunked message, from the end of its headers on, decodes exactly: the run reports every chunk in
   * order, hands out the payload, and completes the message once, on the final line feed and not before.
   * Nothing that follows changes that.
   */
  lemma ChunkedRun(c: Core, head: string, ks: seq<Chunk>, last: SizeLine, tail: string)
    requires BeforeChunks(c, head) && WfChunked(ks, last)
    ensures var s := head + ChunkedBody(ks, last);
            && MessageEnded(if c.state.HeaderValueLws? then FinishHeader(c).flags else c.flags, c.line, Run(c, s).core)
            && Run(c, s).events == (if head == [] then [] else [HeadersComplete]) + AllEvents(ks)
                                   + [ChunkHeader(0), ChunkComplete, MessageComplete]
            && Completions(Run(c, s[..|s| - 1]).events) == 0
            && Idle(Run(c, s + tail).core)
            && BodyBytes(Run(c, s + tail).events) == Payload(ks)
            && Completions(Run(c, s + tail).events) == 1
  {
    hide Run, Step, WfChunked, BodyBytes, Completions, Idle, ChunkedBody, BeforeChunks, NewMessage, AllEvents, Payload;
    ChunkedHead(c, head);
    StartWf(c, head);
    var c1, b := Run(c, head).core, ChunkedBody(ks, last);
    Chunked(c1, ks, last);
    NotEmpty(ks, last);
    RunConcat(c, head, b);
    RunConcat(c, head, b[..|b| - 1]);
    var s := head + b;
    assert s[..|s| - 1] == head + b[..|b| - 1];
    ChunkedMeans(head, ks);
    var start: seq<Event> := if head == [] then [] else [HeadersComplete];
    assert start + (AllEvents(ks) + [ChunkHeader(0)]) == start + AllEvents(ks) + [ChunkHeader(0)];
    AfterMessage(c, s, tail);
  }

  lemma StartWf(c: Core, head: string)
    requires BeforeChunks(c, head)
    ensures Wf(c)
  {
  }

  lemma NotEmpty(ks: seq<Chunk>, last: SizeLine)
    ensures ChunkedBody(ks, last) != []
  {
  }

  lemma ChunkedMeans(head: string, ks: seq<Chunk>)
    ensures var es := (if head == [] then [] else [HeadersComplete]) + AllEvents(ks);
            && BodyBytes(es + [ChunkHeader(0), ChunkComplete, MessageComplete]) == Payload(ks)
            && Completions(es + [ChunkHeader(0), ChunkComplete, MessageComplete]) == 1
            && Completions(es + [ChunkHeader(0)]) == 0
  {
    hide AllEvents, Payload, BodyBytes, Completions;
    var start: seq<Event> := if head == [] then [] else [HeadersComplete];
    AllEventsMean(ks);
    BodyBytesConcat(start, AllEvents(ks));
    BodyBytesConcat(start + AllEvents(ks), [ChunkHeader(0), ChunkComplete, MessageComplete]);
    BodyBytesConcat(start + AllEvents(ks), [ChunkHeader(0)]);
    EndMeans();
  }

  lemma EndMeans()
    ensures BodyBytes([]) == [] && Completions([]) == 0
    ensures BodyBytes([HeadersComplete]) == [] && Completions([HeadersComplete]) == 0
    ensures BodyBytes([ChunkHeader(0)]) == [] && Completions([ChunkHeader(0)]) == 0
    ensures BodyBytes([ChunkHeader(0), ChunkComplete, MessageComplete]) == []
    ensures Completions([ChunkHeader(0), ChunkComplete, MessageComplete]) == 1
  {
    var e := [ChunkHeader(0), ChunkComplete, MessageComplete];
    assert e[..2] == [ChunkHeader(0), ChunkComplete] && e[..2][..1] == [ChunkHeader(0)];
    assert [ChunkHeader(0)][..0] == [] && [HeadersComplete][..0] == [];
  }

  // ----- the digits of Content-Length

  /** A digit followed by digits and spaces: the values the parser lets through. */
  predicate IsLength(s: string) {
    s != [] && IsNum(s[0]) && forall i :: 0 <= i < |s| ==> s[i] == ' ' || IsNum(s[i])
  }

  function LengthValue(s: string): nat
    requires forall i :: 0 <= i < |s| ==> s[i] == ' ' || IsNum(s[i])
  {
    if s == [] then 0
    else if s[|s| - 1] == ' ' then LengthValue(s[..|s| - 1])
    else LengthValue(s[..|s| - 1]) * 10 + Digit(s[|s| - 1])
  }

  predicate AtLengthValue(c: Core) {
    && Wf(c) && c.errno == OK && c.state.HeaderValueDiscardWs? && c.header == HContentLength
    && !c.flags.contentLength
  }

  lemma LengthFirst(c: Core, ch: char)
    requires AtLengthValue(c) && c.nread < HTTP_MAX_HEADER_SIZE && IsNum(ch)
    ensures Step(c, ch) == Out(c.(state := HeaderValue, index := 0, nread := c.nread + 1,
                                  flags := c.flags.(contentLength := true), contentLength := Digit(ch)), [])
  {
  }

  lemma LengthNext(c: Core, ch: char)
    requires Wf(c) && c.errno == OK && c.state.HeaderValue? && c.header == HContentLength
    requires c.nread + 2 <= HTTP_MAX_HEADER_SIZE && (ch == ' ' || IsNum(ch))
    ensures var v := if ch == ' ' then c.contentLength else c.contentLength * 10 + Digit(ch);
            if ch == ' ' || v <= ULLONG_MAX - 6 then Step(c, ch) == Out(c.(nread := c.nread + 2, contentLength := v), [])
            else Step(c, ch).core.errno == InvalidContentLength && Step(c, ch).events == []
  {
    var c' := c.(nread := c.nread + 1);
    assert Step(c, ch) == OnHeaderValue(c', ch);
  }

  /**
   * A Content-Length value is accepted exactly when its decimal value, spaces skipped, is at most
   * 2^64 - 7; the parser then holds that value, so it never wraps around and is never the "absent"
   * marker 2^64 - 1.
   */
  lemma {:induction false} LengthDigits(c: Core, s: string)
    requires AtLengthValue(c) && IsLength(s) && c.nread + 2 * |s| <= HTTP_MAX_HEADER_SIZE
    ensures LengthValue(s) <= ULLONG_MAX - 6 ==>
              Run(c, s) == Out(c.(state := HeaderValue, index := 0, nread := c.nread + 2 * |s| - 1,
                                  flags := c.flags.(contentLength := true), contentLength := LengthValue(s)), [])
    ensures LengthValue(s) > ULLONG_MAX - 6 ==>
              Run(c, s).core.errno == InvalidContentLength && Run(c, s).events == []
  {
    hide Step;
    var s', ch := s[..|s| - 1], s[|s| - 1];
    if s' == [] {
      LengthFirst(c, ch);
      assert Run(c, s') == Out(c, []) && LengthValue(s') == 0;
    } else {
      LengthDigits(c, s');
      if LengthValue(s') <= ULLONG_MAX - 6 { LengthNext(Run(c, s').core, ch); }
    }
  }

  lemma LengthBad(c: Core, ch: char)
    requires Wf(c) && c.errno == OK && c.header == HContentLength && (c.state.HeaderValueDiscardWs? || c.state.HeaderValue?)
    requires c.nread < HTTP_MAX_HEADER_SIZE && !IsNum(ch) && ch != ' ' && ch != CR && ch != LF
    requires c.state.HeaderValueDiscardWs? ==> ch != '\t'
    ensures Step(c, ch).core.errno == InvalidContentLength || Step(c, ch).core.errno == InvalidHeaderToken
    ensures Step(c, ch).events == []
  {
    hide MethodName, Reguess, FirstGuess;
  }

  lemma LengthBlank(c: Core, ch: char)
    requires AtLengthValue(c) && c.nread < HTTP_MAX_HEADER_SIZE && (ch == ' ' || ch == '\t')
    ensures Step(c, ch) == Out(c.(nread := c.nread + 1), [])
  {
    hide MethodName, Reguess, FirstGuess, ValueNext;
  }

  /** A second length is refused, even an equal one. */
  lemma LengthTwice(c: Core, ch: char)
    requires Wf(c) && c.errno == OK && c.state.HeaderValueDiscardWs? && c.header == HContentLength && c.flags.contentLength
    requires c.nread < HTTP_MAX_HEADER_SIZE && IsNum(ch)
    ensures Step(c, ch).core.errno == UnexpectedContentLength && Step(c, ch).events == []
  {
    hide MethodName, Reguess, FirstGuess, ValueNext;
  }

  function Unblanked(s: string): string {
    if s != [] && (s[0] == ' ' || s[0] == '\t') then Unblanked(s[1..]) else s
  }

  predicate GoodLength(u: string) {
    IsLength(u) && LengthValue(u) <= ULLONG_MAX - 6
  }

  lemma {:induction false} LengthFrom(c: Core, u: string)
    requires AtLengthValue(c) && c.nread + 2 * |u| <= HTTP_MAX_HEADER_SIZE
    requires u != [] && u[0] != ' ' && u[0] != '\t' && CR !in u && LF !in u
    ensures Run(c, u).core.errno == OK <==> GoodLength(u)
    ensures Run(c, u).events == []
  {
    hide Step, LengthValue;
    var u', ch := u[..|u| - 1], u[|u| - 1];
    if GoodLength(u) {
      LengthDigits(c, u);
    } else if u' == [] {
      if IsNum(ch) {
        LengthDigits(c, u);
      } else {
        LengthBad(c, ch);
        RunNothing(c);
      }
    } else {
      LengthFrom(c, u');
      if GoodLength(u') {
        LengthDigits(c, u');
        if IsNum(ch) || ch == ' ' { LengthDigits(c, u); } else { LengthBad(Run(c, u').core, ch); }
      }
    }
  }

  /**
   * A line is accepted as the value of Content-Length exactly if, after blanks, it is nothing yet or a
   * digit followed by digits and spaces, of value at most 2^64 - 7.
   */
  lemma {:induction false} LengthExact(c: Core, s: string)
    requires AtLengthValue(c) && c.nread + 2 * |s| <= HTTP_MAX_HEADER_SIZE && CR !in s && LF !in s
    ensures Run(c, s).core.errno == OK <==> Unblanked(s) == [] || GoodLength(Unblanked(s))
    decreases |s|
  {
    hide Step, GoodLength, Run;
    if s == [] {
      RunNothing(c);
    } else if s[0] == ' ' || s[0] == '\t' {
      assert s == [s[0]] + s[1..];
      RunConcat(c, [s[0]], s[1..]);
      RunOne(c, s[0]);
      LengthBlank(c, s[0]);
      LengthExact(c.(nread := c.nread + 1), s[1..]);
    } else {
      LengthFrom(c, s);
    }
  }

  /** The headers end here: neither chunked nor an upgrade. */
  predicate PlainBody(c: Core) {
    && !c.flags.chunked && !c.flags.trailing && c.reqMethod != CONNECT
    && !(c.flags.upgrade && c.flags.connectionUpgrade)
  }

  lemma ValueEnd(c: Core)
    requires Wf(c) && c.errno == OK && c.state.HeaderValue? && c.header == HContentLength
    requires c.nread + 2 <= HTTP_MAX_HEADER_SIZE
    ensures Run(c, [CR, LF]) == Out(c.(nread := c.nread + 2, state := HeaderValueLws), [])
  {
    hide Run, Step;
    RunTwo(c, CR, LF);
    ValueCr(c);
    ValueLf(c.(nread := c.nread + 1, state := HeaderAlmostDone));
  }

  lemma ValueCr(c: Core)
    requires Wf(c) && c.errno == OK && c.state.HeaderValue? && c.header == HContentLength
    requires c.nread < HTTP_MAX_HEADER_SIZE
    ensures Step(c, CR) == Out(c.(nread := c.nread + 1, state := HeaderAlmostDone), [])
  {
    hide MethodName, Reguess, FirstGuess, ValueNext;
  }

  lemma ValueLf(c: Core)
    requires Wf(c) && c.errno == OK && c.state.HeaderAlmostDone? && c.nread < HTTP_MAX_HEADER_SIZE
    ensures Step(c, LF) == Out(c.(nread := c.nread + 1, state := HeaderValueLws), [])
  {
    hide MethodName, Reguess, FirstGuess, ValueNext;
  }

  lemma HeadersEnd(c: Core)
    requires Wf(c) && c.errno == OK && c.state.HeaderValueLws? && c.header == HContentLength && PlainBody(c)
    requires c.nread + 2 <= HTTP_MAX_HEADER_SIZE && c.contentLength != ULLONG_MAX
    ensures var o := Run(c, [CR, LF]);
            if c.contentLength == 0
            then o == Out(c.(nread := 0, state := NewMessage(c)), [HeadersComplete, MessageComplete]) && Idle(o.core)
            else o == Out(c.(nread := 0, state := BodyIdentity), [HeadersComplete])
  {
    hide Run, Step;
    RunTwo(c, CR, LF);
    HeadersCr(c);
    HeadersEndLf(c.(nread := c.nread + 1, state := HeadersAlmostDone));
  }

  lemma HeadersCr(c: Core)
    requires Wf(c) && c.errno == OK && c.state.HeaderValueLws? && c.header == HContentLength && PlainBody(c)
    requires c.nread < HTTP_MAX_HEADER_SIZE
    ensures Step(c, CR) == Out(c.(nread := c.nread + 1, state := HeadersAlmostDone), [])
  {
    hide MethodName, Reguess, FirstGuess, ValueNext;
  }

  lemma HeadersEndLf(c: Core)
    requires Wf(c) && c.errno == OK && c.state.HeadersAlmostDone? && PlainBody(c)
    requires c.nread < HTTP_MAX_HEADER_SIZE && c.contentLength != ULLONG_MAX
    ensures if c.contentLength == 0
            then
              && Step(c, LF) == Out(c.(nread := 0, state := NewMessage(c)), [HeadersComplete, MessageComplete])
              && Idle(Step(c, LF).core)
            else Step(c, LF) == Out(c.(nread := 0, state := BodyIdentity), [HeadersComplete])
  {
    assert Step(c, LF) == OnHeadersAlmostDone(c.(nread := c.nread + 1), LF);
  }

  // ----- a body of a declared length

  lemma IdentityByte(c: Core, ch: char)
    requires Wf(c) && c.errno == OK && c.state.BodyIdentity?
    ensures c.contentLength > 1 ==> Step(c, ch) == Out(c.(contentLength := c.contentLength - 1), [Body([ch])])
    ensures c.contentLength == 1 ==>
              Step(c, ch).core.errno == OK && Step(c, ch).events == [Body([ch]), MessageComplete]
  {
    assert Step(c, ch) == OnBodyIdentity(c, ch);
  }

  lemma {:induction false} RunIdentityPart(c: Core, s: string)
    requires Wf(c) && c.errno == OK && c.state.BodyIdentity? && |s| < c.contentLength
    ensures Run(c, s) == Out(c.(contentLength := c.contentLength - |s|), Singles(s))
  {
    hide Step;
    if s != [] {
      var s', ch := s[..|s| - 1], s[|s| - 1];
      RunIdentityPart(c, s');
      IdentityByte(Run(c, s').core, ch);
      assert Singles(s) == Singles(s') + [Body([ch])];
    }
  }

  lemma RunIdentity(c: Core, s: string)
    requires Wf(c) && c.errno == OK && c.state.BodyIdentity? && |s| == c.contentLength
    ensures Run(c, s).core.errno == OK && Idle(Run(c, s).core)
    ensures Run(c, s).core == OnMessageDone(c.(contentLength := 0, state := MessageDone)).core
    ensures Run(c, s).events == Singles(s) + [MessageComplete]
  {
    hide Step;
    var s', ch := s[..|s| - 1], s[|s| - 1];
    RunIdentityPart(c, s');
    IdentityByte(Run(c, s').core, ch);
    IdentityLast(Run(c, s').core, ch);
    assert Singles(s) == Singles(s') + [Body([ch])];
  }

  lemma IdentityLast(c: Core, ch: char)
    requires Wf(c) && c.errno == OK && c.state.BodyIdentity? && c.contentLength == 1
    ensures Step(c, ch).core == OnMessageDone(c.(contentLength := 0, state := MessageDone)).core
  {
    assert Step(c, ch) == OnBodyIdentity(c, ch);
  }

  /**
   * From the value of Content-Length to the end of the body: exactly the declared number of bytes is
   * handed out, whatever follows them, and the message completes once, with the last of them.
   */
  lemma ContentLengthRun(c: Core, digits: string, body: string, tail: string)
    requires AtLengthValue(c) && PlainBody(c) && IsLength(digits)
    requires c.nread + 2 * |digits| + 4 <= HTTP_MAX_HEADER_SIZE
    requires LengthValue(digits) == |body| <= ULLONG_MAX - 6
    ensures var s := digits + [CR, LF] + [CR, LF] + body;
            && MessageEnded(c.flags, c.line, Run(c, s).core)
            && Run(c, s).events == [HeadersComplete] + Singles(body) + [MessageComplete]
            && Completions(Run(c, s[..|s| - 1]).events) == 0
            && Idle(Run(c, s + tail).core)
            && BodyBytes(Run(c, s + tail).events) == body
            && Completions(Run(c, s + tail).events) == 1
  {
    hide Run, Step, LengthValue, BodyBytes, Completions, Wf, Idle;
    BeforeLast(c, digits, body);
    LengthDigits(c, digits);
    var c1 := Run(c, digits).core;
    RunConcat(c, digits, [CR, LF]);
    ValueEnd(c1);
    var c2 := Run(c1, [CR, LF]).core;
    RunConcat(c, digits + [CR, LF], [CR, LF]);
    HeadersEnd(c2);
    var c3 := Run(c2, [CR, LF]).core;
    var head := digits + [CR, LF] + [CR, LF];
    RunConcat(c, head, body);
    if body == [] {
      RunNothing(c3);
    } else {
      RunIdentity(c3, body);
    }
    FramedMeans(body);
    AfterMessage(c, head + body, tail);
  }

  /** One byte before the end nothing has completed. */
  lemma BeforeLast(c: Core, digits: string, body: string)
    requires AtLengthValue(c) && PlainBody(c) && IsLength(digits)
    requires c.nread + 2 * |digits| + 4 <= HTTP_MAX_HEADER_SIZE
    requires LengthValue(digits) == |body| <= ULLONG_MAX - 6
    ensures var s := digits + [CR, LF] + [CR, LF] + body; Completions(Run(c, s[..|s| - 1]).events) == 0
  {
    hide Run, Step, LengthValue, BodyBytes, Completions, Wf;
    LengthDigits(c, digits);
    var c1 := Run(c, digits).core;
    RunConcat(c, digits, [CR, LF]);
    ValueEnd(c1);
    var line := digits + [CR, LF];
    var c2 := Run(c1, [CR, LF]).core;
    var head, s := line + [CR, LF], line + [CR, LF] + body;
    if body == [] {
      assert s[..|s| - 1] == line + [CR];
      RunConcat(c, line, [CR]);
      RunOne(c2, CR);
      HeadersCr(c2);
      NoCompletions("");
    } else {
      var part := body[..|body| - 1];
      assert s[..|s| - 1] == head + part;
      RunConcat(c, line, [CR, LF]);
      HeadersEnd(c2);
      RunConcat(c, head, part);
      RunIdentityPart(Run(c2, [CR, LF]).core, part);
      assert [HeadersComplete] + Singles(part) == Run(c, head + part).events;
      NoCompletions(part);
    }
  }

  lemma NoCompletions(part: string)
    ensures Completions([HeadersComplete] + Singles(part)) == 0 && Completions([]) == 0
  {
    BodyBytesConcat([HeadersComplete], Singles(part));
    BodyBytesSingles(part);
    assert [HeadersComplete][..0] == [];
  }

  lemma FramedMeans(body: string)
    ensures BodyBytes([HeadersComplete] + Singles(body) + [MessageComplete]) == body
    ensures Completions([HeadersComplete] + Singles(body) + [MessageComplete]) == 1
  {
    BodyBytesConcat([HeadersComplete] + Singles(body), [MessageComplete]);
    BodyBytesConcat([HeadersComplete], Singles(body));
    BodyBytesSingles(body);
    assert [HeadersComplete][..0] == [] && [MessageComplete][..0] == [];
  }
}
