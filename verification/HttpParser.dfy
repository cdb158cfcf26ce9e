/**
 * `http_parser_execute`: one call parses a whole buffer, reads bodies in bulk and keeps marks into
 * the buffer, yet does what the byte-at-a-time machine does, wherever the input was cut.
 */
module HttpParser {
  import opened Wrappers
  import opened HttpMachine
  import opened HttpAgree
  import opened HttpFraming
  import opened HttpMessages
  import opened HttpMethods

  // ----- slices and single bytes

  function FlatOne(e: Event): seq<Event> {
    if e.Body? then Singles(e.data) else [e]
  }

  /** The callbacks with every body slice split into its bytes. */
  function Flatten(es: seq<Event>): seq<Event> {
    if es == [] then [] else Flatten(es[..|es| - 1]) + FlatOne(es[|es| - 1])
  }

  lemma FlattenSnoc(es: seq<Event>, e: Event)
    ensures Flatten(es + [e]) == Flatten(es) + FlatOne(e)
  {
    assert (es + [e])[..|es|] == es;
  }

  lemma {:induction false} FlattenPlain(es: seq<Event>, more: seq<Event>)
    requires forall e :: e in more ==> !e.Body?
    ensures Flatten(es + more) == Flatten(es) + more
  {
    hide Flatten;
    if more == [] {
      assert es + more == es;
    } else {
      var init, e := more[..|more| - 1], more[|more| - 1];
      FlattenPlain(es, init);
      assert es + more == (es + init) + [e];
      FlattenSnoc(es + init, e);
    }
  }

  /** Splitting slices neither loses nor adds body bytes, and keeps the number of completions. */
  lemma {:induction false} FlattenMeans(es: seq<Event>)
    ensures BodyBytes(Flatten(es)) == BodyBytes(es)
    ensures Completions(Flatten(es)) == Completions(es)
  {
    if es != [] {
      var init, e := es[..|es| - 1], es[|es| - 1];
      FlattenMeans(init);
      BodyBytesConcat(Flatten(init), FlatOne(e));
      if e.Body? { BodyBytesSingles(e.data); } else { assert [e][..0] == []; }
    }
  }

  // ----- facts about runs used by the loop

  lemma RunSlice(c: Core, data: string, p: nat, q: nat)
    requires Wf(c) && p <= q <= |data|
    ensures Run(c, data[..q]).core == Run(Run(c, data[..p]).core, data[p..q]).core
    ensures Run(c, data[..q]).events == Run(c, data[..p]).events + Run(Run(c, data[..p]).core, data[p..q]).events
  {
    hide Run;
    assert data[..q] == data[..p] + data[p..q];
    RunConcat(c, data[..p], data[p..q]);
  }

  lemma {:induction false} RunBeyond(c: Core, s: string)
    requires Wf(c) && c.state.Beyond?
    ensures Run(c, s) == Out(c, [])
  {
    if s != [] { RunBeyond(c, s[..|s| - 1]); }
  }

  /** A run that stopped (in error, or beyond the model) stays where it is. */
  lemma RunStopped(c: Core, data: string, q: nat)
    requires Wf(c) && q <= |data|
    requires Run(c, data[..q]).core.errno != OK || Run(c, data[..q]).core.state.Beyond?
    ensures Run(c, data) == Run(c, data[..q])
  {
    hide Run, Wf;
    RunSlice(c, data, q, |data|);
    assert data[..|data|] == data;
    var m := Run(c, data[..q]).core;
    if m.errno != OK { RunError(m, data[q..|data|]); } else { RunBeyond(m, data[q..|data|]); }
  }

  /** One more byte of a Content-Length value that has not ended within `data[start..p]`. */
  lemma ValueByte(b: Core, data: string, start: nat, p: nat, length: nat)
    requires start <= p < |data| && Wf(b) && b.errno == OK && b.state.HeaderValue? && b.header == HContentLength
    requires Run(b, data[start..p]) == Out(b.(contentLength := length, nread := b.nread + 2 * (p - start)), [])
    ensures var o := Run(b, data[start..p + 1]);
            var m := b.(contentLength := length, nread := b.nread + 2 * (p - start) + 1);
            var (e, next) := ValueNext(b.line.lenient, length, data[p]);
            && o.events == []
            && (o.core.errno != HeaderOverflow ==>
                  && m.nread <= HTTP_MAX_HEADER_SIZE
                  && o.core == if data[p] == CR then m.(state := HeaderAlmostDone)
                               else if data[p] == LF then m.(state := HeaderValueLws)
                               else if e != OK then m.(errno := e)
                               else m.(contentLength := next, nread := m.nread + 1))
            && (o.core.errno != HeaderOverflow && e == OK && data[p] != CR && data[p] != LF ==>
                  m.nread + 1 <= HTTP_MAX_HEADER_SIZE)
  {
    hide Run, Step, ValueNext, Wf;
    assert data[start..p + 1] == data[start..p] + [data[p]];
    RunSnoc(b, data[start..p], data[p]);
    StepValue(b.(contentLength := length, nread := b.nread + 2 * (p - start)), data[p]);
  }

  lemma StepValue(c: Core, ch: char)
    requires Wf(c) && c.errno == OK && c.state.HeaderValue? && c.header == HContentLength
    ensures var o := Step(c, ch);
            var m := c.(nread := c.nread + 1);
            var (e, next) := ValueNext(c.line.lenient, c.contentLength, ch);
            && o.events == []
            && (o.core.errno != HeaderOverflow ==>
                  && m.nread <= HTTP_MAX_HEADER_SIZE
                  && o.core == if ch == CR then m.(state := HeaderAlmostDone)
                               else if ch == LF then m.(state := HeaderValueLws)
                               else if e != OK then m.(errno := e)
                               else m.(contentLength := next, nread := m.nread + 1))
            && (o.core.errno != HeaderOverflow && e == OK && ch != CR && ch != LF ==>
                  m.nread + 1 <= HTTP_MAX_HEADER_SIZE)
  {
    var m := c.(nread := c.nread + 1);
    assert m.nread <= HTTP_MAX_HEADER_SIZE ==> Step(c, ch) == OnHeaderValue(m, ch);
    hide ValueNext, Wf, Step;
  }

  lemma ValueOver(b: Core, data: string, start: nat, p: nat)
    requires start <= p < |data| && Wf(b) && Run(b, data[start..p]).core.errno != OK
    ensures Run(b, data[start..p + 1]).core == Run(b, data[start..p]).core
  {
    hide Run, Step;
    assert data[start..p + 1] == data[start..p] + [data[p]];
    RunSnoc(b, data[start..p], data[p]);
  }

  /** What byte-at-a-time reading has come to inside a value, if it has not overflowed. */
  ghost predicate Inside(b: Core, data: string, start: nat, p: nat, length: nat) {
    && start <= p <= |data| && Wf(b)
    && var o := Run(b, data[start..p]);
       o.core.errno != HeaderOverflow ==>
         && o == Out(b.(contentLength := length, nread := b.nread + 2 * (p - start)), [])
         && (p > start ==> o.core.nread <= HTTP_MAX_HEADER_SIZE)
  }

  /** The parser `c` has come to the same, with a smaller count. */
  ghost predicate Ended(b: Core, data: string, start: nat, q: nat, c: Core) {
    && start <= q <= |data| && Wf(b)
    && var o := Run(b, data[start..q]);
       o.core.errno != HeaderOverflow ==> Agree(c, o.core) && o.events == []
  }

  predicate InValue(b: Core) {
    Wf(b) && b.errno == OK && b.state.HeaderValue? && b.header == HContentLength
  }

  lemma InsideStart(b: Core, data: string, start: nat)
    requires InValue(b) && start <= |data|
    ensures Inside(b, data, start, start, b.contentLength)
  {
    hide Run;
    RunNothing(b);
    assert data[start..start] == [];
  }

  lemma InsideByte(b: Core, data: string, start: nat, p: nat, length: nat)
    requires InValue(b) && p < |data| && Inside(b, data, start, p, length)
    ensures !Failed(Run(b, data[start..p]).core)
    ensures data[p] != CR && data[p] != LF && ValueNext(b.line.lenient, length, data[p]).0 == OK ==>
              Inside(b, data, start, p + 1, ValueNext(b.line.lenient, length, data[p]).1)
  {
    hide Run, ValueNext;
    if Run(b, data[start..p]).core.errno == HeaderOverflow {
      ValueOver(b, data, start, p);
    } else {
      ValueByte(b, data, start, p, length);
    }
  }

  lemma InsideEnd(b: Core, data: string, start: nat, p: nat, q: nat, length: nat, n: nat)
    requires InValue(b) && p < |data| && q == p + 1 && Inside(b, data, start, p, length) && n <= b.nread + 1 + (p - start)
    ensures data[p] == CR || data[p] == LF ==>
              var c := b.(contentLength := length, nread := n,
                          state := if data[p] == CR then HeaderAlmostDone else HeaderValueLws);
              if n <= HTTP_MAX_HEADER_SIZE then Ended(b, data, start, q, c) else forall c' :: Ended(b, data, start, q, c')
  {
    hide Run, ValueNext;
    if Run(b, data[start..p]).core.errno == HeaderOverflow {
      ValueOver(b, data, start, p);
    } else {
      ValueByte(b, data, start, p, length);
    }
  }

  lemma ErrorEnd(b: Core, data: string, start: nat, p: nat, length: nat, n: nat)
    requires InValue(b) && p < |data| && Inside(b, data, start, p, length) && n <= b.nread + 1
    requires length <= ULLONG_MAX
    ensures var (e, next) := ValueNext(b.line.lenient, length, data[p]);
            data[p] != CR && data[p] != LF && e != OK ==>
              Ended(b, data, start, p + 1, b.(contentLength := next, nread := n, errno := e))
  {
    hide Run;
    if Run(b, data[start..p]).core.errno == HeaderOverflow {
      ValueOver(b, data, start, p);
    } else {
      ValueByte(b, data, start, p, length);
    }
  }

  lemma ValueCut(b: Core, data: string, start: nat, q: nat, length: nat, n: nat)
    requires InValue(b) && start < |data| == q && Inside(b, data, start, q, length) && n <= b.nread + 1 + (q - start)
    ensures if n <= HTTP_MAX_HEADER_SIZE then Ended(b, data, start, q, b.(contentLength := length, nread := n))
            else forall c :: Ended(b, data, start, q, c)
  {
    hide Run;
  }

  /** Stopped by an error other than the header count. */
  predicate Failed(c: Core) {
    c.errno != OK && c.errno != HeaderOverflow
  }

  // ----- following the byte-at-a-time machine

  /** The body slice from the mark to `p`, byte by byte. */
  function Pending(data: string, mark: int, p: nat): seq<Event>
    requires mark == -1 || 0 <= mark <= p <= |data|
  {
    if mark == -1 then [] else Singles(data[mark..p])
  }

  /**
   * After `data[..p]` of this call, the parser `c` that started as `c0` is where the machine is, and
   * `flat` is what it has reported; unless the machine overflowed its header count.
   */
  ghost predicate Tracked(c0: Core, past: seq<Event>, data: string, p: nat, c: Core, flat: seq<Event>) {
    && Wf(c0) && p <= |data|
    && (Run(c0, data[..p]).core.errno != HeaderOverflow ==>
          Agree(c, Run(c0, data[..p]).core) && flat == past + Run(c0, data[..p]).events)
  }

  lemma TrackedStart(c0: Core, past: seq<Event>, data: string)
    requires Wf(c0)
    ensures Tracked(c0, past, data, 0, c0, past + [])
  {
    hide Run;
    RunNothing(c0);
    assert data[..0] == [];
  }

  lemma Advance(c0: Core, past: seq<Event>, data: string, p: nat, q: nat, c: Core, flat: seq<Event>)
    requires Tracked(c0, past, data, p, c, flat) && Wf(c) && p <= q <= |data|
    ensures Tracked(c0, past, data, q, Run(c, data[p..q]).core, flat + Run(c, data[p..q]).events)
  {
    hide Run, Wf;
    var b := Run(c0, data[..p]);
    RunSlice(c0, data, p, q);
    if Run(c0, data[..q]).core.errno != HeaderOverflow {
      if b.core.errno == HeaderOverflow { RunError(b.core, data[p..q]); }
      RunAgree(c, b.core, data[p..q]);
    }
  }

  lemma Stop(c0: Core, past: seq<Event>, data: string, q: nat, c: Core, flat: seq<Event>)
    requires Tracked(c0, past, data, q, c, flat) && (c.errno != OK || c.state.Beyond?)
    ensures Tracked(c0, past, data, |data|, c, flat)
  {
    hide Run, Wf;
    assert data[..|data|] == data;
    RunStopped(c0, data, q);
  }

  /** The byte at `n` is the first one in error (if one byte per call does not overflow the count). */
  ghost predicate FailsAt(c0: Core, data: string, n: nat) {
    && Wf(c0) && n < |data|
    && !Failed(Run(c0, data[..n]).core)
    && (Run(c0, data).core.errno != HeaderOverflow ==> Failed(Run(c0, data[..n + 1]).core))
  }

  lemma FailsHere(c0: Core, past: seq<Event>, data: string, n: nat, c: Core, flat: seq<Event>)
    requires n < |data| && Tracked(c0, past, data, n + 1, c, flat) && Failed(c) && !Failed(Run(c0, data[..n]).core)
    ensures FailsAt(c0, data, n)
  {
    hide Run, Wf;
    if Run(c0, data[..n + 1]).core.errno == HeaderOverflow { RunStopped(c0, data, n + 1); }
  }

  lemma TrackedErrno(c0: Core, past: seq<Event>, data: string, p: nat, c: Core, flat: seq<Event>)
    requires Tracked(c0, past, data, p, c, flat) && !Failed(c)
    ensures !Failed(Run(c0, data[..p]).core)
  {
    hide Run, Wf;
  }

  lemma BulkChunk(c: Core, s: string)
    requires Wf(c) && c.errno == OK && c.state.ChunkData? && |s| <= c.contentLength
    ensures Run(c, s).events == Singles(s)
    ensures Run(c, s).core == c.(contentLength := c.contentLength - |s|,
                                 state := if |s| == c.contentLength then ChunkDataAlmostDone else ChunkData)
  {
    hide Run;
    RunChunkData(c, s);
  }

  lemma BulkIdentity(c: Core, s: string)
    requires Wf(c) && c.errno == OK && c.state.BodyIdentity? && |s| <= c.contentLength
    ensures c.contentLength > 0
    ensures |s| < c.contentLength ==> Run(c, s) == Out(c.(contentLength := c.contentLength - |s|), Singles(s))
    ensures |s| == c.contentLength ==>
              && Run(c, s).core == OnMessageDone(c.(contentLength := 0, state := MessageDone)).core
              && Run(c, s).events == Singles(s) + [MessageComplete]
              && Wf(c.(contentLength := 0, state := MessageDone))
  {
    hide Run;
    if |s| < c.contentLength { RunIdentityPart(c, s); } else { RunIdentity(c, s); }
  }

  lemma StepOverflow(c: Core, ch: char)
    requires Wf(c) && c.errno == OK && ParsingHeader(c.state) && c.nread + 1 > HTTP_MAX_HEADER_SIZE
    ensures Step(c, ch).core.errno == HeaderOverflow
  {
  }

  /**
   * No body bytes reported, nothing reported in error, not left waiting for the end of a chunk, and
   * chunk data entered only with a report.
   */
  predicate Plain(o: Out) {
    && (forall e :: e in o.events ==> !e.Body?)
    && (o.core.errno != OK ==> o.events == [])
    && !o.core.state.ChunkDataAlmostDone?
    && (o.core.state.ChunkData? ==> o.events != [])
  }

  predicate PlainStart(c: Core) {
    c.errno == OK && !c.state.ChunkDataAlmostDone? && !c.state.ChunkData?
  }

  lemma HeadersPlain(c: Core, ch: char)
    requires PlainStart(c)
    ensures Plain(OnHeadersDone(c, ch)) && Plain(OnMessageDone(c)) && Plain(OnHeadersAlmostDone(c, ch))
  {
  }

  lemma FieldStartPlain(c: Core, ch: char)
    requires PlainStart(c)
    ensures Plain(OnHeaderFieldStart(c, ch))
    ensures Plain(OnHeaderValueStart(c, ch))
  {
    hide OnHeadersAlmostDone;
    HeadersPlain(c.(state := HeadersAlmostDone), ch);
  }

  lemma LwsPlain(c: Core, ch: char)
    requires PlainStart(c)
    ensures Plain(OnHeaderValueLws(c, ch)) && Plain(OnHeaderValueDiscardLws(c, ch)) && Plain(OnHeaderValueDiscardWs(c, ch))
  {
    hide OnHeaderFieldStart, OnHeaderValueStart, Plain;
    FieldStartPlain(FinishHeader(c).(state := HeaderFieldStart), ch);
    FieldStartPlain(c.(state := HeaderValueStart), ch);
    FieldStartPlain(c, ch);
    QuietPlain(c);
  }

  lemma QuietPlain(c: Core)
    ensures !c.state.ChunkDataAlmostDone? && !c.state.ChunkData? ==> Plain(Out(c, []))
    ensures Plain(Goto(c, HeaderValueDiscardWsAlmostDone)) && Plain(Goto(c, HeaderValueDiscardLws))
    ensures Plain(Goto(c, HeaderValueDiscardWs))
  {
  }

  lemma MethodPlain(c: Core, ch: char)
    requires PlainStart(c)
    ensures Plain(OnStartReq(c, ch)) && Plain(OnReqMethod(c, ch))
  {
    hide MethodName, FirstGuess, Reguess;
  }

  lemma ChunkPlain(c: Core, ch: char)
    requires PlainStart(c)
    ensures Plain(OnChunkSizeStart(c, ch)) && Plain(OnChunkSize(c, ch)) && Plain(OnChunkSizeAlmostDone(c, ch))
    ensures Plain(OnChunkDataDone(c, ch))
  {
  }

  lemma DispatchPlain(c: Core, ch: char)
    requires Wf(c) && c.errno == OK && OneByteState(c.state, c.header)
    ensures Plain(Dispatch(c, ch))
  {
    hide OnHeadersDone, OnMessageDone, OnHeadersAlmostDone, OnHeaderFieldStart, OnHeaderValueStart,
         OnHeaderValueLws, OnHeaderValueDiscardWs, OnHeaderValueDiscardLws, OnStartReq,
         OnReqMethod, OnChunkSizeStart, OnChunkSize, OnChunkSizeAlmostDone, OnChunkDataDone, Wf, MethodName;
    match c.state
    case HeadersDone => HeadersPlain(c, ch);
    case MessageDone => HeadersPlain(c, ch);
    case HeadersAlmostDone => HeadersPlain(c, ch);
    case HeaderFieldStart => FieldStartPlain(c, ch);
    case HeaderValueStart => FieldStartPlain(c, ch);
    case HeaderValueLws => LwsPlain(c, ch);
    case HeaderValueDiscardLws => LwsPlain(c, ch);
    case HeaderValueDiscardWs => LwsPlain(c, ch);
    case StartReq => MethodPlain(c, ch);
    case ReqMethod => MethodPlain(c, ch);
    case ChunkSizeStart => ChunkPlain(c, ch);
    case ChunkSize => ChunkPlain(c, ch);
    case ChunkSizeAlmostDone => ChunkPlain(c, ch);
    case ChunkDataDone => ChunkPlain(c, ch);
    case _ =>
  }

  lemma StepPlain(c: Core, ch: char)
    requires Wf(c) && c.errno == OK && OneByteState(c.state, c.header)
    ensures Plain(Step(c, ch))
  {
    hide Dispatch;
    DispatchPlain(c, ch);
    DispatchPlain(c.(nread := c.nread + 1), ch);
  }

  // ----- a whole input, cut anywhere

  function Concat(pieces: seq<string>): string {
    if pieces == [] then [] else Concat(pieces[..|pieces| - 1]) + pieces[|pieces| - 1]
  }

  /**
   * After the input `s`, cut into calls in some way, the parser `c` that started as `c0` is where one
   * byte per call leads, and has reported the same but for the body bytes `lost`.
   */
  ghost predicate Follows(c0: Core, past: seq<Event>, s: string, c: Core, flat: seq<Event>, lost: string) {
    && Wf(c0)
    && (c.errno == OK ==> lost == "")
    && (Run(c0, s).core.errno != HeaderOverflow ==>
          Agree(c, Run(c0, s).core) && flat + Singles(lost) == past + Run(c0, s).events)
  }

  lemma FollowsStart(c0: Core, past: seq<Event>)
    requires Wf(c0)
    ensures Follows(c0, past, [], c0, past, "")
  {
    hide Run;
    RunNothing(c0);
    assert past + [] == past;
  }

  lemma FollowsError(c0: Core, past: seq<Event>, s: string, t: string, c: Core, flat: seq<Event>, lost: string)
    requires Follows(c0, past, s, c, flat, lost) && c.errno != OK
    ensures Follows(c0, past, s + t, c, flat, lost)
  {
    hide Run, Wf, Singles;
    RunConcat(c0, s, t);
    var m := Run(c0, s).core;
    if m.errno != OK {
      RunError(m, t);
      assert Run(c0, s).events + [] == Run(c0, s).events;
    }
  }

  lemma FollowsCall(c0: Core, past: seq<Event>, s: string, t: string, c: Core, flat: seq<Event>,
                    c': Core, flat': seq<Event>, lost: string)
    requires Follows(c0, past, s, c, flat, "") && Wf(c) && c.errno == OK
    requires Tracked(c, flat, t, |t|, c', flat' + Singles(lost)) && (c'.errno == OK ==> lost == [])
    ensures Follows(c0, past, s + t, c', flat', lost)
  {
    hide Run, Wf;
    RunConcat(c0, s, t);
    var m := Run(c0, s).core;
    if Run(c0, s + t).core.errno != HeaderOverflow {
      if m.errno == HeaderOverflow { RunError(m, t); }
      RunAgree(c, m, t);
      assert t[..|t|] == t;
      assert flat + Singles("") == flat;
    }
  }

  // ----- which bytes are lost, read off the input and the cut

  /** The body bytes reported last, with nothing reported after them. */
  function BodyTail(es: seq<Event>): nat {
    if es == [] || !es[|es| - 1].Body? then 0 else 1 + BodyTail(es[..|es| - 1])
  }

  lemma {:induction false} BodyTailSingles(es: seq<Event>, w: string)
    ensures BodyTail(es + Singles(w)) == BodyTail(es) + |w|
  {
    if w == [] {
      assert es + Singles(w) == es;
    } else {
      var w' := w[..|w| - 1];
      BodyTailSingles(es, w');
      assert Singles(w)[..|w| - 1] == Singles(w');
      assert (es + Singles(w))[..|es + Singles(w)| - 1] == es + Singles(w');
    }
  }

  /** The byte in error. */
  ghost function ErrorAt(c0: Core, s: string): (e: nat)
    requires Wf(c0) && c0.errno == OK && Run(c0, s).core.errno != OK
    ensures e < |s|
  {
    if Run(c0, s[..|s| - 1]).core.errno != OK then ErrorAt(c0, s[..|s| - 1]) else |s| - 1
  }

  lemma {:induction false} ErrorAtMeans(c0: Core, s: string)
    requires Wf(c0) && c0.errno == OK && Run(c0, s).core.errno != OK
    ensures var e := ErrorAt(c0, s); Run(c0, s[..e]).core.errno == OK && Run(c0, s[..e + 1]).core.errno != OK
  {
    hide Run, Wf;
    RunNothing(c0);
    assert s[..|s|] == s;
    var s' := s[..|s| - 1];
    if Run(c0, s').core.errno != OK {
      ErrorAtMeans(c0, s');
      var e := ErrorAt(c0, s');
      assert s'[..e] == s[..e] && s'[..e + 1] == s[..e + 1];
    }
  }

  lemma ErrorAtIs(c0: Core, s: string, e: nat)
    requires Wf(c0) && c0.errno == OK && e < |s|
    requires Run(c0, s[..e]).core.errno == OK && Run(c0, s[..e + 1]).core.errno != OK
    ensures Run(c0, s).core == Run(c0, s[..e + 1]).core && Run(c0, s).core.errno != OK && ErrorAt(c0, s) == e
  {
    hide Run, Wf, ErrorAt;
    RunStopped(c0, s, e + 1);
    ErrorAtMeans(c0, s);
    var f := ErrorAt(c0, s);
    if f < e {
      assert s[..e][..f + 1] == s[..f + 1] && s[..e][..e] == s[..e];
      RunStopped(c0, s[..e], f + 1);
    } else if e < f {
      assert s[..f][..e + 1] == s[..e + 1];
      RunStopped(c0, s[..f], e + 1);
    }
  }

  /** Where the piece that holds byte `e` begins. */
  function PieceStart(pieces: seq<string>, e: nat): (b: nat)
    requires e < |Concat(pieces)|
    ensures b <= e
  {
    var init := pieces[..|pieces| - 1];
    if e >= |Concat(init)| then |Concat(init)| else PieceStart(init, e)
  }

  /**
   * What a cut loses. Bytes are lost exactly if the input breaks off the end of a chunk and the byte
   * before the offending one is in the same piece; they are the chunk data reported since that piece
   * began, up to the offending byte.
   */
  ghost predicate Loses(c0: Core, pieces: seq<string>, lost: string)
    requires Wf(c0) && c0.errno == OK
  {
    var s := Concat(pieces);
    var r := Run(c0, s).core;
    if r.errno == OK || !r.state.ChunkDataAlmostDone? then lost == ""
    else
      var e := ErrorAt(c0, s);
      var b := PieceStart(pieces, e);
      && r.errno == Strict
      && (lost != "" <==> b < e)
      && |lost| <= e && lost == s[e - |lost|..e]
      && |lost| == BodyTail(Run(Run(c0, s[..b]).core, s[b..e]).events)
  }

  /** The mark of a call covers the body bytes reported last. */
  ghost predicate Marked(c0: Core, data: string, p: nat, mark: int, state: State) {
    && Wf(c0) && p <= |data|
    && (Run(c0, data[..p]).core.errno != HeaderOverflow ==>
          var tail := BodyTail(Run(c0, data[..p]).events);
          && (state.ChunkData? && p < |data| ==> tail == 0)
          && (state.ChunkDataAlmostDone? ==> tail == if mark >= 0 then p - mark else 0))
  }

  lemma MarkedStart(c0: Core, data: string, state: State)
    requires Wf(c0)
    ensures Marked(c0, data, 0, -1, state)
  {
    hide Run;
    RunNothing(c0);
    assert data[..0] == [];
  }

  lemma MarkedRead(c0: Core, past: seq<Event>, data: string, p: nat, q: nat, c: Core, flat: seq<Event>, state: State)
    requires Tracked(c0, past, data, p, c, flat) && Marked(c0, data, p, -1, c.state)
    requires c.state.ChunkData? && c.errno == OK && Wf(c) && p < q <= |data| && q - p <= c.contentLength
    requires !state.ChunkData? || q == |data|
    ensures Marked(c0, data, q, p, state)
  {
    hide Run, BodyTail, Singles;
    var b := Run(c0, data[..p]);
    RunSlice(c0, data, p, q);
    if Run(c0, data[..q]).core.errno != HeaderOverflow {
      if b.core.errno == HeaderOverflow { RunError(b.core, data[p..q]); }
      BulkChunk(b.core, data[p..q]);
      BodyTailSingles(b.events, data[p..q]);
    }
  }

  lemma MarkedNothing(c0: Core, data: string, p: nat, mark: int, state: State)
    requires Wf(c0) && p <= |data| && !state.ChunkDataAlmostDone? && !(state.ChunkData? && p < |data|)
    ensures Marked(c0, data, p, mark, state)
  {
  }

  /** The last `k` reports before byte `n` are body bytes, and no more (if the count does not overflow). */
  ghost predicate LastBody(c0: Core, data: string, n: nat, k: nat) {
    && Wf(c0) && n <= |data|
    && (Run(c0, data).core.errno != HeaderOverflow ==> k == BodyTail(Run(c0, data[..n]).events))
  }

  lemma MarkedLast(c0: Core, data: string, p: nat, mark: int, state: State)
    requires Marked(c0, data, p, mark, state) && mark <= p
    ensures state.ChunkDataAlmostDone? ==> LastBody(c0, data, p, if mark >= 0 then p - mark else 0)
  {
    hide Run, BodyTail;
    if Run(c0, data[..p]).core.errno == HeaderOverflow { RunStopped(c0, data, p); }
  }

  /** Chunk data is entered with the chunk's header reported last. */
  lemma EntersData(c: Core, ch: char)
    requires Wf(c) && c.errno == OK && (OneByteState(c.state, c.header) || c.state.ChunkDataAlmostDone?)
    ensures var o := Step(c, ch);
            o.core.state.ChunkData? ==> o.events != [] && !o.events[|o.events| - 1].Body?
  {
    hide Step;
    if c.state.ChunkDataAlmostDone? {
      AfterChunk(c, ch);
    } else {
      StepPlain(c, ch);
    }
  }

  lemma MarkedStep(c0: Core, past: seq<Event>, data: string, p: nat, c: Core, flat: seq<Event>, state: State)
    requires Tracked(c0, past, data, p, c, flat) && p < |data| && c.errno == OK && Wf(c)
    requires OneByteState(c.state, c.header) || c.state.ChunkDataAlmostDone?
    requires state == Step(c, data[p]).core.state && !state.ChunkDataAlmostDone?
    ensures Marked(c0, data, p + 1, -1, state)
  {
    hide Run, Step, OneByteState;
    var b := Run(c0, data[..p]);
    assert data[..p + 1] == data[..p] + [data[p]];
    RunSnoc(c0, data[..p], data[p]);
    if Run(c0, data[..p + 1]).core.errno != HeaderOverflow && b.core.errno != HeaderOverflow {
      StepAgree(c, b.core, data[p]);
      EntersData(b.core, data[p]);
      var es := Step(b.core, data[p]).events;
      assert es != [] ==> (b.events + es)[|b.events + es| - 1] == es[|es| - 1];
    }
  }

  lemma ConcatSnoc(init: seq<string>, t: string)
    ensures Concat(init + [t]) == Concat(init) + t
    ensures forall e :: |Concat(init)| <= e < |Concat(init + [t])| ==> PieceStart(init + [t], e) == |Concat(init)|
    ensures forall e :: 0 <= e < |Concat(init)| ==> PieceStart(init + [t], e) == PieceStart(init, e)
  {
    assert (init + [t])[..|init|] == init;
  }

  lemma LosesStart(c0: Core)
    requires Wf(c0) && c0.errno == OK
    ensures Loses(c0, [], "")
  {
  }

  lemma LosesError(c0: Core, past: seq<Event>, init: seq<string>, t: string, c: Core, flat: seq<Event>, lost: string)
    requires Follows(c0, past, Concat(init), c, flat, lost) && c.errno != OK && c0.errno == OK
    requires Run(c0, Concat(init)).core.errno != HeaderOverflow ==> Loses(c0, init, lost)
    ensures Run(c0, Concat(init + [t])).core.errno != HeaderOverflow ==> Loses(c0, init + [t], lost)
  {
    hide Run, Wf, Singles, Concat, PieceStart, ErrorAt, BodyTail;
    var s, m := Concat(init), Run(c0, Concat(init)).core;
    ConcatSnoc(init, t);
    RunConcat(c0, s, t);
    if m.errno == HeaderOverflow {
      RunError(m, t);
    } else {
      RunError(m, t);
      ErrorAtMeans(c0, s);
      var e := ErrorAt(c0, s);
      var s' := s + t;
      assert s'[..e] == s[..e] && s'[..e + 1] == s[..e + 1];
      ErrorAtIs(c0, s', e);
      var b := PieceStart(init, e);
      assert s'[..b] == s[..b] && s'[b..e] == s[b..e];
      if |lost| <= e {
        assert s'[e - |lost|..e] == s[e - |lost|..e];
      }
    }
  }

  lemma StrictAt(c: Core, ch: char)
    requires Wf(c) && c.errno == OK && Step(c, ch).core.errno != OK && Step(c, ch).core.state.ChunkDataAlmostDone?
    ensures Step(c, ch).core.errno == Strict
  {
    if OneByteState(c.state, c.header) {
      hide Step;
      StepPlain(c, ch);
    } else if c.state.ChunkDataAlmostDone? {
      hide Step;
      AfterChunk(c, ch);
    } else {
      hide OnHeaderFieldStart, OnHeadersAlmostDone, OnStartReq, OnReqMethod, OnChunkSize, ValueNext, MethodName;
    }
  }

  lemma LosesCall(c0: Core, past: seq<Event>, init: seq<string>, t: string, c: Core, flat: seq<Event>,
                  c': Core, flat': seq<Event>, n: nat, lost: string)
    requires Follows(c0, past, Concat(init), c, flat, "") && Wf(c) && c.errno == OK && c0.errno == OK
    requires Follows(c0, past, Concat(init) + t, c', flat', lost)
    requires Failed(c') ==> FailsAt(c, t, n)
    requires lost != [] <==> c'.errno != OK && c'.state.ChunkDataAlmostDone? && n > 0
    requires |lost| <= n <= |t| && lost == t[n - |lost|..n]
    requires c'.errno != OK && c'.state.ChunkDataAlmostDone? ==> LastBody(c, t, n, |lost|)
    ensures Run(c0, Concat(init + [t])).core.errno != HeaderOverflow ==> Loses(c0, init + [t], lost)
  {
    hide Run, Wf, Singles, Concat, PieceStart, ErrorAt, BodyTail;
    var s, s', b, e := Concat(init), Concat(init) + t, |Concat(init)|, |Concat(init)| + n;
    ConcatSnoc(init, t);
    RunConcat(c0, s, t);
    var m, r := Run(c0, s).core, Run(c0, s').core;
    if r.errno != HeaderOverflow && r.errno != OK && r.state.ChunkDataAlmostDone? {
      if m.errno == HeaderOverflow { RunError(m, t); }
      RunAgree(c, m, t);
      RunAt(c0, s, t, c, m, n);
      RunAt(c0, s, t, c, m, n + 1);
      ErrorAtIs(c0, s', e);
      assert s'[..b] == s && s'[b..e] == t[..n] && s'[e - |lost|..e] == lost;
      assert s'[..e + 1] == s'[..e] + [s'[e]];
      RunSnoc(c0, s'[..e], s'[e]);
      StrictAt(Run(c0, s'[..e]).core, s'[e]);
    }
  }

  /** Inside the piece the call's own start and the whole run's agree. */
  lemma RunAt(c0: Core, s: string, t: string, c: Core, m: Core, n: nat)
    requires Wf(c0) && Wf(c) && m == Run(c0, s).core && Agree(c, m) && n <= |t| && Run(m, t).core.errno != HeaderOverflow
    ensures Run(c0, (s + t)[..|s| + n]).core == Run(m, t[..n]).core
    ensures SameOut(Run(c, t[..n]), Run(m, t[..n])) && Run(m, t[..n]).core.errno != HeaderOverflow
  {
    hide Run, Wf, Agree, SameOut;
    assert (s + t)[..|s| + n] == s + t[..n];
    RunConcat(c0, s, t[..n]);
    WithoutOverflow(m, t, n);
    RunAgree(c, m, t[..n]);
  }

  lemma WithoutOverflow(c: Core, s: string, n: nat)
    requires Wf(c) && n <= |s| && Run(c, s).core.errno != HeaderOverflow
    ensures Run(c, s[..n]).core.errno != HeaderOverflow
  {
    hide Run, Wf;
    if Run(c, s[..n]).core.errno == HeaderOverflow { RunStopped(c, s, n); }
  }

  // ----- the parser object

  class Parser {
    var line: Line
    var state: State
    var header: HeaderState
    var flags: Flags
    var nread: nat
    var contentLength: nat
    var reqMethod: Method
    var index: nat
    var errno: Errno
    var events: seq<Event>  // the callbacks made so far

    ghost function View(): Core
      reads this
    {
      Core(line, state, header, flags, nread, contentLength, reqMethod, index, errno)
    }

    /** `http_parser_init` for requests. */
    constructor ()
      ensures View() == Core(Line(Request, 0, 0, 0, false), StartReq, HGeneral, NO_FLAGS, 0, 0, DELETE, 0, OK)
      ensures events == [] && Wf(View())
    {
      line := Line(Request, 0, 0, 0, false);
      state, header, flags, nread, contentLength := StartReq, HGeneral, NO_FLAGS, 0, 0;
      reqMethod, index, errno, events := DELETE, 0, OK, [];
    }

    predicate NeedsEofNow()
      reads this
      ensures NeedsEofNow() == NeedsEof(View())
    {
      line.kind == Response
      && line.statusCode / 100 != 1 && line.statusCode != 204 && line.statusCode != 304
      && !flags.chunked && contentLength == ULLONG_MAX
    }

    method DoMessageDone()
      requires Wf(View()) && errno == OK
      modifies this`state, this`events
      ensures View() == OnMessageDone(old(View())).core
      ensures events == old(events) + OnMessageDone(old(View())).events
    {
      var keepAlive := (if line.httpMajor > 0 && line.httpMinor > 0 then !flags.close else flags.keepAlive)
                       && !NeedsEofNow();
      state := if !keepAlive then Dead else if line.kind == Request then StartReq else StartRes;
      events := events + [MessageComplete];
    }

    method DoHeadersDone(ch: char)
      requires Wf(View()) && errno == OK && state.HeadersDone?
      modifies this
      ensures View() == OnHeadersDone(old(View()), ch).core
      ensures events == old(events) + OnHeadersDone(old(View()), ch).events
    {
      if ch != LF {
        errno := Strict;
        return;
      }
      nread := 0;
      if flags.chunked {
        state := ChunkSizeStart;
      } else if contentLength == 0 {
        DoMessageDone();
      } else if contentLength != ULLONG_MAX {
        state := BodyIdentity;
      } else if !NeedsEofNow() {
        DoMessageDone();
      } else {
        state := BodyIdentityEof;
      }
    }

    method DoHeadersAlmostDone(ch: char)
      requires Wf(View()) && errno == OK && state.HeadersAlmostDone?
      modifies this
      ensures View() == OnHeadersAlmostDone(old(View()), ch).core
      ensures events == old(events) + OnHeadersAlmostDone(old(View()), ch).events
    {
      hide OnHeadersDone, OnMessageDone;
      if ch != LF {
        errno := Strict;
        return;
      }
      if flags.trailing {
        // The trailer of a chunked body ends here
        events := events + [ChunkComplete];
        DoMessageDone();
        return;
      }
      if flags.chunked && flags.contentLength {
        errno := UnexpectedContentLength;
        return;
      }
      if (flags.upgrade && flags.connectionUpgrade) || reqMethod == CONNECT {
        state := Beyond;
        return;
      }
      state := HeadersDone;
      events := events + [HeadersComplete];
      DoHeadersDone(ch);
    }

    method DoHeaderFieldStart(ch: char)
      requires Wf(View()) && errno == OK && state.HeaderFieldStart?
      modifies this
      ensures View() == OnHeaderFieldStart(old(View()), ch).core
      ensures events == old(events) + OnHeaderFieldStart(old(View()), ch).events
    {
      hide OnHeadersAlmostDone;
      if ch == CR {
        state := HeadersAlmostDone;
      } else if ch == LF {
        // A bare line feed also ends the headers
        state := HeadersAlmostDone;
        DoHeadersAlmostDone(ch);
      } else {
        state := Beyond;
      }
    }

    /** The header line has ended: set the flag its value asked for and look for the next one. */
    method DoFinishHeader(ch: char)
      requires Wf(View()) && errno == OK && (state.HeaderValueLws? || state.HeaderValueDiscardLws?)
      modifies this
      ensures View() == OnHeaderFieldStart(FinishHeader(old(View())).(state := HeaderFieldStart), ch).core
      ensures events == old(events) + OnHeaderFieldStart(FinishHeader(old(View())).(state := HeaderFieldStart), ch).events
    {
      hide OnHeaderFieldStart;
      match header {
        case HKeepAlive => flags := flags.(keepAlive := true);
        case HClose => flags := flags.(close := true);
        case HChunked => flags := flags.(chunked := true);
        case HConnectionUpgrade => flags := flags.(connectionUpgrade := true);
        case _ =>
      }
      state := HeaderFieldStart;
      DoHeaderFieldStart(ch);
    }

    method DoHeaderValueStart(ch: char)
      requires Wf(View()) && errno == OK && (state.HeaderValueStart? || state.HeaderValueDiscardWs?)
      modifies this
      ensures View() == OnHeaderValueStart(old(View()), ch).core
      ensures events == old(events) + OnHeaderValueStart(old(View()), ch).events
    {
      if header != HContentLength {
        state := Beyond;
        return;
      }
      state, index := HeaderValue, 0;
      if !IsNum(ch) {
        errno := InvalidContentLength;
      } else if flags.contentLength {
        errno := UnexpectedContentLength;
      } else {
        flags := flags.(contentLength := true);
        contentLength := ch as int - '0' as int;
      }
    }

    method DoStartReq(ch: char)
      requires Wf(View()) && errno == OK && state.StartReq?
      modifies this
      ensures View() == OnStartReq(old(View()), ch).core
      ensures events == old(events) + OnStartReq(old(View()), ch).events
    {
      if ch == CR || ch == LF {
        return;
      }
      flags, contentLength := NO_FLAGS, ULLONG_MAX;
      if !IsAlpha(ch) {
        errno := InvalidMethod;
        return;
      }
      reqMethod, index := DELETE, 1;
      match FirstGuess(ch) {
        case Some(m) =>
          reqMethod, state := m, ReqMethod;
          events := events + [MessageBegin];
        case None =>
          errno := InvalidMethod;
      }
    }

    method DoReqMethod(ch: char)
      requires Wf(View()) && errno == OK && state.ReqMethod?
      modifies this
      ensures View() == OnReqMethod(old(View()), ch).core
      ensures events == old(events) + OnReqMethod(old(View()), ch).events
    {
      hide MethodName, Reguess;
      if ch == '\0' {
        errno := InvalidMethod;
        return;
      }
      var matcher := MethodName(reqMethod);
      if ch == ' ' && index == |matcher| {
        state := SpacesBeforeUrl;
      } else if index < |matcher| && ch == matcher[index] {
        // as expected
      } else if IsAlpha(ch) {
        match Reguess(reqMethod, index, ch) {
          case Some(m) => reqMethod := m;
          case None =>
            errno := InvalidMethod;
            return;
        }
      } else {
        errno := InvalidMethod;
        return;
      }
      index := index + 1;
    }

    method DoChunkSize(ch: char)
      requires Wf(View()) && errno == OK && (state.ChunkSizeStart? || state.ChunkSize?)
      modifies this
      ensures var c := old(View());
              var o := if c.state.ChunkSizeStart? then OnChunkSizeStart(c, ch) else OnChunkSize(c, ch);
              View() == o.core && events == old(events) + o.events
    {
      var v := Unhex(ch);
      if state.ChunkSizeStart? {
        if v == -1 {
          errno := InvalidChunkSize;
        } else {
          contentLength, state := v, ChunkSize;
        }
      } else if ch == CR {
        state := ChunkSizeAlmostDone;
      } else if v == -1 {
        if ch == ';' || ch == ' ' {
          state := ChunkParameters;
        } else {
          errno := InvalidChunkSize;
        }
      } else {
        // The product wraps in 64 bits, but is used only when the test below rules that out
        var t := (contentLength * 16 + v) % (ULLONG_MAX + 1);
        if (ULLONG_MAX - 16) / 16 < contentLength {
          errno := InvalidContentLength;
        } else {
          contentLength := t;
        }
      }
    }

    method DoChunkSizeAlmostDone(ch: char)
      requires Wf(View()) && errno == OK && state.ChunkSizeAlmostDone?
      modifies this
      ensures View() == OnChunkSizeAlmostDone(old(View()), ch).core
      ensures events == old(events) + OnChunkSizeAlmostDone(old(View()), ch).events
    {
      if ch != LF {
        errno := Strict;
        return;
      }
      nread := 0;
      if contentLength == 0 {
        flags := flags.(trailing := true);
        state := HeaderFieldStart;
      } else {
        state := ChunkData;
      }
      events := events + [ChunkHeader(contentLength)];
    }

    /** One byte in a state that collects no slice. */
    method DoByte(ch: char)
      requires Wf(View()) && errno == OK && OneByteState(state, header)
      modifies this
      ensures View() == Dispatch(old(View()), ch).core
      ensures events == old(events) + Dispatch(old(View()), ch).events
    {
      hide OnHeadersDone, OnMessageDone, OnHeadersAlmostDone, OnHeaderFieldStart, OnHeaderValueStart,
           OnStartReq, OnReqMethod, OnChunkSizeStart, OnChunkSize, OnChunkSizeAlmostDone, MethodName;
      match state {
        case Dead => if ch != CR && ch != LF { errno := ClosedConnection; }
        case StartReq => DoStartReq(ch);
        case StartRes => state := Beyond;
        case ReqMethod => DoReqMethod(ch);
        case SpacesBeforeUrl => if ch != ' ' { state := Beyond; }
        case HeaderFieldStart => DoHeaderFieldStart(ch);
        case HeaderValueDiscardWs =>
          if ch == ' ' || ch == '\t' {
          } else if ch == CR {
            state := HeaderValueDiscardWsAlmostDone;
          } else if ch == LF {
            state := HeaderValueDiscardLws;
          } else {
            DoHeaderValueStart(ch);
          }
        case HeaderValueDiscardWsAlmostDone =>
          if ch != LF { errno := Strict; } else { state := HeaderValueDiscardLws; }
        case HeaderValueDiscardLws =>
          if ch == ' ' || ch == '\t' { state := HeaderValueDiscardWs; } else { DoFinishHeader(ch); }
        case HeaderValueStart => DoHeaderValueStart(ch);
        case HeaderValue => state := Beyond;
        case HeaderValueLws =>
          if ch == ' ' || ch == '\t' {
            state := HeaderValueStart;
            DoHeaderValueStart(ch);
          } else {
            DoFinishHeader(ch);
          }
        case HeaderAlmostDone => if ch != LF { errno := LfExpected; } else { state := HeaderValueLws; }
        case ChunkSizeStart => DoChunkSize(ch);
        case ChunkSize => DoChunkSize(ch);
        case ChunkParameters => if ch == CR { state := ChunkSizeAlmostDone; }
        case ChunkSizeAlmostDone => DoChunkSizeAlmostDone(ch);
        case HeadersAlmostDone => DoHeadersAlmostDone(ch);
        case HeadersDone => DoHeadersDone(ch);
        case ChunkDataDone =>
          if ch != LF {
            errno := Strict;
          } else {
            nread, state := 0, ChunkSizeStart;
            events := events + [ChunkComplete];
          }
        case MessageDone => DoMessageDone();
        case Beyond =>
      }
    }

    method DoValueByte(ch: char)
      requires errno == OK && contentLength <= ULLONG_MAX
      modifies this`contentLength, this`errno
      ensures contentLength <= ULLONG_MAX
      ensures (errno, contentLength) == ValueNext(line.lenient, old(contentLength), ch)
    {
      if !line.lenient && !IsHeaderChar(ch) {
        errno := InvalidHeaderToken;
        return;
      }
      if ch == ' ' {
        return;
      }
      if !IsNum(ch) {
        errno := InvalidContentLength;
        return;
      }
      // The product wraps in 64 bits, but is used only when the test below rules that out
      var t := (contentLength * 10 + (ch as int - '0' as int)) % (ULLONG_MAX + 1);
      if (ULLONG_MAX - 10) / 10 < contentLength {
        errno := InvalidContentLength;
        return;
      }
      contentLength := t;
    }

    /**
     * The Content-Length value from `start` on, up to its end or the end of the buffer. `b` is the
     * byte-at-a-time parser before `data[start]`; this one has already counted that byte.
     */
    method DoHeaderValue(data: string, start: nat, ghost b: Core) returns (q: nat, at: nat)
      requires start < |data| && Wf(b) && b.errno == OK && b.state.HeaderValue? && b.header == HContentLength
      requires View() == b.(nread := nread) && nread <= b.nread + 1
      modifies this`state, this`contentLength, this`nread, this`errno
      ensures start < q <= |data| && Wf(View())
      ensures state.HeaderValue? || state.HeaderAlmostDone? || state.HeaderValueLws?
      ensures start <= at <= |data|
      ensures errno != OK && errno != HeaderOverflow ==> at + 1 == q && !Failed(Run(b, data[start..at]).core)
      ensures Ended(b, data, start, q, View())
    {
      hide Run, ValueNext, Inside, Ended, Failed;
      var p := start;
      InsideStart(b, data, start);
      while p < |data|
        invariant start <= p <= |data| && errno == OK
        invariant View() == b.(nread := nread, contentLength := contentLength) && nread <= b.nread + 1
        invariant contentLength <= ULLONG_MAX
        invariant Inside(b, data, start, p, contentLength)
      {
        var ch := data[p];
        InsideByte(b, data, start, p, contentLength);
        InsideEnd(b, data, start, p, p + 1, contentLength, nread + (p - start));
        if ch == CR {
          state := HeaderAlmostDone;
          break;
        }
        if ch == LF {
          state := HeaderAlmostDone;
          nread := nread + (p - start);
          if nread > HTTP_MAX_HEADER_SIZE {
            errno := HeaderOverflow;
          } else {
            state := HeaderValueLws;
          }
          return p + 1, p;
        }
        ErrorEnd(b, data, start, p, contentLength, nread);
        DoValueByte(ch);
        if errno != OK {
          return p + 1, p;
        }
        p := p + 1;
      }
      if p == |data| {
        ValueCut(b, data, start, p, contentLength, nread + (p - start));
      }
      nread := nread + (p - start);
      if nread > HTTP_MAX_HEADER_SIZE {
        errno := HeaderOverflow;
      }
      at := p;
      q := if p == |data| then p else p + 1;
    }

    /** One byte in a state that collects no slice, with the header-size count. */
    method StepByte(ch: char)
      requires Wf(View()) && errno == OK && OneByteState(state, header) && !state.Beyond?
      modifies this
      ensures View() == Step(old(View()), ch).core
      ensures events == old(events) + Step(old(View()), ch).events
    {
      hide Dispatch;
      if ParsingHeader(state) {
        nread := nread + 1;
        if nread > HTTP_MAX_HEADER_SIZE {
          errno := HeaderOverflow;
          return;
        }
      }
      DoByte(ch);
    }

    /** Hand out the body slice from the mark to `p`, if there is one. */
    method FlushBody(data: string, mark: int, p: nat)
      requires -1 <= mark < p <= |data| || mark == -1
      modifies this`events
      ensures Flatten(events) == Flatten(old(events)) + Pending(data, mark, p)
    {
      if mark >= 0 {
        FlattenSnoc(events, Body(data[mark..p]));
        events := events + [Body(data[mark..p])];
      }
    }

    /**
     * Body bytes are taken in bulk, as many as are due or at hand. The slice is marked, and handed out
     * at once only if it completes a body of declared length.
     */
    method ReadBody(data: string, p: nat, ghost c0: Core, ghost past: seq<Event>) returns (q: nat, mark: int)
      requires Wf(View()) && errno == OK && p < |data|
      requires state.ChunkData? || state.BodyIdentity? || state.BodyIdentityEof?
      requires Tracked(c0, past, data, p, View(), Flatten(events))
      modifies this
      ensures p < q <= |data| && Wf(View()) && errno == OK && !state.Beyond?
      ensures mark == p || (mark == -1 && !state.ChunkDataAlmostDone? && !state.ChunkData?)
      ensures mark >= 0 && q < |data| ==> state.ChunkDataAlmostDone?
      ensures state.ChunkDataAlmostDone? || state.ChunkData? <==> old(state).ChunkData?
      ensures old(state).ChunkData? ==> q - p <= old(contentLength)
      ensures Tracked(c0, past, data, q, View(), Flatten(events) + Pending(data, mark, q))
    {
      hide Run, Step, Dispatch, Flatten, Tracked, FlatOne;
      ghost var c := View();
      mark := p;
      if state.BodyIdentityEof? {
        q := |data|;
        Advance(c0, past, data, p, q, c, Flatten(events));
        EofRun(c, data[p..q]);
        return;
      }
      var toRead := if contentLength < |data| - p then contentLength else |data| - p;
      q := p + toRead;
      Advance(c0, past, data, p, q, c, Flatten(events));
      contentLength := contentLength - toRead;
      if state.ChunkData? {
        BulkChunk(c, data[p..q]);
        if contentLength == 0 {
          state := ChunkDataAlmostDone;
        }
      } else {
        BulkIdentity(c, data[p..q]);
        if contentLength == 0 {
          state := MessageDone;
          ghost var before := Flatten(events);
          FlushBody(data, mark, q);
          FlattenPlain(events, [MessageComplete]);
          DoMessageDone();
          mark := -1;
          assert Flatten(events) == before + (Singles(data[p..q]) + [MessageComplete]);
          assert Flatten(events) + [] == Flatten(events);
        }
      }
    }

    /** A Content-Length value, up to its end or the end of the buffer. */
    method ReadValue(data: string, p: nat, ghost c0: Core, ghost past: seq<Event>) returns (q: nat, at: nat)
      requires Wf(View()) && errno == OK && p < |data| && state.HeaderValue? && header == HContentLength
      requires Tracked(c0, past, data, p, View(), Flatten(events))
      modifies this
      ensures p < q <= |data| && Wf(View()) && events == old(events)
      ensures !state.ChunkDataAlmostDone? && !state.ChunkData? && !state.Beyond?
      ensures errno == OK ==> Tracked(c0, past, data, q, View(), Flatten(events))
      ensures errno != OK ==> Tracked(c0, past, data, |data|, View(), Flatten(events))
      ensures at <= |data| && (Failed(View()) ==> FailsAt(c0, data, at))
    {
      hide Run, Step, Dispatch, Flatten;
      ghost var c := View();
      nread := nread + 1;
      if nread > HTTP_MAX_HEADER_SIZE {
        errno := HeaderOverflow;
        q, at := p + 1, p;
        assert data[p..q] == [data[p]];
        RunOne(c, data[p]);
        StepOverflow(c, data[p]);
      } else {
        q, at := DoHeaderValue(data, p, c);
        if Failed(View()) { Advance(c0, past, data, p, at, c, Flatten(events)); }
      }
      Advance(c0, past, data, p, q, c, Flatten(events));
      assert Flatten(events) + [] == Flatten(events);
      if errno != OK {
        if Failed(View()) { FailsHere(c0, past, data, at, View(), Flatten(events)); }
        Stop(c0, past, data, q, View(), Flatten(events));
      }
    }

    /** Any other byte: one step, handing out the body slice when the chunk's data has ended. */
    method FollowByte(data: string, p: nat, mark: int, ghost c0: Core, ghost past: seq<Event>)
      requires Wf(View()) && errno == OK && p < |data| && !state.Beyond? && (mark == -1 || 0 <= mark < p)
      requires state.ChunkDataAlmostDone? || (OneByteState(state, header) && mark == -1)
      requires Tracked(c0, past, data, p, View(), Flatten(events) + Pending(data, mark, p))
      modifies this
      ensures Wf(View())
      ensures errno == OK ==> !state.ChunkDataAlmostDone? && Tracked(c0, past, data, p + 1, View(), Flatten(events))
      ensures errno != OK ==> Tracked(c0, past, data, |data|, View(), Flatten(events) + Pending(data, mark, p))
      ensures errno != OK ==> (state.ChunkDataAlmostDone? <==> old(state).ChunkDataAlmostDone?)
      ensures state == Step(old(View()), data[p]).core.state
      ensures Failed(View()) ==> FailsAt(c0, data, p)
    {
      hide Run, Step, Dispatch, Flatten, Tracked, FlatOne, FailsAt;
      ghost var c, flat := View(), Flatten(events) + Pending(data, mark, p);
      TrackedErrno(c0, past, data, p, c, flat);
      assert flat + [] == flat && (mark == -1 ==> flat == Flatten(events));
      Advance(c0, past, data, p, p + 1, c, flat);
      assert data[p..p + 1] == [data[p]];
      RunOne(c, data[p]);
      if state.ChunkDataAlmostDone? {
        AfterChunk(c, data[p]);
        if data[p] != CR {
          errno := Strict;
        } else {
          state := ChunkDataDone;
          FlushBody(data, mark, p);
        }
      } else {
        StepPlain(c, data[p]);
        FlattenPlain(events, Step(c, data[p]).events);
        StepByte(data[p]);
      }
      if errno != OK {
        if Failed(View()) { FailsHere(c0, past, data, p, View(), flat + Step(c, data[p]).events); }
        Stop(c0, past, data, p + 1, View(), flat + Step(c, data[p]).events);
      }
    }

    /**
     * The loop of `http_parser_execute`. The parser ends where the byte-at-a-time machine
     * ends, and the callbacks, their slices split into bytes, are those of that machine; only in an
     * error right after chunk data is the slice `lost`, already marked in this call, not handed out.
     * In error, `n` is the index of the byte that caused it.
     */
    method Parse(data: string) returns (n: nat, ghost lost: string)
      requires Wf(View()) && errno == OK
      modifies this
      ensures Wf(View())
      ensures Tracked(old(View()), Flatten(old(events)), data, |data|, View(), Flatten(events) + Singles(lost))
      ensures n <= |data| && (errno == OK && !state.Beyond? ==> n == |data|)
      ensures Failed(View()) ==> FailsAt(old(View()), data, n)
      ensures lost != [] <==> errno != OK && state.ChunkDataAlmostDone? && n > 0
      ensures |lost| <= n && lost == data[n - |lost|..n]
      ensures errno != OK && state.ChunkDataAlmostDone? ==> LastBody(old(View()), data, n, |lost|)
    {
      hide Run, Step, Dispatch, Wf, Flatten, Tracked, FlatOne, FailsAt, Marked;
      ghost var c0, past := View(), Flatten(events);
      var mark, p := -1, 0;
      lost := "";
      MarkedStart(c0, data, state);
      TrackedStart(c0, past, data);
      while p < |data| && !state.Beyond?
        invariant p <= |data| && errno == OK && Wf(View())
        invariant mark == -1 || 0 <= mark < p
        invariant mark >= 0 && p < |data| ==> state.ChunkDataAlmostDone?
        invariant mark >= 0 ==> !state.Beyond?
        invariant state.ChunkDataAlmostDone? && mark == -1 ==> p == 0
        invariant Tracked(c0, past, data, p, View(), Flatten(events) + Pending(data, mark, p))
        invariant Marked(c0, data, p, mark, state)
        decreases |data| - p
      {
        ghost var flat, c, p0 := Flatten(events) + Pending(data, mark, p), View(), p;
        assert mark == -1 ==> flat == Flatten(events);
        if state.ChunkData? || state.BodyIdentity? || state.BodyIdentityEof? {
          p, mark := ReadBody(data, p, c0, past);
          if c.state.ChunkData? {
            MarkedRead(c0, past, data, p0, p, c, flat, state);
          } else {
            MarkedNothing(c0, data, p, mark, state);
          }
        } else if state.HeaderValue? && header == HContentLength {
          var q, at := ReadValue(data, p, c0, past);
          assert Flatten(events) + [] == Flatten(events);
          if errno != OK {
            n := at;
            return;
          }
          p := q;
          MarkedNothing(c0, data, p, mark, state);
        } else {
          FollowByte(data, p, mark, c0, past);
          if errno != OK {
            n := p;
            if mark >= 0 { lost := data[mark..p]; }
            MarkedLast(c0, data, p, mark, c.state);
            return;
          }
          MarkedStep(c0, past, data, p, c, flat, state);
          assert Flatten(events) + [] == Flatten(events);
          mark := -1;
          p := p + 1;
        }
      }
      if state.Beyond? {
        Stop(c0, past, data, p, View(), Flatten(events) + Pending(data, mark, p));
      }
      FlushBody(data, mark, p);
      assert Flatten(events) + Singles(lost) == Flatten(events);
      n := p;
    }

    /** `http_parser_execute`: an empty buffer means the end of the input. */
    method Execute(data: string) returns (n: nat, ghost lost: string)
      requires Wf(View())
      modifies this
      ensures Wf(View()) && n <= |data| + 1
      ensures old(errno) != OK ==> n == 0 && View() == old(View()) && events == old(events) && lost == []
      ensures old(errno) == OK && data == [] ==>
                && lost == []
                && (match old(state)
                    case BodyIdentityEof =>
                      n == 0 && View() == old(View()) && events == old(events) + [MessageComplete]
                    case Dead | StartReq | StartRes | Beyond =>
                      n == 0 && View() == old(View()) && events == old(events)
                    case _ =>
                      n == 1 && View() == old(View()).(errno := InvalidEofState) && events == old(events))
      ensures old(errno) == OK && data != [] ==>
                && Tracked(old(View()), Flatten(old(events)), data, |data|, View(), Flatten(events) + Singles(lost))
                && (errno == OK && !state.Beyond? ==> n == |data|)
                && (Failed(View()) ==> FailsAt(old(View()), data, n))
                && (lost != [] <==> errno != OK && state.ChunkDataAlmostDone? && n > 0)
                && |lost| <= n <= |data| && lost == data[n - |lost|..n]
                && (errno != OK && state.ChunkDataAlmostDone? ==> LastBody(old(View()), data, n, |lost|))
    {
      hide Tracked, Flatten, Run, FailsAt, LastBody;
      n, lost := 0, "";
      if errno != OK {
        return;
      }
      if data == [] {
        match state {
          case BodyIdentityEof => events := events + [MessageComplete];
          case Dead | StartReq | StartRes | Beyond =>
          case _ =>
            errno := InvalidEofState;
            n := 1;
        }
        return;
      }
      n, lost := Parse(data);
    }

    /**
     * A parser fed a whole input in pieces, one call per piece. Unless the count overflows, it ends
     * where one byte per call leads and has reported the same, but for what the cut `Loses`.
     */
    method ExecuteAll(pieces: seq<string>) returns (ghost lost: string)
      requires Wf(View()) && errno == OK && forall s :: s in pieces ==> s != []
      modifies this
      ensures Wf(View())
      ensures Follows(old(View()), Flatten(old(events)), Concat(pieces), View(), Flatten(events), lost)
      ensures Run(old(View()), Concat(pieces)).core.errno != HeaderOverflow ==> Loses(old(View()), pieces, lost)
    {
      hide Tracked, Flatten, Run, Wf, Follows, Loses, FailsAt, LastBody;
      ghost var c0, past := View(), Flatten(events);
      FollowsStart(c0, past);
      LosesStart(c0);
      assert pieces[..0] == [];
      lost := "";
      for k := 0 to |pieces|
        invariant Wf(View()) && (errno == OK ==> lost == "")
        invariant Follows(c0, past, Concat(pieces[..k]), View(), Flatten(events), lost)
        invariant Run(c0, Concat(pieces[..k])).core.errno != HeaderOverflow ==> Loses(c0, pieces[..k], lost)
      {
        var t := pieces[k];
        ghost var init := pieces[..k];
        assert pieces[..k + 1] == init + [t];
        ConcatSnoc(init, t);
        assert t in pieces;
        ghost var c, flat := View(), Flatten(events);
        var n, gone := Execute(t);
        if c.errno != OK {
          FollowsError(c0, past, Concat(init), t, c, flat, lost);
          LosesError(c0, past, init, t, c, flat, lost);
        } else {
          FollowsCall(c0, past, Concat(init), t, c, flat, View(), Flatten(events), gone);
          LosesCall(c0, past, init, t, c, flat, View(), Flatten(events), n, gone);
          lost := gone;
        }
      }
      assert pieces[..|pieces|] == pieces;
    }
  }

  // ----- end to end

  lemma FollowsMeans(c0: Core, past: seq<Event>, s: string, c: Core, es: seq<Event>, lost: string)
    requires Follows(c0, Flatten(past), s, c, Flatten(es), lost) && Run(c0, s).core.errno != HeaderOverflow
    requires Run(c0, s).core.errno == OK || lost == ""
    ensures c.errno == Run(c0, s).core.errno
    ensures BodyBytes(es) == BodyBytes(past) + BodyBytes(Run(c0, s).events)
    ensures Completions(es) == Completions(past) + Completions(Run(c0, s).events)
  {
    hide Run, Flatten, Wf, BodyBytes, Completions;
    FlattenMeans(es);
    FlattenMeans(past);
    BodyBytesConcat(Flatten(past), Run(c0, s).events);
    assert Flatten(es) + Singles("") == Flatten(es);
  }

  /** A message that has ended loses nothing to the cut of what follows it. */
  lemma IdleLoses(c0: Core, pieces: seq<string>, lost: string)
    requires Wf(c0) && c0.errno == OK && Loses(c0, pieces, lost) && Idle(Run(c0, Concat(pieces)).core)
    ensures lost == ""
  {
  }

  /**
   * However the end of the headers, the encoding of a chunked body and whatever follows it are cut into
   * calls, the body callbacks receive the payload and no more, and the message completes once.
   */
  method FeedChunked(parser: Parser, pieces: seq<string>, ghost head: string, ghost ks: seq<Chunk>,
                     ghost last: SizeLine, ghost tail: string)
    requires BeforeChunks(parser.View(), head) && WfChunked(ks, last)
    requires Concat(pieces) == head + ChunkedBody(ks, last) + tail && forall s :: s in pieces ==> s != []
    requires tail != [] ==> Run(parser.View(), Concat(pieces)).core.errno != HeaderOverflow
    modifies parser
    ensures tail == [] ==> parser.errno == OK
    ensures BodyBytes(parser.events) == BodyBytes(old(parser.events)) + Payload(ks)
    ensures Completions(parser.events) == Completions(old(parser.events)) + 1
  {
    hide Run, Flatten, Follows, BodyBytes, Completions, ChunkedBody, Idle, Loses;
    ghost var c0, past, s := parser.View(), parser.events, head + ChunkedBody(ks, last);
    ChunkedRun(c0, head, ks, last, tail);
    assert tail == [] ==> s + tail == s;
    ghost var lost := parser.ExecuteAll(pieces);
    IdleLoses(c0, pieces, lost);
    FollowsMeans(c0, past, Concat(pieces), parser.View(), parser.events, lost);
  }

  /** A prefix of a run without error has no error, and no more completions. */
  lemma PrefixMeans(c: Core, s: string, n: nat)
    requires Wf(c) && n <= |s| && Run(c, s).core.errno == OK
    ensures Run(c, s[..n]).core.errno == OK
    ensures Completions(Run(c, s[..n]).events) <= Completions(Run(c, s).events)
  {
    hide Run, Wf, Completions, BodyBytes;
    assert s[..|s|] == s;
    RunSlice(c, s, n, |s|);
    var m := Run(c, s[..n]);
    if m.core.errno != OK {
      RunError(m.core, s[n..|s|]);
    }
    BodyBytesConcat(m.events, Run(m.core, s[n..|s|]).events);
  }

  /** While the final line feed has not been fed, however the rest was cut, the message is not complete. */
  method FeedUnfinished(parser: Parser, pieces: seq<string>, ghost head: string, ghost ks: seq<Chunk>,
                        ghost last: SizeLine)
    requires BeforeChunks(parser.View(), head) && WfChunked(ks, last)
    requires Concat(pieces) < head + ChunkedBody(ks, last) && forall s :: s in pieces ==> s != []
    modifies parser
    ensures parser.errno == OK
    ensures Completions(parser.events) == Completions(old(parser.events))
  {
    hide Run, Completions, ChunkedBody;
    ChunkedRun(parser.View(), head, ks, last, "");
    FeedPrefix(parser, pieces, head + ChunkedBody(ks, last));
  }

  /** An input whose message completes with its last byte completes nothing before that byte is fed. */
  method FeedPrefix(parser: Parser, pieces: seq<string>, ghost s: string)
    requires Wf(parser.View()) && parser.errno == OK && Concat(pieces) < s && forall t :: t in pieces ==> t != []
    requires Run(parser.View(), s).core.errno == OK && Completions(Run(parser.View(), s[..|s| - 1]).events) == 0
    modifies parser
    ensures parser.errno == OK
    ensures Completions(parser.events) == Completions(old(parser.events))
  {
    hide Run, Flatten, Follows, BodyBytes, Completions, Loses;
    ghost var c0, past, t, n := parser.View(), parser.events, s[..|s| - 1], |Concat(pieces)|;
    PrefixMeans(c0, s, |s| - 1);
    PrefixMeans(c0, t, n);
    assert Concat(pieces) == t[..n];
    ghost var lost := parser.ExecuteAll(pieces);
    FollowsMeans(c0, past, Concat(pieces), parser.View(), parser.events, lost);
  }

  /**
   * However a Content-Length value, the end of the headers, the body and whatever follows it are cut into
   * calls, the body callbacks receive exactly the declared number of bytes and the message completes once.
   */
  method FeedContentLength(parser: Parser, pieces: seq<string>, ghost digits: string, ghost body: string,
                           ghost tail: string)
    requires AtLengthValue(parser.View()) && PlainBody(parser.View()) && IsLength(digits)
    requires parser.nread + 2 * |digits| + 4 <= HTTP_MAX_HEADER_SIZE
    requires LengthValue(digits) == |body| <= ULLONG_MAX - 6
    requires Concat(pieces) == digits + [CR, LF] + [CR, LF] + body + tail && forall s :: s in pieces ==> s != []
    requires tail != [] ==> Run(parser.View(), Concat(pieces)).core.errno != HeaderOverflow
    modifies parser
    ensures tail == [] ==> parser.errno == OK
    ensures BodyBytes(parser.events) == BodyBytes(old(parser.events)) + body
    ensures Completions(parser.events) == Completions(old(parser.events)) + 1
  {
    hide Run, Flatten, Follows, BodyBytes, Completions, Idle, Loses, LengthValue;
    ghost var c0, past, s := parser.View(), parser.events, digits + [CR, LF] + [CR, LF] + body;
    ContentLengthRun(c0, digits, body, tail);
    assert tail == [] ==> s + tail == s;
    ghost var lost := parser.ExecuteAll(pieces);
    IdleLoses(c0, pieces, lost);
    FollowsMeans(c0, past, Concat(pieces), parser.View(), parser.events, lost);
  }

  /**
   * A response without a length is read to the end of the connection: however it is cut into calls, every
   * byte is body, and the message completes when the input ends and not before.
   */
  method FeedToEnd(parser: Parser, pieces: seq<string>, ghost s: string) returns (before: seq<Event>)
    requires Unframed(parser.View()) && parser.line.kind == Response && !Bodiless(parser.line.statusCode)
    requires Concat(pieces) == [CR, LF] + s && forall t :: t in pieces ==> t != []
    modifies parser
    ensures BodyBytes(before) == BodyBytes(old(parser.events)) + s
    ensures Completions(before) == Completions(old(parser.events))
    ensures parser.errno == OK && parser.events == before + [MessageComplete]
  {
    hide Run, Flatten, BodyBytes, Completions, Loses, Tracked;
    ghost var c0, past := parser.View(), parser.events;
    UnframedResponse(c0, s);
    ghost var lost := parser.ExecuteAll(pieces);
    FollowsMeans(c0, past, Concat(pieces), parser.View(), parser.events, lost);
    before := parser.events;
    var n, gone := parser.Execute([]);
  }

  /** The same with a declared length: before the last byte, however the rest was cut, nothing completes. */
  method FeedPartOfLength(parser: Parser, pieces: seq<string>, ghost digits: string, ghost body: string)
    requires AtLengthValue(parser.View()) && PlainBody(parser.View()) && IsLength(digits)
    requires parser.nread + 2 * |digits| + 4 <= HTTP_MAX_HEADER_SIZE
    requires LengthValue(digits) == |body| <= ULLONG_MAX - 6
    requires Concat(pieces) < digits + [CR, LF] + [CR, LF] + body && forall s :: s in pieces ==> s != []
    modifies parser
    ensures parser.errno == OK
    ensures Completions(parser.events) == Completions(old(parser.events))
  {
    hide Run, Completions;
    ContentLengthRun(parser.View(), digits, body, "");
    FeedPrefix(parser, pieces, digits + [CR, LF] + [CR, LF] + body);
  }

  /**
   * However a request line is cut into calls, its first word, after any line breaks, is taken as method
   * `m` exactly when it is the name of `m`.
   */
  method FeedMethod(parser: Parser, pieces: seq<string>, ghost w: string, ghost m: Method)
    requires Ready(parser.View()) && ' ' !in w && parser.nread + |w| < HTTP_MAX_HEADER_SIZE
    requires Concat(pieces) == w + " " && forall s :: s in pieces ==> s != []
    modifies parser
    ensures Accepted(parser.View(), m) <==> Trim(w) == MethodName(m)
  {
    hide Run, Flatten, MethodName, Concat;
    ghost var c0 := parser.View();
    MethodExact(c0, w, m);
    WithinLimit(c0, w + " ");
    ghost var lost := parser.ExecuteAll(pieces);
  }

  /**
   * Two cuts of one input leave the same parser, header count aside, and the same reports exactly if
   * they lose equally many bytes; what they lose is read off the input and the cut.
   */
  method TwoCuts(p: Parser, q: Parser, pieces: seq<string>, others: seq<string>)
    returns (ghost lost: string, ghost gone: string)
    requires p != q && p.View() == q.View() && p.events == q.events && Wf(p.View()) && p.errno == OK
    requires Concat(pieces) == Concat(others) && Run(p.View(), Concat(pieces)).core.errno != HeaderOverflow
    requires (forall s :: s in pieces ==> s != []) && forall s :: s in others ==> s != []
    modifies p, q
    ensures p.View() == q.View().(nread := p.nread)
    ensures Loses(old(p.View()), pieces, lost) && Loses(old(p.View()), others, gone)
    ensures Flatten(p.events) == Flatten(q.events) <==> |lost| == |gone|
  {
    hide Run, Flatten, Loses, Wf, Singles;
    lost := p.ExecuteAll(pieces);
    gone := q.ExecuteAll(others);
    SameTotal(Flatten(p.events), Singles(lost), Flatten(q.events), Singles(gone));
  }

  lemma SameTotal(a: seq<Event>, x: seq<Event>, b: seq<Event>, y: seq<Event>)
    requires a + x == b + y
    ensures a == b <==> |x| == |y|
  {
    assert |a| == |b| ==> (a + x)[..|a|] == a && (b + y)[..|b|] == b;
  }

  lemma BrokenChunk(c: Core, a: char, x: char)
    requires Wf(c) && c.errno == OK && c.state.ChunkData? && c.contentLength == 1 && x != CR
    ensures Run(c, [a]) == Out(c.(contentLength := 0, state := ChunkDataAlmostDone), [Body([a])])
    ensures Run(c, [a, x]).core == c.(contentLength := 0, state := ChunkDataAlmostDone, errno := Strict)
    ensures Run(c, [a, x]).events == [Body([a])]
    ensures Run(Run(c, [a]).core, [x]).core == Run(c, [a, x]).core && Run(Run(c, [a]).core, [x]).events == []
  {
    hide Run, Step;
    RunOne(c, a);
    RunTwo(c, a, x);
    DataByte(c, a);
    RunOne(Run(c, [a]).core, x);
    AfterChunk(Run(c, [a]).core, x);
  }

  /**
   * Only for input in error does the cut show: with a broken chunk end in the same call as the chunk's
   * data, the data is never handed out; in a call of its own, the data has been handed out before.
   */
  method CutShowsInError(p: Parser, q: Parser, a: char, x: char)
    requires p != q && p.View() == q.View() && p.events == q.events && x != CR
    requires Wf(p.View()) && p.errno == OK && p.state.ChunkData? && p.contentLength == 1
    modifies p, q
    ensures p.errno == q.errno == Strict
    ensures BodyBytes(p.events) == BodyBytes(old(p.events))
    ensures BodyBytes(q.events) == BodyBytes(old(q.events)) + [a]
  {
    hide Run, Flatten, BodyBytes, Completions;
    ghost var c := p.View();
    BrokenChunk(c, a, x);
    assert [a, x][..0] == [] && [a, x][..1] == [a] && [a, x][..2] == [a, x];
    assert [a][..1] == [a] && [x][..1] == [x];
    FlattenMeans(p.events);
    var np, lost := p.Execute([a, x]);
    FlattenMeans(p.events);
    LostIs(Flatten(p.events), Flatten(old(p.events)), lost, a);
    var n1, lost1 := q.Execute([a]);
    FlattenMeans(q.events);
    BodyBytesConcat(Flatten(old(q.events)), Singles([a]));
    BodyBytesSingles([a]);
    assert Singles([a]) == [Body([a])];
    ghost var mid := Flatten(q.events);
    assert mid + Singles(lost1) == mid;
    RunOne(q.View(), x);
    AfterChunk(q.View(), x);
    var n2, lost2 := q.Execute([x]);
    FlattenMeans(q.events);
    assert Flatten(q.events) + Singles(lost2) == Flatten(q.events) && mid + [] == mid;
  }

  lemma LostIs(now: seq<Event>, past: seq<Event>, lost: string, a: char)
    requires |lost| == 1 && now + Singles(lost) == past + [Body([a])]
    ensures now == past
  {
    assert (now + Singles(lost))[..|now|] == now;
    assert (past + [Body([a])])[..|past|] == past;
  }
}
