/**
 * The header byte counter is the one field that depends on where the input is cut: a value that
 * straddles two calls is counted once more. Feeding one byte per call counts most, so a run that does
 * not overflow then does not overflow for any other cut, and the counter changes nothing else.
 */
module HttpAgree {
  import opened Wrappers
  import opened HttpMachine

  /** The same parser, except that `a` may have counted fewer header bytes than `b`. */
  predicate Agree(a: Core, b: Core) {
    a == b.(nread := a.nread) && a.nread <= b.nread
  }

  predicate SameOut(x: Out, y: Out) {
    Agree(x.core, y.core) && x.events == y.events
  }

  lemma HeadersDoneAgree(a: Core, b: Core, ch: char)
    requires Agree(a, b)
    ensures SameOut(OnHeadersDone(a, ch), OnHeadersDone(b, ch))
    ensures SameOut(OnMessageDone(a), OnMessageDone(b))
  {
  }

  lemma HeaderFieldStartAgree(a: Core, b: Core, ch: char)
    requires Agree(a, b)
    ensures SameOut(OnHeadersAlmostDone(a, ch), OnHeadersAlmostDone(b, ch))
    ensures SameOut(OnHeaderFieldStart(a, ch), OnHeaderFieldStart(b, ch))
  {
    hide OnHeadersDone, OnMessageDone;
    HeadersDoneAgree(a, b, ch);
    HeadersDoneAgree(a.(state := HeadersDone), b.(state := HeadersDone), ch);
    HeadersDoneAgree(a.(state := HeadersAlmostDone), b.(state := HeadersAlmostDone), ch);
  }

  lemma HeaderValueStartAgree(a: Core, b: Core, ch: char)
    requires Agree(a, b)
    ensures SameOut(OnHeaderValueStart(a, ch), OnHeaderValueStart(b, ch))
  {
  }

  lemma LwsAgree(a: Core, b: Core, ch: char)
    requires Agree(a, b)
    ensures SameOut(OnHeaderValueLws(a, ch), OnHeaderValueLws(b, ch))
    ensures SameOut(OnHeaderValueDiscardLws(a, ch), OnHeaderValueDiscardLws(b, ch))
    ensures SameOut(OnHeaderValueDiscardWs(a, ch), OnHeaderValueDiscardWs(b, ch))
  {
    hide OnHeaderFieldStart, OnHeaderValueStart;
    HeaderFieldStartAgree(FinishHeader(a).(state := HeaderFieldStart), FinishHeader(b).(state := HeaderFieldStart), ch);
    HeaderValueStartAgree(a.(state := HeaderValueStart), b.(state := HeaderValueStart), ch);
    HeaderValueStartAgree(a, b, ch);
  }

  lemma HeaderValueAgree(a: Core, b: Core, ch: char)
    requires Agree(a, b) && OnHeaderValue(b, ch).core.errno != HeaderOverflow
    ensures SameOut(OnHeaderValue(a, ch), OnHeaderValue(b, ch))
  {
  }

  lemma MethodAgree(a: Core, b: Core, ch: char)
    requires Agree(a, b)
    ensures SameOut(OnStartReq(a, ch), OnStartReq(b, ch))
    ensures SameOut(OnReqMethod(a, ch), OnReqMethod(b, ch))
  {
    hide MethodName, FirstGuess, Reguess;
  }

  lemma ChunkAgree(a: Core, b: Core, ch: char)
    requires Agree(a, b)
    ensures SameOut(OnChunkSizeStart(a, ch), OnChunkSizeStart(b, ch))
    ensures SameOut(OnChunkSize(a, ch), OnChunkSize(b, ch))
    ensures SameOut(OnChunkSizeAlmostDone(a, ch), OnChunkSizeAlmostDone(b, ch))
    ensures SameOut(OnChunkDataDone(a, ch), OnChunkDataDone(b, ch))
  {
  }

  lemma BodyAgree(a: Core, b: Core, ch: char)
    requires Agree(a, b) && a.contentLength > 0
    ensures SameOut(OnChunkData(a, ch), OnChunkData(b, ch))
    ensures SameOut(OnBodyIdentity(a, ch), OnBodyIdentity(b, ch))
  {
  }

  lemma DispatchAgree(a: Core, b: Core, ch: char)
    requires Wf(a) && Wf(b) && Agree(a, b) && Dispatch(b, ch).core.errno != HeaderOverflow
    ensures SameOut(Dispatch(a, ch), Dispatch(b, ch))
  {
    hide OnHeadersDone, OnMessageDone, OnHeadersAlmostDone, OnHeaderFieldStart, OnHeaderValueStart,
         OnHeaderValueLws, OnHeaderValueDiscardWs, OnHeaderValueDiscardLws, OnHeaderValue, OnStartReq,
         OnReqMethod, OnChunkSizeStart, OnChunkSize, OnChunkSizeAlmostDone, OnChunkData, OnChunkDataDone,
         OnBodyIdentity;
    assert a.state.ChunkData? || a.state.BodyIdentity? ==> a.contentLength > 0;
    hide Wf, MethodName;
    match a.state
    case HeadersDone => HeadersDoneAgree(a, b, ch);
    case MessageDone => HeadersDoneAgree(a, b, ch);
    case HeadersAlmostDone => HeaderFieldStartAgree(a, b, ch);
    case HeaderFieldStart => HeaderFieldStartAgree(a, b, ch);
    case HeaderValueStart => HeaderValueStartAgree(a, b, ch);
    case HeaderValueLws => LwsAgree(a, b, ch);
    case HeaderValueDiscardLws => LwsAgree(a, b, ch);
    case HeaderValueDiscardWs => LwsAgree(a, b, ch);
    case HeaderValue => HeaderValueAgree(a, b, ch);
    case StartReq => MethodAgree(a, b, ch);
    case ReqMethod => MethodAgree(a, b, ch);
    case ChunkSizeStart => ChunkAgree(a, b, ch);
    case ChunkSize => ChunkAgree(a, b, ch);
    case ChunkSizeAlmostDone => ChunkAgree(a, b, ch);
    case ChunkDataDone => ChunkAgree(a, b, ch);
    case ChunkData => BodyAgree(a, b, ch);
    case BodyIdentity => BodyAgree(a, b, ch);
    case _ =>
  }

  lemma StepAgree(a: Core, b: Core, ch: char)
    requires Wf(a) && Wf(b) && Agree(a, b) && Step(b, ch).core.errno != HeaderOverflow
    ensures SameOut(Step(a, ch), Step(b, ch))
  {
    hide Dispatch;
    if b.errno == OK && !b.state.Beyond? {
      if ParsingHeader(b.state) {
        DispatchAgree(a.(nread := a.nread + 1), b.(nread := b.nread + 1), ch);
      } else {
        DispatchAgree(a, b, ch);
      }
    }
  }

  /** A run with a smaller counter does the same, as long as the larger one does not overflow. */
  lemma {:induction false} RunAgree(a: Core, b: Core, s: string)
    requires Wf(a) && Wf(b) && Agree(a, b) && Run(b, s).core.errno != HeaderOverflow
    ensures SameOut(Run(a, s), Run(b, s))
  {
    hide Step;
    if s != [] {
      var s', ch := s[..|s| - 1], s[|s| - 1];
      RunAgree(a, b, s');
      StepAgree(Run(a, s').core, Run(b, s').core, ch);
    }
  }
}
