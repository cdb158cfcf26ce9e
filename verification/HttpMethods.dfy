/**
 * The incremental method matcher is exact: it accepts a word if and only if the word is one of the
 * method names, and it reports that method.
 */
module HttpMethods {
  import opened Wrappers
  import opened HttpMachine

  /** The input without the line breaks that may precede a request. */
  function Trim(s: string): string {
    if s != [] && (s[0] == CR || s[0] == LF) then Trim(s[1..]) else s
  }

  lemma {:induction false} TrimSnoc(s: string, ch: char)
    ensures Trim(s + [ch]) == if Trim(s) == [] && (ch == CR || ch == LF) then [] else Trim(s) + [ch]
  {
    if s != [] {
      assert (s + [ch])[1..] == s[1..] + [ch];
      if s[0] == CR || s[0] == LF { TrimSnoc(s[1..], ch); }
    }
  }

  /** A change of guess keeps everything read so far and adds the letter just read. */
  lemma ReguessAgrees(m: Method, k: nat, ch: char)
    requires Reguess(m, k, ch).Some?
    ensures k < |MethodName(m)| && MethodName(Reguess(m, k, ch).value)[..k + 1] == MethodName(m)[..k] + [ch]
  {
    var word := MethodName(Reguess(m, k, ch).value);
    assert word[k] == ch && word[0] == MethodName(m)[0];
    assert k > 1 ==> word[1] == MethodName(m)[1];
    assert k > 2 ==> word[2] == MethodName(m)[2];
  }

  // ----- soundness: what the matcher has accepted is what it has read

  predicate Ready(c: Core) {
    Wf(c) && c.errno == OK && c.state.StartReq?
  }

  predicate AllSpaces(s: string) {
    forall i :: 0 <= i < |s| ==> s[i] == ' '
  }

  /** What the parser knows about a request line of which `s` has been read. */
  predicate Known(c: Core, s: string) {
    var t := Trim(s);
    && Wf(c)
    && (c.errno == OK ==>
          match c.state
          case StartReq => t == []
          case ReqMethod => 1 <= c.index && t == MethodName(c.reqMethod)[..c.index]
          case SpacesBeforeUrl =>
            var n := |MethodName(c.reqMethod)|;
            n < |t| && t[..n] == MethodName(c.reqMethod) && AllSpaces(t[n..])
          case Beyond => true
          case _ => false)
  }

  lemma KnownFirst(c: Core, s: string, ch: char)
    requires Known(c, s) && c.errno == OK && c.state.StartReq?
    ensures Known(OnStartReq(c, ch).core, s + [ch])
  {
    TrimSnoc(s, ch);
    var o := OnStartReq(c, ch).core;
    if o.errno == OK && o.state.ReqMethod? {
      assert MethodName(o.reqMethod)[..1] == [ch];
    }
  }

  lemma KnownLetter(c: Core, s: string, ch: char)
    requires Known(c, s) && c.errno == OK && c.state.ReqMethod?
    ensures Known(OnReqMethod(c, ch).core, s + [ch])
  {
    hide FirstGuess, Reguess, MethodName;
    TrimSnoc(s, ch);
    var name := MethodName(c.reqMethod);
    if ch == ' ' && c.index == |name| {
      assert name[..c.index] == name;
      assert (name + [ch])[..|name|] == name;
    } else if c.index < |name| && ch == name[c.index] {
      assert name[..c.index + 1] == name[..c.index] + [ch];
    } else if Reguess(c.reqMethod, c.index, ch).Some? {
      ReguessAgrees(c.reqMethod, c.index, ch);
    }
  }

  lemma KnownSpace(c: Core, s: string, ch: char)
    requires Known(c, s) && c.errno == OK && c.state.SpacesBeforeUrl? && ch == ' '
    ensures Known(c, s + [ch])
  {
    TrimSnoc(s, ch);
    var t, n := Trim(s), |MethodName(c.reqMethod)|;
    assert (t + [ch])[..n] == t[..n];
    assert (t + [ch])[n..] == t[n..] + [ch];
  }

  lemma KnownStep(c: Core, s: string, ch: char)
    requires Known(c, s)
    ensures Known(Step(c, ch).core, s + [ch])
  {
    var c' := c.(nread := c.nread + 1);
    if c.errno == OK {
      match c.state
      case StartReq => KnownFirst(c', s, ch);
      case ReqMethod => KnownLetter(c', s, ch);
      case SpacesBeforeUrl => if ch == ' ' { KnownSpace(c', s, ch); }
      case _ =>
    }
  }

  /** In every reachable state the bytes read since the message began are the matched prefix. */
  lemma {:induction false} MatcherInvariant(c: Core, s: string)
    requires Ready(c)
    ensures Known(Run(c, s).core, s)
  {
    hide Step, Known;
    if s == [] {
      KnownNothing(c);
    } else {
      var s' := s[..|s| - 1];
      MatcherInvariant(c, s');
      KnownStep(Run(c, s').core, s', s[|s| - 1]);
      assert s == s' + [s[|s| - 1]];
    }
  }

  lemma KnownNothing(c: Core)
    requires Ready(c)
    ensures Known(c, [])
  {
  }

  // ----- completeness: every method name is accepted

  /** The guess `g` the matcher may hold after `k` letters of the name of `m`. */
  predicate OnPath(g: Method, m: Method, k: nat) {
    || g == m
    || (k == 1 && match g
        case COUNT => m == CLOSE || m == CHECK || m == COMMIT || m == CONNECT || m == COPY
        case DUMP => m == DELETE
        case LOCK => m == LINK
        case OPTIONS => m == OPEN
        case PUT => m == POST || m == PATCH || m == PURGE
        case UNLOCK => m == UPDATE || m == UPSERT || m == UNLINK
        case _ => false)
    || (k == 2 && match g
        case COUNT => m == COMMIT || m == CONNECT || m == COPY
        case OPTIONS => m == OPEN
        case PUT => m == PURGE
        case UNLOCK => m == UNLINK
        case UPDATE => m == UPSERT
        case _ => false)
    || (k == 3 && g == UNLOCK && m == UNLINK)
  }

  lemma PathFirst(m: Method)
    ensures IsAlpha(MethodName(m)[0])
    ensures FirstGuess(MethodName(m)[0]).Some? && OnPath(FirstGuess(MethodName(m)[0]).value, m, 1)
  {
  }

  lemma NameIsAlpha(m: Method, k: nat)
    requires k < |MethodName(m)|
    ensures IsAlpha(MethodName(m)[k])
  {
  }

  lemma PathSelf(m: Method, k: nat)
    ensures OnPath(m, m, k)
  {
  }

  predicate TurnAt(g: Method, m: Method, k: nat) {
    && k < |MethodName(g)| && k < |MethodName(m)|
    && var ch := MethodName(m)[k];
       if MethodName(g)[k] == ch then OnPath(g, m, k + 1)
       else Reguess(g, k, ch).Some? && OnPath(Reguess(g, k, ch).value, m, k + 1)
  }

  lemma PathTurnCount(m: Method)
    requires OnPath(COUNT, m, 1) && COUNT != m
    ensures TurnAt(COUNT, m, 1)
  {
  }

  lemma PathTurn1(g: Method, m: Method)
    requires OnPath(g, m, 1) && g != m && g != COUNT && g != PUT
    ensures TurnAt(g, m, 1)
  {
  }

  lemma PathTurnPut(m: Method)
    requires OnPath(PUT, m, 1) && PUT != m
    ensures TurnAt(PUT, m, 1)
  {
  }

  lemma PathTurn2(g: Method, m: Method)
    requires OnPath(g, m, 2) && g != m
    ensures TurnAt(g, m, 2)
  {
  }

  lemma PathTurn3(g: Method, m: Method)
    requires OnPath(g, m, 3) && g != m
    ensures TurnAt(g, m, 3)
  {
  }

  lemma PathTurn(g: Method, m: Method, k: nat)
    requires OnPath(g, m, k) && g != m
    ensures TurnAt(g, m, k)
  {
    hide TurnAt;
    if k == 1 && g == COUNT {
      PathTurnCount(m);
    } else if k == 1 && g == PUT {
      PathTurnPut(m);
    } else if k == 1 {
      PathTurn1(g, m);
    } else if k == 2 {
      PathTurn2(g, m);
    } else {
      PathTurn3(g, m);
    }
  }

  predicate Reading(c: Core, m: Method, k: nat) {
    Wf(c) && c.errno == OK && c.state.ReqMethod? && c.index == k && OnPath(c.reqMethod, m, k)
  }

  lemma ReadFirst(c: Core, m: Method)
    requires Ready(c) && c.nread < HTTP_MAX_HEADER_SIZE
    ensures Reading(Step(c, MethodName(m)[0]).core, m, 1)
    ensures Step(c, MethodName(m)[0]).core.nread == c.nread + 1
  {
    hide OnPath, MethodName, FirstGuess;
    PathFirst(m);
    assert Step(c, MethodName(m)[0]) == OnStartReq(c.(nread := c.nread + 1), MethodName(m)[0]);
  }

  lemma ReadNext(c: Core, m: Method, k: nat)
    requires 1 <= k < |MethodName(m)| && Reading(c, m, k) && c.nread < HTTP_MAX_HEADER_SIZE
    ensures Reading(Step(c, MethodName(m)[k]).core, m, k + 1)
    ensures Step(c, MethodName(m)[k]).core.nread == c.nread + 1
  {
    hide OnPath, MethodName, Reguess;
    NameIsAlpha(m, k);
    if c.reqMethod != m { PathTurn(c.reqMethod, m, k); } else { PathSelf(m, k + 1); }
    var c' := c.(nread := c.nread + 1);
    assert Step(c, MethodName(m)[k]) == OnReqMethod(c', MethodName(m)[k]);
  }

  lemma {:induction false} ReadPrefix(c: Core, m: Method, k: nat)
    requires Ready(c) && 1 <= k <= |MethodName(m)| && c.nread + k <= HTTP_MAX_HEADER_SIZE
    ensures Reading(Run(c, MethodName(m)[..k]).core, m, k)
    ensures Run(c, MethodName(m)[..k]).core.nread == c.nread + k
  {
    hide Step, Reading, MethodName;
    var w := MethodName(m)[..k];
    assert w[..k - 1] == MethodName(m)[..k - 1];
    if k == 1 {
      ReadFirst(c, m);
      assert Run(c, w[..0]).core == c;
    } else {
      ReadPrefix(c, m, k - 1);
      ReadNext(Run(c, w[..k - 1]).core, m, k - 1);
    }
  }

  lemma PathLast(g: Method, m: Method)
    requires OnPath(g, m, |MethodName(m)|)
    ensures g == m
  {
  }

  lemma ReadSpace(c: Core, m: Method)
    requires Reading(c, m, |MethodName(m)|) && c.nread < HTTP_MAX_HEADER_SIZE
    ensures Accepted(Step(c, ' ').core, m)
  {
    PathLast(c.reqMethod, m);
    assert Step(c, ' ') == OnReqMethod(c.(nread := c.nread + 1), ' ');
  }

  predicate Accepted(c: Core, m: Method) {
    c.errno == OK && c.state.SpacesBeforeUrl? && c.reqMethod == m
  }

  lemma NameIsAccepted(c: Core, m: Method)
    requires Ready(c) && c.nread + |MethodName(m)| < HTTP_MAX_HEADER_SIZE
    ensures Accepted(Run(c, MethodName(m) + " ").core, m)
  {
    hide Step, Reading, MethodName, Accepted;
    var w := MethodName(m);
    assert w[..|w|] == w && (w + " ")[..|w|] == w;
    ReadPrefix(c, m, |w|);
    ReadSpace(Run(c, w).core, m);
  }

  lemma AcceptedIsName(c: Core, w: string, m: Method)
    requires Ready(c) && ' ' !in w
    requires Accepted(Run(c, w + " ").core, m)
    ensures Trim(w) == MethodName(m)
  {
    hide Run, MethodName;
    MatcherInvariant(c, w + " ");
    TrimSnoc(w, ' ');
    var t, n := Trim(w), |MethodName(m)|;
    TrimSubset(w);
    var u := t + " ";
    assert u[n..][0] == u[n];
  }

  lemma {:induction false} TrimSubset(w: string)
    ensures forall i :: 0 <= i < |Trim(w)| ==> Trim(w)[i] in w
  {
    if w != [] && (w[0] == CR || w[0] == LF) { TrimSubset(w[1..]); }
  }

  /** Line breaks before the word are read over. */
  lemma {:induction false} BreaksSkipped(c: Core, w: string, m: Method)
    requires Ready(c) && c.nread + |w| < HTTP_MAX_HEADER_SIZE && Trim(w) == MethodName(m)
    ensures Accepted(Run(c, w + " ").core, m)
    decreases |w|
  {
    hide Run, Accepted, MethodName;
    if w != [] && (w[0] == CR || w[0] == LF) {
      assert w + " " == [w[0]] + (w[1..] + " ");
      RunConcat(c, [w[0]], w[1..] + " ");
      BreakRead(c, w[0]);
      BreaksSkipped(c.(nread := c.nread + 1), w[1..], m);
    } else {
      NameIsAccepted(c, m);
    }
  }

  lemma BreakRead(c: Core, ch: char)
    requires Ready(c) && c.nread < HTTP_MAX_HEADER_SIZE && (ch == CR || ch == LF)
    ensures Run(c, [ch]) == Out(c.(nread := c.nread + 1), []) && Ready(c.(nread := c.nread + 1))
  {
    assert [ch][..0] == [] && Run(c, []) == Out(c, []);
    assert Step(c, ch) == OnStartReq(c.(nread := c.nread + 1), ch);
  }

  /**
   * A request that starts with the word `w` is taken as method `m` exactly when `w`, without the line
   * breaks before it, is the name of `m`, as long as the request line fits the header limit.
   */
  lemma MethodExact(c: Core, w: string, m: Method)
    requires Ready(c) && ' ' !in w && c.nread + |w| < HTTP_MAX_HEADER_SIZE
    ensures Accepted(Run(c, w + " ").core, m) <==> Trim(w) == MethodName(m)
  {
    hide Run, Accepted;
    if Accepted(Run(c, w + " ").core, m) { AcceptedIsName(c, w, m); }
    if Trim(w) == MethodName(m) { BreaksSkipped(c, w, m); }
  }

  /** A request line within the header limit never overflows it. */
  lemma {:induction false} WithinLimit(c: Core, s: string)
    requires Ready(c) && c.nread + |s| <= HTTP_MAX_HEADER_SIZE
    ensures var r := Run(c, s).core;
            r.errno != HeaderOverflow && (r.errno == OK && !r.state.Beyond? ==> r.nread == c.nread + |s|)
  {
    hide Step, Known;
    if s != [] {
      var s' := s[..|s| - 1];
      WithinLimit(c, s');
      MatcherInvariant(c, s');
      CountsOne(Run(c, s').core, s', s[|s| - 1]);
    }
  }

  lemma CountsOne(c: Core, s: string, ch: char)
    requires Known(c, s) && (c.errno == OK && !c.state.Beyond? ==> c.nread < HTTP_MAX_HEADER_SIZE)
    ensures c.errno != OK || c.state.Beyond? ==> Step(c, ch).core == c
    ensures c.errno == OK && !c.state.Beyond? ==>
              var r := Step(c, ch).core;
              r.errno != HeaderOverflow && (r.errno == OK && !r.state.Beyond? ==> r.nread == c.nread + 1)
  {
    hide MethodName, FirstGuess, Reguess;
  }
}
