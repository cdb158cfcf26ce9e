/**
 * Whole runs of the debouncer, as timed traces: calls, executions of the function and releases of
 * a key, at nondecreasing times. `State` replays a trace one step at a time. `Explains` says what
 * waits for a key without replaying: it names the calls since the last execution and a maximum.
 */
module DebouncerRuns {
  import opened Wrappers

  datatype Config = Config(throttle: nat, debounce: nat, busy: nat, minForce: nat, maxForce: nat)

  /** The assertions of the constructor. */
  predicate Accepted(c: Config) {
    && (c.throttle == 0 || c.throttle >= c.debounce)
    && c.busy >= c.debounce
    && c.minForce >= c.busy
    && c.maxForce >= c.busy
    && c.minForce <= c.maxForce
  }

  function Min(a: int, b: int): int { if a <= b then a else b }
  function Max(a: int, b: int): int { if a >= b then a else b }

  /** The task that waits for a key, and the forced deadline kept beside it. */
  datatype Waiting<A> =
    | Throttler(wakeup: int)
    | Function(wakeup: int, deadline: int, args: A)

  /** `force` is the value drawn by `random_time`. */
  datatype Step<K, A> =
    | Call(now: int, key: K, delay: nat, force: nat, args: A)
    | Run(now: int, key: K, args: A)
    | Release(now: int, key: K)

  type Waits<!K, A> = map<K, Waiting<A>>

  function Lookup<K, A>(m: Waits<K, A>, k: K): Option<Waiting<A>> {
    if k in m then Some(m[k]) else None
  }

  /** `delayed_debounce`. */
  function OnCall<K, A>(c: Config, w: Option<Waiting<A>>, s: Step<K, A>): Waiting<A>
    requires s.Call?
  {
    var first := w.None? || w.value.Throttler?;
    var deadline := if first then s.now + s.force + s.delay else w.value.deadline;
    var next := Min(s.now + (if first then c.debounce else c.busy) + s.delay, deadline);
    match w
    case None => Function(next, deadline, s.args)
    case Some(Throttler(t)) => Function(Max(next, t), deadline, s.args)
    case Some(Function(t, _, _)) => if next <= t then w.value else Function(next, deadline, s.args)
  }

  function Apply<K, A>(c: Config, m: Waits<K, A>, s: Step<K, A>): Waits<K, A> {
    match s
    case Call(_, k, _, _, _) => m[k := OnCall(c, Lookup(m, k), s)]
    case Run(now, k, _) => if c.throttle <= c.debounce then m - {k} else m[k := Throttler(now + c.throttle)]
    case Release(_, k) => m - {k}
  }

  /** The scheduler runs a task that was not cleared, at its wakeup time or later. */
  ghost predicate Enabled<K, A>(c: Config, m: Waits<K, A>, s: Step<K, A>) {
    match s
    case Call(_, _, _, force, _) => c.minForce <= force <= c.maxForce
    case Run(now, k, args) => k in m && m[k].Function? && m[k].wakeup <= now && m[k].args == args
    case Release(now, k) => k in m && m[k].Throttler? && m[k].wakeup <= now
  }

  function State<K, A>(c: Config, h: seq<Step<K, A>>): Waits<K, A> {
    if h == [] then map[] else Apply(c, State(c, h[..|h| - 1]), h[|h| - 1])
  }

  ghost predicate Legal<K, A>(c: Config, h: seq<Step<K, A>>) {
    h != [] ==>
      var h', s := h[..|h| - 1], h[|h| - 1];
      Legal(c, h') && Enabled(c, State(c, h'), s) && (h' != [] ==> h'[|h'| - 1].now <= s.now)
  }

  // ----- what a trace says about a key, without replaying it

  /** The calls for `k` since the function last ran for it. */
  function Burst<K(==), A>(h: seq<Step<K, A>>, k: K): (b: seq<Step<K, A>>)
    ensures forall i :: 0 <= i < |b| ==> b[i].Call?
  {
    if h == [] then [] else
      var b, s := Burst(h[..|h| - 1], k), h[|h| - 1];
      if s.key != k || s.Release? then b else if s.Run? then [] else b + [s]
  }

  function LastRun<K(==), A>(h: seq<Step<K, A>>, k: K): Option<int> {
    if h == [] then None else
      var s := h[|h| - 1];
      if s.key == k && s.Run? then Some(s.now) else LastRun(h[..|h| - 1], k)
  }

  /** The throttle window of the last execution has ended. */
  predicate Freed<K(==), A>(h: seq<Step<K, A>>, k: K) {
    h != [] &&
    var s := h[|h| - 1];
    if s.key == k && !s.Call? then s.Release? else Freed(h[..|h| - 1], k)
  }

  /** Fixed by the first call of the burst. */
  function Forced<K, A>(b: seq<Step<K, A>>): int
    requires b != [] && b[0].Call?
  {
    b[0].now + b[0].force + b[0].delay
  }

  /** When call `i` of the burst asks to be woken. */
  function Asked<K, A>(c: Config, b: seq<Step<K, A>>, i: nat): int
    requires i < |b| && b[0].Call? && b[i].Call?
  {
    if i == 0 then b[0].now + c.debounce + b[0].delay
    else Min(b[i].now + c.busy + b[i].delay, Forced(b))
  }

  predicate Calls<K, A>(b: seq<Step<K, A>>) {
    b != [] && forall i :: 0 <= i < |b| ==> b[i].Call?
  }

  /** No call of the burst asks for a later time, and the window of the last execution is over. */
  predicate Latest<K, A>(c: Config, b: seq<Step<K, A>>, last: Option<int>, wakeup: int)
    requires Calls(b)
  {
    && (forall i :: 0 <= i < |b| ==> Asked(c, b, i) <= wakeup)
    && (last.Some? ==> last.value + c.throttle <= wakeup)
  }

  /** Call `i` set the time: the first call, unless a later one asked for more than all before it. */
  predicate Leads<K, A>(c: Config, b: seq<Step<K, A>>, last: Option<int>, wakeup: int, i: nat)
    requires Calls(b) && i < |b|
  {
    if i == 0 then
      wakeup == Asked(c, b, 0) || (last.Some? && wakeup == last.value + c.throttle)
    else
      && wakeup == Asked(c, b, i)
      && (forall j :: 0 <= j < i ==> Asked(c, b, j) < wakeup)
      && (last.Some? ==> last.value + c.throttle < wakeup)
  }

  ghost predicate Fits<K, A>(c: Config, b: seq<Step<K, A>>, last: Option<int>, w: Waiting<A>)
    requires Calls(b)
  {
    && w.Function?
    && w.deadline == Forced(b)
    && w.wakeup <= Max(Forced(b), if last.Some? then last.value + c.throttle else Forced(b))
    && Latest(c, b, last, w.wakeup)
    && exists i :: 0 <= i < |b| && Leads(c, b, last, w.wakeup, i) && w.args == b[i].args
  }

  /** What waits for `k` after `h`. */
  ghost predicate Explains<K, A>(c: Config, h: seq<Step<K, A>>, k: K) {
    var b, last, w := Burst(h, k), LastRun(h, k), Lookup(State(c, h), k);
    if b != [] then
      w.Some? && Fits(c, b, last, w.value)
    else
      match w
      case None =>
        last.Some? ==>
          && h != [] && last.value + c.throttle <= h[|h| - 1].now + c.debounce
          && (c.throttle <= c.debounce || Freed(h, k))
      case Some(Throttler(t)) =>
        last.Some? && t == last.value + c.throttle && c.throttle > c.debounce && !Freed(h, k)
      case Some(_) => false
  }

  // ----- every legal trace is explained

  lemma FirstCall<K, A>(c: Config, last: Option<int>, w: Option<Waiting<A>>, s: Step<K, A>)
    requires Accepted(c) && s.Call? && c.minForce <= s.force
    requires w.None? ==> last.Some? ==> last.value + c.throttle <= s.now + c.debounce
    requires w.Some? ==> w.value.Throttler? && last.Some? && w.value.wakeup == last.value + c.throttle
    ensures Fits(c, [s], last, OnCall(c, w, s))
  {
    var b, r := [s], OnCall(c, w, s);
    assert Asked(c, b, 0) == s.now + c.debounce + s.delay;
    assert Leads(c, b, last, r.wakeup, 0);
  }

  lemma AskedBefore<K, A>(c: Config, b: seq<Step<K, A>>, s: Step<K, A>, i: nat)
    requires Calls(b) && s.Call? && i < |b|
    ensures Calls(b + [s]) && Asked(c, b + [s], i) == Asked(c, b, i) && Forced(b + [s]) == Forced(b)
  {
  }

  lemma NextCall<K, A>(c: Config, b: seq<Step<K, A>>, last: Option<int>, w: Waiting<A>, s: Step<K, A>)
    requires Calls(b) && s.Call? && Fits(c, b, last, w)
    ensures Calls(b + [s]) && Fits(c, b + [s], last, OnCall(c, Some(w), s))
  {
    var b', r, n := b + [s], OnCall(c, Some(w), s), |b|;
    forall i | 0 <= i < n ensures Asked(c, b', i) == Asked(c, b, i) && Forced(b') == Forced(b) {
      AskedBefore(c, b, s, i);
    }
    assert Forced(b') == Forced(b) && Asked(c, b', n) == Min(s.now + c.busy + s.delay, Forced(b));
    if Asked(c, b', n) <= w.wakeup {
      var i :| 0 <= i < n && Leads(c, b, last, w.wakeup, i) && w.args == b[i].args;
      assert Leads(c, b', last, r.wakeup, i) && r.args == b'[i].args;
    } else {
      assert Leads(c, b', last, r.wakeup, n) && r.args == b'[n].args;
    }
  }

  lemma ExplainCall<K, A>(c: Config, h: seq<Step<K, A>>, s: Step<K, A>, k: K)
    requires Accepted(c) && Legal(c, h + [s]) && Legal(c, h) && s.Call? && s.key == k && Explains(c, h, k)
    requires State(c, h + [s]) == Apply(c, State(c, h), s) && (h != [] ==> h[|h| - 1].now <= s.now)
    requires c.minForce <= s.force
    ensures Explains(c, h + [s], k)
  {
    hide Fits, OnCall, Legal, State;
    var b, last, w := Burst(h, k), LastRun(h, k), Lookup(State(c, h), k);
    assert (h + [s])[..|h|] == h;
    if b != [] {
      NextCall(c, b, last, w.value, s);
    } else {
      FirstCall(c, last, w, s);
      assert b + [s] == [s];
    }
  }

  lemma {:induction false} Explained<K, A>(c: Config, h: seq<Step<K, A>>, k: K)
    requires Accepted(c) && Legal(c, h)
    ensures Explains(c, h, k)
  {
    if h != [] {
      var h', s := h[..|h| - 1], h[|h| - 1];
      assert h == h' + [s];
      Explained(c, h', k);
      if s.key == k && s.Call? {
        ExplainCall(c, h', s, k);
      } else {
        ExplainOther(c, h', s, k);
      }
    }
  }

  lemma ExplainOther<K, A>(c: Config, h: seq<Step<K, A>>, s: Step<K, A>, k: K)
    requires Accepted(c) && Legal(c, h + [s]) && Legal(c, h) && !(s.Call? && s.key == k) && Explains(c, h, k)
    requires State(c, h + [s]) == Apply(c, State(c, h), s) && (h != [] ==> h[|h| - 1].now <= s.now)
    requires Enabled(c, State(c, h), s)
    ensures Explains(c, h + [s], k)
  {
    hide OnCall, Legal, State, Latest, Leads, Forced;
    assert (h + [s])[..|h|] == h;
  }

  // ----- prefixes of traces

  lemma {:induction false} LegalPrefix<K, A>(c: Config, h: seq<Step<K, A>>, n: nat)
    requires Legal(c, h) && n <= |h|
    ensures Legal(c, h[..n])
  {
    if n == |h| {
      assert h[..n] == h;
    } else {
      LegalPrefix(c, h[..|h| - 1], n);
      assert h[..|h| - 1][..n] == h[..n];
    }
  }

  lemma {:induction false} LastRunAfter<K, A>(c: Config, h: seq<Step<K, A>>, i: nat, k: K)
    requires Legal(c, h) && i < |h| && h[i].Run? && h[i].key == k
    ensures LastRun(h, k).Some? && h[i].now <= LastRun(h, k).value <= h[|h| - 1].now
  {
    if i < |h| - 1 {
      LastRunAfter(c, h[..|h| - 1], i, k);
    }
  }

  // ----- the promises

  /** Two executions for one key are never closer than the throttle time, in any run. */
  lemma ThrottleSafety<K, A>(c: Config, h: seq<Step<K, A>>, i: nat, j: nat)
    requires Accepted(c) && Legal(c, h) && i < j < |h|
    requires h[i].Run? && h[j].Run? && h[i].key == h[j].key
    ensures h[j].now - h[i].now >= c.throttle
  {
    hide State, Leads;
    var k, h' := h[j].key, h[..j];
    LegalPrefix(c, h, j + 1);
    LegalPrefix(c, h, j);
    assert h[..j + 1][..j] == h' && h[..j + 1][j] == h[j];
    LastRunAfter(c, h', i, k);
    Explained(c, h', k);
  }

  /**
   * The function waits for a key exactly when a call came since it last ran. It then wakes no later
   * than the forced deadline of the burst's first call or the end of the throttle window, whichever is
   * later, and not before the first call's own timeout.
   */
  lemma DeferralBound<K, A>(c: Config, h: seq<Step<K, A>>, k: K)
    requires Accepted(c) && Legal(c, h)
    ensures var b, last, w := Burst(h, k), LastRun(h, k), Lookup(State(c, h), k);
            && (b != [] <==> w.Some? && w.value.Function?)
            && (b != [] ==>
                  var latest := b[0].now + c.maxForce + b[0].delay;
                  && b[0].now + c.debounce + b[0].delay <= w.value.wakeup
                  && w.value.wakeup <= Max(latest, if last.Some? then last.value + c.throttle else latest))
  {
    hide State, Leads;
    Explained(c, h, k);
    var b, w := Burst(h, k), Lookup(State(c, h), k);
    if b != [] {
      BurstForce(c, h, k);
      assert Asked(c, b, 0) <= w.value.wakeup;
    }
  }

  lemma {:induction false} BurstForce<K, A>(c: Config, h: seq<Step<K, A>>, k: K)
    requires Legal(c, h) && Burst(h, k) != []
    ensures c.minForce <= Burst(h, k)[0].force <= c.maxForce
  {
    hide State;
    var h', s := h[..|h| - 1], h[|h| - 1];
    if Burst(h', k) != [] {
      BurstForce(c, h', k);
    }
  }

  /** What the function is run with was passed by a call made since it last ran. */
  lemma RunsWithOwnCall<K, A>(c: Config, h: seq<Step<K, A>>, j: nat)
    requires Accepted(c) && Legal(c, h) && j < |h| && h[j].Run?
    ensures exists s :: s in Burst(h[..j], h[j].key) && s.args == h[j].args
  {
    hide State, Leads, Latest, Forced;
    var k, h' := h[j].key, h[..j];
    LegalPrefix(c, h, j + 1);
    LegalPrefix(c, h, j);
    assert h[..j + 1][..j] == h' && h[..j + 1][j] == h[j];
    Explained(c, h', k);
    var b := Burst(h', k);
    var i :| 0 <= i < |b| && b[i].args == h[j].args;
    assert b[i] in b;
  }

  /** Until it runs, a waiting function is only ever put off: no later call makes it wake earlier. */
  lemma {:induction false} NeverHastened<K, A>(c: Config, h: seq<Step<K, A>>, n: nat, k: K)
    requires Legal(c, h) && n <= |h|
    requires Lookup(State(c, h[..n]), k).Some? && State(c, h[..n])[k].Function?
    requires forall i :: n <= i < |h| ==> !(h[i].Run? && h[i].key == k)
    ensures Lookup(State(c, h), k).Some? && State(c, h)[k].Function?
    ensures State(c, h[..n])[k].wakeup <= State(c, h)[k].wakeup
    ensures State(c, h[..n])[k].deadline == State(c, h)[k].deadline
  {
    if n == |h| {
      assert h[..n] == h;
    } else {
      var h' := h[..|h| - 1];
      assert h'[..n] == h[..n];
      NeverHastened(c, h', n, k);
    }
  }
}
