/**
 * `normalize_path` without `keep_slash`: one pass over a character buffer that backs up over what it
 * wrote. On absolute paths it is a fold over the components between slashes.
 */
module NormalizePath {

  // ----- the fold

  /** More text for the last component. */
  function Extend(cs: seq<string>, w: string): (r: seq<string>)
    requires cs != []
    ensures |r| == |cs|
  {
    cs[..|cs| - 1] + [cs[|cs| - 1] + w]
  }

  /** The components between slashes; there is always at least one. */
  function Split(s: string): (cs: seq<string>)
    ensures cs != []
  {
    if s == [] then [""] else
      var cs, ch := Split(s[..|s| - 1]), s[|s| - 1];
      if ch == '/' then cs + [""] else Extend(cs, [ch])
  }

  predicate AllDots(c: string) {
    forall i :: 0 <= i < |c| ==> c[i] == '.'
  }

  function DropLast(stack: seq<string>, n: nat): seq<string> {
    if n >= |stack| then [] else stack[..|stack| - n]
  }

  /** An empty component is skipped, k dots remove up to k - 1 components, anything else is added. */
  function Enter(stack: seq<string>, c: string): seq<string> {
    if c == "" then stack else if AllDots(c) then DropLast(stack, |c| - 1) else stack + [c]
  }

  function Stack(cs: seq<string>): seq<string> {
    if cs == [] then [] else Enter(Stack(cs[..|cs| - 1]), cs[|cs| - 1])
  }

  /** Every component between slashes. */
  function Render(stack: seq<string>): (r: string)
    ensures r != "" && r[0] == '/' && r[|r| - 1] == '/'
    ensures |stack| == 0 ==> r == "/"
  {
    if stack == [] then "/" else Render(stack[..|stack| - 1]) + stack[|stack| - 1] + "/"
  }

  function Finish(r: string, slashed: bool): string {
    if |r| > 1 && !slashed then r[..|r| - 1] else r
  }

  predicate Absolute(src: string) {
    src != "" && src[0] == '/'
  }

  function Normal(src: string, slashed: bool): string
    requires Absolute(src)
  {
    Finish(Render(Stack(Split(src[1..]))), slashed)
  }

  // ----- what splitting means

  function Join(cs: seq<string>): string
    requires cs != []
  {
    if |cs| == 1 then cs[0] else Join(cs[..|cs| - 1]) + "/" + cs[|cs| - 1]
  }

  /** The components hold no slash, and joined by slashes they are the text. */
  lemma {:induction false} SplitMeans(s: string)
    ensures forall i :: 0 <= i < |Split(s)| ==> '/' !in Split(s)[i]
    ensures Join(Split(s)) == s
  {
    if s != [] {
      var s', ch := s[..|s| - 1], s[|s| - 1];
      SplitMeans(s');
      var cs, r := Split(s'), Split(s);
      assert s == s' + [ch];
      if ch == '/' {
        assert r[..|r| - 1] == cs;
      } else {
        assert r[..|r| - 1] == cs[..|cs| - 1];
        if |cs| > 1 {
          assert Join(r) == Join(cs[..|cs| - 1]) + "/" + (cs[|cs| - 1] + [ch]);
        }
      }
    }
  }

  /** A component that stays: it has a character other than a dot, and no slash. */
  predicate Kept(c: string) {
    !AllDots(c) && '/' !in c
  }

  predicate AllKept(stack: seq<string>) {
    forall i :: 0 <= i < |stack| ==> Kept(stack[i])
  }

  lemma {:induction false} StackKept(cs: seq<string>)
    requires forall i :: 0 <= i < |cs| ==> '/' !in cs[i]
    ensures AllKept(Stack(cs))
  {
    if cs != [] {
      StackKept(cs[..|cs| - 1]);
    }
  }

  // ----- idempotence

  lemma SplitSnoc(s: string, ch: char)
    ensures Split(s + [ch]) == if ch == '/' then Split(s) + [""] else Extend(Split(s), [ch])
  {
    assert (s + [ch])[..|s|] == s;
  }

  lemma ExtendTwice(cs: seq<string>, a: string, b: string)
    requires cs != []
    ensures Extend(Extend(cs, a), b) == Extend(cs, a + b)
  {
    var last := cs[|cs| - 1];
    assert last + a + b == last + (a + b);
  }

  lemma ExtendNothing(cs: seq<string>)
    requires cs != []
    ensures Extend(cs, "") == cs
  {
    var last := cs[|cs| - 1];
    assert last + "" == last;
  }

  lemma {:induction false} SplitAppend(s: string, w: string)
    requires '/' !in w
    ensures Split(s + w) == Extend(Split(s), w)
    decreases |w|
  {
    hide Split;
    if w == "" {
      assert s + w == s;
      ExtendNothing(Split(s));
    } else {
      var w', ch := w[..|w| - 1], w[|w| - 1];
      assert w == w' + [ch] && s + w == s + w' + [ch];
      SplitAppend(s, w');
      SplitSnoc(s + w', ch);
      ExtendTwice(Split(s), w', [ch]);
    }
  }

  lemma SplitSlash(s: string)
    ensures Split(s + "/") == Split(s) + [""]
  {
    SplitSnoc(s, '/');
  }

  lemma RenderSnoc(stack: seq<string>, c: string)
    ensures Render(stack + [c]) == Render(stack) + c + "/"
  {
    assert (stack + [c])[..|stack|] == stack;
  }

  lemma StackEmpty(cs: seq<string>)
    ensures Stack(cs + [""]) == Stack(cs)
  {
    assert (cs + [""])[..|cs|] == cs;
  }

  /** Splitting what was rendered gives the components back, between two empty ones. */
  lemma {:induction false} SplitRender(stack: seq<string>)
    requires AllKept(stack)
    ensures Split(Render(stack)) == [""] + stack + [""]
  {
    hide Split, Render;
    if stack == [] {
      SplitRoot();
    } else {
      var stack', c := stack[..|stack| - 1], stack[|stack| - 1];
      assert stack == stack' + [c];
      SplitRender(stack');
      RenderSnoc(stack', c);
      SplitAppend(Render(stack'), c);
      SplitSlash(Render(stack') + c);
      ExtendLast([""] + stack', c);
    }
  }

  lemma ExtendLast(cs: seq<string>, c: string)
    ensures Extend(cs + [""], c) == cs + [c]
  {
    assert "" + c == c;
  }

  lemma SplitRoot()
    ensures Render([]) == "/" && Split("/") == ["", ""] == [""] + [] + [""]
  {
    SplitSlash("");
  }

  lemma {:induction false} StackOfKept(stack: seq<string>)
    requires AllKept(stack)
    ensures Stack([""] + stack) == stack
  {
    var cs := [""] + stack;
    if stack != [] {
      var stack' := stack[..|stack| - 1];
      StackOfKept(stack');
      assert cs[..|cs| - 1] == [""] + stack';
      assert stack == stack' + [stack[|stack| - 1]];
    } else {
      assert cs[..0] == [];
    }
  }

  lemma {:induction false} SplitTail(s: string)
    requires Absolute(s)
    ensures Split(s) == [""] + Split(s[1..])
    decreases |s|
  {
    hide Split;
    if |s| == 1 {
      assert s == "/" && s[1..] == "";
      SplitRoot();
      SplitNothing();
    } else {
      var s', ch := s[..|s| - 1], s[|s| - 1];
      SplitTail(s');
      assert s == s' + [ch] && s[1..] == s'[1..] + [ch];
      SplitSnoc(s', ch);
      SplitSnoc(s'[1..], ch);
    }
  }

  lemma SplitNothing()
    ensures Split("") == [""]
  {
  }

  lemma {:induction false} StackTail(cs: seq<string>)
    ensures Stack([""] + cs) == Stack(cs)
  {
    var ds := [""] + cs;
    if cs != [] {
      StackTail(cs[..|cs| - 1]);
      assert ds[..|ds| - 1] == [""] + cs[..|cs| - 1];
    } else {
      assert ds[..0] == [];
    }
  }

  lemma NormalIs(src: string, slashed: bool)
    requires Absolute(src)
    ensures Normal(src, slashed) == Finish(Render(Stack(Split(src))), slashed)
    ensures AllKept(Stack(Split(src)))
  {
    hide Split, Stack;
    SplitTail(src);
    StackTail(Split(src[1..]));
    SplitMeans(src);
    StackKept(Split(src));
  }

  lemma RenderedStack(stack: seq<string>, slashed: bool)
    requires AllKept(stack)
    ensures Absolute(Finish(Render(stack), slashed)) && Stack(Split(Finish(Render(stack), slashed))) == stack
  {
    hide Split, Stack, Kept;
    var r := Render(stack);
    SplitRender(stack);
    StackOfKept(stack);
    StackEmpty([""] + stack);
    if |r| > 1 && !slashed {
      var t := r[..|r| - 1];
      assert r == t + "/";
      SplitSlash(t);
      assert Split(t) + [""] == [""] + stack + [""];
      assert Split(t) == (Split(t) + [""])[..|Split(t)|] == [""] + stack;
    }
  }

  /** Normalising again changes nothing, and the last choice of `slashed` is the one that shows. */
  lemma Idempotent(src: string, slashed: bool, again: bool)
    requires Absolute(src)
    ensures var r := Normal(src, slashed); Absolute(r) && Normal(r, again) == Normal(src, again)
  {
    hide Split, Stack, Render, Finish;
    NormalIs(src, slashed);
    NormalIs(src, again);
    RenderedStack(Stack(Split(src)), slashed);
    NormalIs(Normal(src, slashed), again);
  }

  // ----- what a normal path is, without the fold

  lemma StackSnoc(cs: seq<string>, w: string)
    ensures Stack(cs + [w]) == Enter(Stack(cs), w)
  {
    assert (cs + [w])[..|cs|] == cs;
  }

  lemma StackMore(p: string, w: string)
    requires '/' !in w
    ensures Stack(Split(p + "/" + w)) == Enter(Stack(Split(p)), w)
  {
    hide Split, Stack, Enter;
    SplitSlash(p);
    SplitAppend(p + "/", w);
    ExtendLast(Split(p), w);
    StackSnoc(Split(p), w);
  }

  /** Paths with the same components left are the same when normalised. */
  lemma SameStack(p: string, q: string, slashed: bool)
    requires Absolute(p) && Absolute(q) && Stack(Split(p)) == Stack(Split(q))
    ensures Normal(p, slashed) == Normal(q, slashed)
  {
    hide Split, Stack, Normal;
    NormalIs(p, slashed);
    NormalIs(q, slashed);
  }

  function Dots(k: nat): (d: string)
    ensures |d| == k && AllDots(d) && '/' !in d
  {
    seq(k, i => '.')
  }

  /** A further slash and a single dot make no difference. */
  lemma SlashAndDot(p: string, slashed: bool)
    requires Absolute(p)
    ensures Normal(p + "/", slashed) == Normal(p, slashed) == Normal(p + "/" + ".", slashed)
  {
    hide Split, Stack, Normal;
    StackMore(p, "");
    StackMore(p, ".");
    assert p + "/" + "" == p + "/";
    SameStack(p, p + "/", slashed);
    SameStack(p, p + "/" + ".", slashed);
  }

  /** Two dots take back the component before them, and nothing at the root. */
  lemma TwoDots(p: string, c: string, slashed: bool)
    requires Absolute(p) && Kept(c)
    ensures Normal(p + "/" + c + "/" + "..", slashed) == Normal(p, slashed)
    ensures Normal("/" + "..", slashed) == "/"
  {
    hide Split, Stack, Normal;
    var q := p + "/" + c;
    StackMore(p, c);
    StackMore(q, "..");
    var stack := Stack(Split(p));
    assert (stack + [c])[..|stack|] == stack;
    SameStack(p, q + "/" + "..", slashed);
    RootUp(slashed);
  }

  lemma RootUp(slashed: bool)
    ensures Normal("/" + "..", slashed) == "/"
  {
    hide Split, Stack, Normal;
    StackMore("", "..");
    assert "" + "/" + ".." == "/" + "..";
    SplitNothing();
    StackSnoc([], "");
    assert [] + [""] == [""];
    assert Stack([]) == [] by { StackNone(); }
    NormalIs("/" + "..", slashed);
  }

  lemma StackNone()
    ensures Stack([]) == []
  {
  }

  /** Every further dot takes back one more. */
  lemma MoreDots(p: string, k: nat, slashed: bool)
    requires Absolute(p) && k >= 1
    ensures Normal(p + "/" + Dots(k + 1), slashed) == Normal(p + "/" + Dots(k) + "/" + "..", slashed)
  {
    hide Split, Stack, Normal;
    var q := p + "/" + Dots(k);
    StackMore(p, Dots(k + 1));
    StackMore(p, Dots(k));
    StackMore(q, "..");
    SameStack(p + "/" + Dots(k + 1), q + "/" + "..", slashed);
  }

  /** A path of components that stay is normal already, with or without its final slash. */
  lemma AlreadyNormal(stack: seq<string>, slashed: bool, before: bool)
    requires AllKept(stack)
    ensures var path := Finish(Render(stack), before);
            Absolute(path) && Normal(path, slashed) == Finish(Render(stack), slashed)
  {
    hide Split, Stack, Render, Normal;
    RenderedStack(stack, before);
    NormalIs(Finish(Render(stack), before), slashed);
  }

  /** A normal path is the root, or ends in a slash exactly if that was asked for. */
  lemma FinalSlash(src: string, slashed: bool)
    requires Absolute(src)
    ensures var r := Normal(src, slashed);
            r == "/" || (r != "" && (r[|r| - 1] == '/' <==> slashed))
    ensures Normal(src, false) == "/" || Normal(src, true) == Normal(src, false) + "/"
  {
    hide Split, Stack;
    NormalIs(src, slashed);
    var stack := Stack(Split(src));
    var r := Render(stack);
    if stack != [] {
      var init, c := stack[..|stack| - 1], stack[|stack| - 1];
      assert Kept(c) && c[|c| - 1] in c;
      assert r == Render(init) + c + "/" && r[|r| - 2] == c[|c| - 1];
      assert r == r[..|r| - 1] + "/";
    }
  }

  // ----- the buffer

  /** Backing up: what is left of `s` and of `levels` when the inner loop stops. */
  function Back(s: string, levels: nat): (r: (string, nat))
    ensures |r.0| <= |s| && r.0 == s[..|r.0|]
  {
    if levels == 0 || |s| <= 1 then (s, levels)
    else Back(s[..|s| - 1], if s[|s| - 1] == '/' then levels - 1 else levels)
  }

  function WithSlash(s: string): string {
    if s == "" || s[|s| - 1] != '/' then s + "/" else s
  }

  lemma {:induction false} BackOver(s: string, w: string, levels: nat)
    requires s != "" && '/' !in w && levels > 0
    ensures Back(s + w, levels) == Back(s, levels)
    decreases w
  {
    if w == "" {
      assert s + w == s;
    } else {
      assert (s + w)[..|s + w| - 1] == s + w[..|w| - 1];
      BackOver(s, w[..|w| - 1], levels);
    }
  }

  lemma {:induction false} BackRender(stack: seq<string>, levels: nat)
    requires AllKept(stack) && levels > 0
    ensures WithSlash(Back(Render(stack), levels).0) == Render(DropLast(stack, levels - 1))
    ensures Back(Render(stack), levels).1 > 0 ==> DropLast(stack, levels - 1) == []
  {
    hide Render, DropLast, WithSlash;
    if stack == [] {
      RenderRoot(levels);
    } else {
      var stack', c := stack[..|stack| - 1], stack[|stack| - 1];
      assert stack == stack' + [c] && Kept(c) && c != "";
      RenderSnoc(stack', c);
      BackSlash(Render(stack') + c, levels);
      if levels == 1 {
        DropNone(stack, stack', c);
        BackNothing(Render(stack') + c);
      } else {
        BackOver(Render(stack'), c, levels - 1);
        BackRender(stack', levels - 1);
        DropMore(stack', c, levels - 1);
      }
    }
  }

  lemma RenderRoot(levels: nat)
    ensures Back(Render([]), levels) == ("/", levels) && WithSlash("/") == "/" && DropLast([], levels) == []
    ensures Render([]) == "/" && (levels > 0 ==> DropLast([], levels - 1) == [])
  {
  }

  lemma BackSlash(s: string, levels: nat)
    requires s != "" && levels > 0
    ensures Back(s + "/", levels) == Back(s, levels - 1)
  {
    assert (s + "/")[..|s|] == s;
  }

  lemma BackNothing(s: string)
    ensures Back(s, 0) == (s, 0)
  {
  }

  lemma DropNone(stack: seq<string>, stack': seq<string>, c: string)
    requires stack == stack' + [c] && Kept(c)
    ensures DropLast(stack, 0) == stack && WithSlash(Render(stack') + c) == Render(stack') + c + "/"
  {
    hide Render;
    var s := Render(stack') + c;
    assert c != "" && s[|s| - 1] == c[|c| - 1];
  }

  lemma DropMore(stack: seq<string>, c: string, n: nat)
    requires n >= 1
    ensures DropLast(stack + [c], n) == DropLast(stack, n - 1)
  {
  }

  /** Between two components, or inside one: what the buffer and the counter hold. */
  predicate Holds(cs: seq<string>, content: string, levels: nat)
    requires cs != []
  {
    var stack, part := Stack(cs[..|cs| - 1]), cs[|cs| - 1];
    && content == Render(stack) + part
    && AllKept(stack) && '/' !in part
    && (if AllDots(part) then levels >= |part| && (levels > |part| ==> stack == []) else levels == 0)
  }

  lemma HoldsDot(cs: seq<string>, content: string, levels: nat)
    requires cs != [] && Holds(cs, content, levels)
    ensures content != "" && (AllDots(cs[|cs| - 1]) <==> levels != 0 || content[|content| - 1] == '/')
    ensures var cs' := cs[..|cs| - 1] + [cs[|cs| - 1] + "."];
            Holds(cs', content + ".", if levels != 0 || content[|content| - 1] == '/' then levels + 1 else 0)
  {
    hide Stack;
    var part := cs[|cs| - 1];
    var cs' := cs[..|cs| - 1] + [part + "."];
    assert cs'[..|cs'| - 1] == cs[..|cs| - 1];
    assert AllDots(part + ".") <==> AllDots(part) by {
      assert (part + ".")[..|part|] == part;
    }
    if part != "" {
      assert content[|content| - 1] == part[|part| - 1];
    }
  }

  lemma HoldsChar(cs: seq<string>, content: string, levels: nat, ch: char)
    requires cs != [] && Holds(cs, content, levels) && ch != '.' && ch != '/'
    ensures Holds(cs[..|cs| - 1] + [cs[|cs| - 1] + [ch]], content + [ch], 0)
  {
    hide Stack;
    var part := cs[|cs| - 1];
    var cs' := cs[..|cs| - 1] + [part + [ch]];
    assert cs'[..|cs'| - 1] == cs[..|cs| - 1];
    assert (part + [ch])[|part|] == ch;
  }

  lemma HoldsSlash(cs: seq<string>, content: string, levels: nat)
    requires cs != [] && Holds(cs, content, levels)
    ensures var r := Back(content, levels); Holds(cs + [""], WithSlash(r.0), r.1)
  {
    var stack, part := Stack(cs[..|cs| - 1]), cs[|cs| - 1];
    var r := Back(content, levels);
    assert (cs + [""])[..|cs|] == cs;
    assert Stack(cs) == Enter(stack, part);
    hide Stack;
    Closed(stack, part, levels);
    assert WithSlash(r.0) == WithSlash(r.0) + "";
  }

  lemma Closed(stack: seq<string>, part: string, levels: nat)
    requires AllKept(stack) && '/' !in part
    requires if AllDots(part) then levels >= |part| && (levels > |part| ==> stack == []) else levels == 0
    ensures var r := Back(Render(stack) + part, levels);
            && WithSlash(r.0) == Render(Enter(stack, part)) && AllKept(Enter(stack, part))
            && (r.1 > 0 ==> Enter(stack, part) == [])
  {
    hide Render, WithSlash, Back;
    if levels > 0 {
      BackOver(Render(stack), part, levels);
      BackRender(stack, levels);
      if part == "" {
        RenderRoot(levels);
      }
    } else {
      BackNothing(Render(stack) + part);
      RenderedSlash(stack);
      if part == "" {
        assert Render(stack) + part == Render(stack);
      } else {
        DropNone(stack + [part], stack, part);
        RenderSnoc(stack, part);
      }
    }
  }

  lemma RenderedSlash(stack: seq<string>)
    ensures WithSlash(Render(stack)) == Render(stack)
  {
  }

  // ----- the pass over the buffer

  /** What the buffer holds when `i` characters of `src` and a final slash have been read. */
  predicate Reached(src: string, i: nat, content: string, levels: nat)
    requires i <= |src| + 1
  {
    if i == 0 then content == "" && levels == 0
    else Absolute(src) ==> Holds(Split((src + "/")[1..i]), content, levels)
  }

  function StepLevels(content: string, levels: nat, ch: char): nat {
    if ch == '.' && (levels != 0 || content == "" || content[|content| - 1] == '/') then levels + 1
    else if ch == '/' then Back(content, levels).1
    else 0
  }

  function StepContent(content: string, levels: nat, ch: char): string {
    if ch == '/' then WithSlash(Back(content, levels).0) else content + [ch]
  }

  lemma ReachedStep(src: string, i: nat, content: string, levels: nat)
    requires i <= |src| && Reached(src, i, content, levels)
    ensures var ch := (src + "/")[i];
            Reached(src, i + 1, StepContent(content, levels, ch), StepLevels(content, levels, ch))
  {
    hide Split, Holds, Back;
    var text := src + "/";
    var ch := text[i];
    if Absolute(src) {
      if i == 0 {
        assert text[1..1] == "";
        SplitNothing();
        BackNothing("");
        assert WithSlash("") == "/";
        HoldsRoot();
      } else {
        var cs := Split(text[1..i]);
        assert text[1..i + 1] == text[1..i] + [ch];
        SplitSnoc(text[1..i], ch);
        if ch == '/' {
          HoldsSlash(cs, content, levels);
        } else if ch == '.' {
          HoldsDot(cs, content, levels);
        } else {
          HoldsChar(cs, content, levels, ch);
        }
      }
    }
  }

  lemma HoldsRoot()
    ensures Holds([""], "/", 0)
  {
    assert [""][..0] == [];
    assert Render([]) + "" == "/";
  }

  lemma ReachedEnd(src: string, content: string, levels: nat)
    requires Absolute(src) && Reached(src, |src| + 1, content, levels)
    ensures content == Render(Stack(Split(src[1..])))
  {
    hide Split, Stack, Render;
    assert (src + "/")[1..|src| + 1] == src[1..] + "/";
    SplitSlash(src[1..]);
    var cs := Split(src[1..]) + [""];
    assert cs[..|cs| - 1] == Split(src[1..]) && cs[|cs| - 1] == "";
  }

  /** The inner loop: back up over `levels` slashes, but never over the first character. */
  method BackUp(dst: array<char>, d0: nat, levels0: nat) returns (d: nat, levels: nat)
    requires d0 <= dst.Length
    ensures d <= d0 && (dst[..d], levels) == Back(dst[..d0], levels0)
  {
    d, levels := d0, levels0;
    while levels != 0 && d > 1
      invariant d <= d0 && Back(dst[..d], levels) == Back(dst[..d0], levels0)
      decreases d
    {
      assert dst[..d][..d - 1] == dst[..d - 1];
      d := d - 1;
      if dst[d] == '/' {
        levels := levels - 1;
      }
    }
  }

  /** One character of the path. */
  method Put(dst: array<char>, d0: nat, levels0: nat, ch: char) returns (d: nat, levels: nat)
    requires d0 < dst.Length
    modifies dst
    ensures d <= d0 + 1
    ensures dst[..d] == StepContent(old(dst[..d0]), levels0, ch) && levels == StepLevels(old(dst[..d0]), levels0, ch)
  {
    hide Back;
    if ch == '.' && (levels0 != 0 || d0 == 0 || dst[d0 - 1] == '/') {
      dst[d0] := ch;
      d, levels := d0 + 1, levels0 + 1;
    } else if ch == '/' {
      d, levels := BackUp(dst, d0, levels0);
      if d == 0 || dst[d - 1] != '/' {
        ghost var content := dst[..d];
        dst[d] := ch;
        d := d + 1;
        assert dst[..d] == content + "/";
      }
    } else {
      dst[d0] := ch;
      d, levels := d0 + 1, 0;
    }
  }

  /**
   * The length written to `dst`, never more than one past the length of `src`. On an absolute path
   * the text written is the fold over its components.
   */
  method NormalizeInto(src: string, dst: array<char>, slashed: bool) returns (n: nat)
    requires dst.Length > |src|
    modifies dst
    ensures n <= |src| + 1
    ensures Absolute(src) ==> dst[..n] == Normal(src, slashed)
  {
    hide Reached, StepContent, StepLevels, Split, Stack, Render;
    var d: nat, levels: nat, i: nat := 0, 0, 0;
    ReachedStart(src);
    assert dst[..0] == "";
    while i <= |src|
      invariant i <= |src| + 1 && d <= i
      invariant Reached(src, i, dst[..d], levels)
    {
      var ch := if i == |src| then '/' else src[i];
      ReachedStep(src, i, dst[..d], levels);
      d, levels := Put(dst, d, levels, ch);
      i := i + 1;
    }
    if Absolute(src) {
      ReachedEnd(src, dst[..d], levels);
    }
    n := d;
    if n > 1 && !slashed {
      n := n - 1;
      assert dst[..d][..n] == dst[..n];
    }
  }

  lemma ReachedStart(src: string)
    ensures Reached(src, 0, "", 0)
  {
  }

  method Normalize(src: string, slashed: bool) returns (r: string)
    ensures |r| <= |src| + 1
    ensures Absolute(src) ==> r == Normal(src, slashed)
  {
    var dst := new char[|src| + 1];
    var n := NormalizeInto(src, dst, slashed);
    r := dst[..n];
  }
}
