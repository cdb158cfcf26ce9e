/** The two tables of an encoder, and what the alphabet, the extension and the translations put there. */
module BaseXTables {
  import opened Arith
  import opened BaseXCodec
  import opened BaseXDamage

  predicate IsUpper(ch: Octet) { 'A' as int <= ch <= 'Z' as int }

  predicate IsLower(ch: Octet) { 'a' as int <= ch <= 'z' as int }

  /** The same letter in the other case; other characters are their own. */
  function OtherCase(ch: Octet): (r: Octet)
    ensures r == ch <==> !IsUpper(ch) && !IsLower(ch)
  {
    if IsUpper(ch) then ch - 'A' as int + 'a' as int
    else if IsLower(ch) then ch - 'a' as int + 'A' as int
    else ch
  }

  /** Characters that an encoder does not tell apart. */
  predicate Alike(a: Octet, b: Octet, ignoreCase: bool) {
    a == b || (ignoreCase && a == OtherCase(b))
  }

  /** No two characters are alike, and none is the null character. */
  predicate Unambiguous(s: seq<Octet>, ignoreCase: bool) {
    && (forall i, j :: 0 <= i < j < |s| ==> !Alike(s[i], s[j], ignoreCase))
    && PADDING !in s
  }

  predicate Mentions(s: seq<Octet>, ch: Octet, ignoreCase: bool) {
    exists i :: 0 <= i < |s| && Alike(s[i], ch, ignoreCase)
  }

  type Table = t: seq<int> | |t| == 256 witness seq(256, i => 0)

  function SetOrd(t: Table, ch: Octet, cp: int, ignoreCase: bool): (r: Table)
    ensures forall x: Octet :: r[x] == if Alike(ch, x, ignoreCase) then cp else t[x]
  {
    if ignoreCase then t[ch := cp][OtherCase(ch) := cp] else t[ch := cp]
  }

  /** Give the characters of `s` the ordinals from `first` on. */
  function PlaceAll(t: Table, s: seq<Octet>, first: nat, ignoreCase: bool): Table {
    if s == [] then t
    else SetOrd(PlaceAll(t, s[..|s| - 1], first, ignoreCase), s[|s| - 1], first + |s| - 1, ignoreCase)
  }

  datatype Translation = Translation(table: Table, target: int)

  /**
   * A translation list: a character without an ordinal gets that of the last character before it that
   * has one, and is ignored (ordinal -1) if there is none.
   */
  function Translate(t: Table, s: seq<Octet>, base: nat, ignoreCase: bool): Translation {
    if s == [] then Translation(t, -1)
    else
      var before := Translate(t, s[..|s| - 1], base, ignoreCase);
      var ch := s[|s| - 1];
      if before.table[ch] >= base
      then before.(table := SetOrd(before.table, ch, before.target, ignoreCase))
      else before.(target := before.table[ch])
  }

  /** The ordinals of the alphabet and the extension; every other character has the ordinal after the alphabet. */
  function Placed(alphabet: seq<Octet>, extended: seq<Octet>, ignoreCase: bool): Table {
    var blank: Table := seq(256, i => |alphabet|);
    PlaceAll(PlaceAll(blank, alphabet, 0, ignoreCase), extended, |alphabet|, ignoreCase)
  }

  function OrdTable(alphabet: seq<Octet>, extended: seq<Octet>, translate: seq<Octet>, ignoreCase: bool): Table {
    Translate(Placed(alphabet, extended, ignoreCase), translate, |alphabet|, ignoreCase).table
  }

  // ----- what the tables hold

  lemma AlikeTrans(a: Octet, b: Octet, x: Octet, ignoreCase: bool)
    requires Alike(a, x, ignoreCase) && Alike(b, x, ignoreCase)
    ensures Alike(a, b, ignoreCase)
  {
  }

  lemma {:induction false} PlacedAt(t: Table, s: seq<Octet>, first: nat, ignoreCase: bool, i: nat, x: Octet)
    requires Unambiguous(s, ignoreCase) && i < |s| && Alike(s[i], x, ignoreCase)
    ensures PlaceAll(t, s, first, ignoreCase)[x] == first + i
  {
    var init, last := s[..|s| - 1], s[|s| - 1];
    if i < |init| {
      PlacedAt(t, init, first, ignoreCase, i, x);
      if Alike(last, x, ignoreCase) { AlikeTrans(s[i], last, x, ignoreCase); }
    }
  }

  lemma {:induction false} NotPlaced(t: Table, s: seq<Octet>, first: nat, ignoreCase: bool, x: Octet)
    requires !Mentions(s, x, ignoreCase)
    ensures PlaceAll(t, s, first, ignoreCase)[x] == t[x]
  {
    if s != [] {
      var init, last := s[..|s| - 1], s[|s| - 1];
      assert forall i :: 0 <= i < |init| ==> init[i] == s[i];
      NotPlaced(t, init, first, ignoreCase, x);
      assert !Alike(s[|s| - 1], x, ignoreCase);
    }
  }

  /** Translations change only characters that had no ordinal, and treat like characters alike. */
  lemma {:induction false} TranslateKeeps(t: Table, s: seq<Octet>, base: nat, ignoreCase: bool, x: Octet)
    requires forall a: Octet, b: Octet :: Alike(a, b, ignoreCase) ==> t[a] == t[b]
    requires t[x] < base || !Mentions(s, x, ignoreCase)
    ensures Translate(t, s, base, ignoreCase).table[x] == t[x]
    ensures forall a: Octet, b: Octet :: Alike(a, b, ignoreCase) ==>
              Translate(t, s, base, ignoreCase).table[a] == Translate(t, s, base, ignoreCase).table[b]
  {
    if s != [] {
      var init, ch := s[..|s| - 1], s[|s| - 1];
      assert forall i :: 0 <= i < |init| ==> init[i] == s[i];
      TranslateKeeps(t, init, base, ignoreCase, x);
      var before := Translate(t, init, base, ignoreCase);
      if before.table[ch] >= base {
        assert !Mentions(s, x, ignoreCase) ==> !Alike(s[|s| - 1], x, ignoreCase);
        SetKeepsAlike(before.table, ch, before.target, ignoreCase);
      }
    }
  }

  lemma SetKeepsAlike(t: Table, ch: Octet, cp: int, ignoreCase: bool)
    requires forall a: Octet, b: Octet :: Alike(a, b, ignoreCase) ==> t[a] == t[b]
    ensures forall a: Octet, b: Octet :: Alike(a, b, ignoreCase) ==>
              SetOrd(t, ch, cp, ignoreCase)[a] == SetOrd(t, ch, cp, ignoreCase)[b]
  {
  }

  lemma {:induction false} PlaceKeepsAlike(t: Table, s: seq<Octet>, first: nat, ignoreCase: bool)
    requires forall a: Octet, b: Octet :: Alike(a, b, ignoreCase) ==> t[a] == t[b]
    ensures forall a: Octet, b: Octet :: Alike(a, b, ignoreCase) ==>
              PlaceAll(t, s, first, ignoreCase)[a] == PlaceAll(t, s, first, ignoreCase)[b]
  {
    if s != [] {
      PlaceKeepsAlike(t, s[..|s| - 1], first, ignoreCase);
      SetKeepsAlike(PlaceAll(t, s[..|s| - 1], first, ignoreCase), s[|s| - 1], first + |s| - 1, ignoreCase);
    }
  }

  /**
   * Lists that give every character one place. The assertions of the constructor ask for less: they
   * let through the null character, and a second mention of the first extension character, whose
   * ordinal is also that of a blank entry.
   */
  predicate Accepted(alphabet: seq<Octet>, extended: seq<Octet>, translate: seq<Octet>, ignoreCase: bool) {
    && 2 <= |alphabet| && |alphabet| + |extended| <= 256
    && Unambiguous(alphabet + extended, ignoreCase)
    && forall i :: 0 <= i < |translate| ==> !Mentions(extended, translate[i], ignoreCase)
  }

  /** Every character of the alphabet and the extension, in either case if case is ignored, is found. */
  lemma OrdFinds(alphabet: seq<Octet>, extended: seq<Octet>, translate: seq<Octet>, ignoreCase: bool, i: nat, x: Octet)
    requires Accepted(alphabet, extended, translate, ignoreCase)
    requires i < |alphabet| + |extended| && Alike((alphabet + extended)[i], x, ignoreCase)
    ensures OrdTable(alphabet, extended, translate, ignoreCase)[x] == i
  {
    hide Unambiguous, PlaceAll, Translate;
    UnambiguousParts(alphabet, extended, ignoreCase);
    var base := |alphabet|;
    var blank: Table := seq(256, i => base);
    var first := PlaceAll(blank, alphabet, 0, ignoreCase);
    var placed := PlaceAll(first, extended, base, ignoreCase);
    PlaceKeepsAlike(blank, alphabet, 0, ignoreCase);
    PlaceKeepsAlike(first, extended, base, ignoreCase);
    if i < base {
      PlacedAt(blank, alphabet, 0, ignoreCase, i, x);
      NotInExtended(alphabet, extended, ignoreCase, i, x);
      NotPlaced(first, extended, base, ignoreCase, x);
    } else {
      PlacedAt(first, extended, base, ignoreCase, i - base, x);
      NotTranslated(extended, translate, ignoreCase, i - base, x);
    }
    TranslateKeeps(placed, translate, base, ignoreCase, x);
  }

  lemma UnambiguousParts(a: seq<Octet>, b: seq<Octet>, ignoreCase: bool)
    requires Unambiguous(a + b, ignoreCase)
    ensures Unambiguous(a, ignoreCase) && Unambiguous(b, ignoreCase)
  {
    var s := a + b;
    assert forall i :: 0 <= i < |a| ==> a[i] == s[i];
    assert forall i :: 0 <= i < |b| ==> b[i] == s[|a| + i];
  }

  lemma NotInExtended(a: seq<Octet>, b: seq<Octet>, ignoreCase: bool, i: nat, x: Octet)
    requires Unambiguous(a + b, ignoreCase) && i < |a| && Alike(a[i], x, ignoreCase)
    ensures !Mentions(b, x, ignoreCase)
  {
    forall j | 0 <= j < |b|
      ensures !Alike(b[j], x, ignoreCase)
    {
      assert !Alike((a + b)[i], (a + b)[|a| + j], ignoreCase);
      if Alike(b[j], x, ignoreCase) { AlikeTrans(a[i], b[j], x, ignoreCase); }
    }
  }

  lemma NotTranslated(extended: seq<Octet>, translate: seq<Octet>, ignoreCase: bool, i: nat, x: Octet)
    requires forall j :: 0 <= j < |translate| ==> !Mentions(extended, translate[j], ignoreCase)
    requires i < |extended| && Alike(extended[i], x, ignoreCase)
    ensures !Mentions(translate, x, ignoreCase)
  {
    forall j | 0 <= j < |translate|
      ensures !Alike(translate[j], x, ignoreCase)
    {
      assert !Alike(extended[i], translate[j], ignoreCase);
      if Alike(translate[j], x, ignoreCase) { AlikeTrans(extended[i], translate[j], x, ignoreCase); }
    }
  }

  /**
   * A character that appears nowhere has the ordinal `|alphabet|`: out of range as a digit, but the
   * same as the first character of the extension.
   */
  lemma OrdUnknown(alphabet: seq<Octet>, extended: seq<Octet>, translate: seq<Octet>, ignoreCase: bool, x: Octet)
    requires !Mentions(alphabet, x, ignoreCase) && !Mentions(extended, x, ignoreCase) && !Mentions(translate, x, ignoreCase)
    ensures OrdTable(alphabet, extended, translate, ignoreCase)[x] == |alphabet|
  {
    hide PlaceAll, Translate;
    var base := |alphabet|;
    var blank: Table := seq(256, i => base);
    var first := PlaceAll(blank, alphabet, 0, ignoreCase);
    NotPlaced(blank, alphabet, 0, ignoreCase, x);
    NotPlaced(first, extended, base, ignoreCase, x);
    PlaceKeepsAlike(blank, alphabet, 0, ignoreCase);
    PlaceKeepsAlike(first, extended, base, ignoreCase);
    TranslateKeeps(PlaceAll(first, extended, base, ignoreCase), translate, base, ignoreCase, x);
  }

  // ----- what a translation means

  /** Every two characters that are alike have the same ordinal. */
  ghost predicate Blind(t: Table, ignoreCase: bool) {
    forall a: Octet, b: Octet :: Alike(a, b, ignoreCase) ==> t[a] == t[b]
  }

  /** The table and the target after `k` characters of the translation list. */
  function After(t: Table, s: seq<Octet>, base: nat, ignoreCase: bool, k: nat): Translation
    requires k <= |s|
  {
    Translate(t, s[..k], base, ignoreCase)
  }

  lemma AfterStep(t: Table, s: seq<Octet>, base: nat, ignoreCase: bool, k: nat)
    requires k < |s|
    ensures var a, b := After(t, s, base, ignoreCase, k), After(t, s, base, ignoreCase, k + 1);
            if a.table[s[k]] >= base
            then
              && b.target == a.target
              && forall x: Octet :: b.table[x] == if Alike(s[k], x, ignoreCase) then a.target else a.table[x]
            else b.table == a.table && b.target == a.table[s[k]]
  {
    hide SetOrd;
    assert s[..k + 1][..k] == s[..k];
  }

  lemma {:induction false} AfterBlind(t: Table, s: seq<Octet>, base: nat, ignoreCase: bool, k: nat)
    requires Blind(t, ignoreCase) && k <= |s|
    ensures Blind(After(t, s, base, ignoreCase, k).table, ignoreCase)
    ensures After(t, s, base, ignoreCase, k).target < base || base == 0
  {
    hide Translate;
    if k == 0 {
      AfterNone(t, s, base, ignoreCase);
    } else {
      AfterBlind(t, s, base, ignoreCase, k - 1);
      AfterStep(t, s, base, ignoreCase, k - 1);
      StepBlind(After(t, s, base, ignoreCase, k - 1), After(t, s, base, ignoreCase, k), s[k - 1], ignoreCase);
    }
  }

  lemma AfterNone(t: Table, s: seq<Octet>, base: nat, ignoreCase: bool)
    ensures After(t, s, base, ignoreCase, 0) == Translation(t, -1)
  {
  }

  lemma StepBlind(a: Translation, b: Translation, ch: Octet, ignoreCase: bool)
    requires Blind(a.table, ignoreCase)
    requires b.table == a.table || forall x: Octet :: b.table[x] == if Alike(ch, x, ignoreCase) then a.target else a.table[x]
    ensures Blind(b.table, ignoreCase)
  {
  }

  lemma MentionsMore(s: seq<Octet>, k: nat, x: Octet, ignoreCase: bool)
    requires k < |s|
    ensures Mentions(s[..k + 1], x, ignoreCase) <==> Mentions(s[..k], x, ignoreCase) || Alike(s[k], x, ignoreCase)
  {
    var a, b := s[..k], s[..k + 1];
    if Mentions(a, x, ignoreCase) {
      var i :| 0 <= i < |a| && Alike(a[i], x, ignoreCase);
      assert b[i] == a[i];
    }
    if Mentions(b, x, ignoreCase) {
      var i :| 0 <= i < |b| && Alike(b[i], x, ignoreCase);
      assert i < k ==> a[i] == b[i];
    }
    if Alike(s[k], x, ignoreCase) { assert b[k] == s[k]; }
  }

  /** A character has an ordinal as a digit, or is ignored, exactly if it had one before or was mentioned. */
  lemma {:induction false} AfterKnown(t: Table, s: seq<Octet>, base: nat, ignoreCase: bool, k: nat, x: Octet)
    requires Blind(t, ignoreCase) && k <= |s| && base > 0
    ensures After(t, s, base, ignoreCase, k).table[x] < base <==> t[x] < base || Mentions(s[..k], x, ignoreCase)
  {
    hide Translate, After, Mentions, Alike;
    if k == 0 {
      AfterNone(t, s, base, ignoreCase);
      assert !Mentions(s[..0], x, ignoreCase) by { NoMention(s[..0], x, ignoreCase); }
    } else {
      AfterKnown(t, s, base, ignoreCase, k - 1, x);
      AfterBlind(t, s, base, ignoreCase, k - 1);
      AfterStep(t, s, base, ignoreCase, k - 1);
      MentionsMore(s, k - 1, x, ignoreCase);
    }
  }

  lemma NoMention(s: seq<Octet>, x: Octet, ignoreCase: bool)
    requires s == []
    ensures !Mentions(s, x, ignoreCase)
  {
  }

  /** Once known, an ordinal stays. */
  lemma {:induction false} AfterStays(t: Table, s: seq<Octet>, base: nat, ignoreCase: bool, k: nat, m: nat, x: Octet)
    requires Blind(t, ignoreCase) && k <= m <= |s| && After(t, s, base, ignoreCase, k).table[x] < base
    ensures After(t, s, base, ignoreCase, m).table[x] == After(t, s, base, ignoreCase, k).table[x]
    decreases m
  {
    hide Translate, After, Alike;
    if k < m {
      AfterStays(t, s, base, ignoreCase, k, m - 1, x);
      AfterBlind(t, s, base, ignoreCase, m - 1);
      AfterStep(t, s, base, ignoreCase, m - 1);
    }
  }

  /** The character at `j` of a translation list has an ordinal when its turn comes. */
  predicate Targets(alphabet: seq<Octet>, translate: seq<Octet>, ignoreCase: bool, j: nat)
    requires j < |translate|
  {
    Mentions(alphabet, translate[j], ignoreCase) || Mentions(translate[..j], translate[j], ignoreCase)
  }

  /** The last such place before `i`, or -1. */
  function LastTarget(alphabet: seq<Octet>, translate: seq<Octet>, ignoreCase: bool, i: nat): (j: int)
    requires i <= |translate|
    ensures -1 <= j < i
    ensures j >= 0 ==> Targets(alphabet, translate, ignoreCase, j)
    ensures forall m :: j < m < i ==> !Targets(alphabet, translate, ignoreCase, m)
  {
    if i == 0 then -1
    else if Targets(alphabet, translate, ignoreCase, i - 1) then i - 1
    else LastTarget(alphabet, translate, ignoreCase, i - 1)
  }

  lemma {:induction false} AfterTarget(t: Table, alphabet: seq<Octet>, s: seq<Octet>, ignoreCase: bool, i: nat)
    requires Blind(t, ignoreCase) && i <= |s| && alphabet != []
    requires forall x: Octet :: t[x] < |alphabet| <==> Mentions(alphabet, x, ignoreCase)
    ensures var j := LastTarget(alphabet, s, ignoreCase, i);
            After(t, s, |alphabet|, ignoreCase, i).target ==
            if j < 0 then -1 else After(t, s, |alphabet|, ignoreCase, |s|).table[s[j]]
  {
    hide Translate, After, Alike, Mentions, Blind;
    var base := |alphabet|;
    if i == 0 {
      AfterNone(t, s, base, ignoreCase);
    } else {
      AfterTarget(t, alphabet, s, ignoreCase, i - 1);
      AfterStep(t, s, base, ignoreCase, i - 1);
      AfterKnown(t, s, base, ignoreCase, i - 1, s[i - 1]);
      if Targets(alphabet, s, ignoreCase, i - 1) { AfterStays(t, s, base, ignoreCase, i - 1, |s|, s[i - 1]); }
    }
  }

  /** Before the translations, exactly the characters of the alphabet are digits. */
  lemma PlacedDigits(alphabet: seq<Octet>, extended: seq<Octet>, ignoreCase: bool, x: Octet)
    requires Unambiguous(alphabet + extended, ignoreCase)
    ensures Placed(alphabet, extended, ignoreCase)[x] < |alphabet| <==> Mentions(alphabet, x, ignoreCase)
    ensures Blind(Placed(alphabet, extended, ignoreCase), ignoreCase)
  {
    hide Unambiguous, PlaceAll;
    UnambiguousParts(alphabet, extended, ignoreCase);
    var base := |alphabet|;
    var blank: Table := seq(256, i => base);
    var first := PlaceAll(blank, alphabet, 0, ignoreCase);
    PlaceKeepsAlike(blank, alphabet, 0, ignoreCase);
    PlaceKeepsAlike(first, extended, base, ignoreCase);
    if Mentions(alphabet, x, ignoreCase) {
      var i :| 0 <= i < |alphabet| && Alike(alphabet[i], x, ignoreCase);
      PlacedAt(blank, alphabet, 0, ignoreCase, i, x);
      NotInExtended(alphabet, extended, ignoreCase, i, x);
      NotPlaced(first, extended, base, ignoreCase, x);
    } else if Mentions(extended, x, ignoreCase) {
      var i :| 0 <= i < |extended| && Alike(extended[i], x, ignoreCase);
      PlacedAt(first, extended, base, ignoreCase, i, x);
    } else {
      NotPlaced(blank, alphabet, 0, ignoreCase, x);
      NotPlaced(first, extended, base, ignoreCase, x);
    }
  }

  /**
   * A character that a translation list mentions first at `i`, and that is not in the alphabet, reads as
   * the last character before it that already had a reading, and is ignored if there is none.
   */
  lemma Translated(alphabet: seq<Octet>, extended: seq<Octet>, translate: seq<Octet>, ignoreCase: bool, i: nat, x: Octet)
    requires Accepted(alphabet, extended, translate, ignoreCase)
    requires i < |translate| && Alike(translate[i], x, ignoreCase) && !Targets(alphabet, translate, ignoreCase, i)
    ensures var ord, j := OrdTable(alphabet, extended, translate, ignoreCase), LastTarget(alphabet, translate, ignoreCase, i);
            ord[x] == if j < 0 then -1 else ord[translate[j]]
  {
    hide Translate, Mentions, PlaceAll, Unambiguous, Blind;
    var base, t := |alphabet|, Placed(alphabet, extended, ignoreCase);
    forall y: Octet ensures t[y] < base <==> Mentions(alphabet, y, ignoreCase) {
      PlacedDigits(alphabet, extended, ignoreCase, y);
    }
    PlacedDigits(alphabet, extended, ignoreCase, x);
    assert translate[..|translate|] == translate;
    AfterTarget(t, alphabet, translate, ignoreCase, i);
    AfterKnown(t, translate, base, ignoreCase, i, translate[i]);
    AfterStep(t, translate, base, ignoreCase, i);
    AfterBlind(t, translate, base, ignoreCase, i);
    AfterStays(t, translate, base, ignoreCase, i + 1, |translate|, x);
  }

  /** In particular it reads as the alphabet character before it, if only new characters are between them. */
  lemma TranslatedTo(alphabet: seq<Octet>, extended: seq<Octet>, translate: seq<Octet>, ignoreCase: bool,
                     j: nat, p: nat, i: nat, x: Octet)
    requires Accepted(alphabet, extended, translate, ignoreCase)
    requires j < i < |translate| && p < |alphabet| && Alike(alphabet[p], translate[j], ignoreCase)
    requires forall m :: j < m <= i ==> !Targets(alphabet, translate, ignoreCase, m)
    requires Alike(translate[i], x, ignoreCase)
    ensures OrdTable(alphabet, extended, translate, ignoreCase)[x] == p
  {
    hide OrdTable, Accepted;
    Translated(alphabet, extended, translate, ignoreCase, i, x);
    assert Targets(alphabet, translate, ignoreCase, j);
    assert (alphabet + extended)[p] == alphabet[p];
    OrdFinds(alphabet, extended, translate, ignoreCase, p, translate[j]);
  }

  /** An ignored character among the data, before any padding, makes no difference. */
  lemma {:induction false} ScanIgnores(c: Codec, s: seq<Octet>, p: nat, value: nat, sum: nat, count: nat)
    requires |c.ord| == 256 && p < |s| && PADDING !in s[..p + 1] && c.ord[s[p]] < 0
    ensures ScanDigits(c, s[..p] + s[p + 1..], value, sum, count) == ScanDigits(c, s, value, sum, count)
  {
    var r := s[..p] + s[p + 1..];
    assert s[0] == s[..p + 1][0];
    if p == 0 {
      assert r == s[1..];
    } else {
      assert s[1..][..p] == s[..p + 1][1..];
      assert r[0] == s[0] && r[1..] == s[1..][..p - 1] + s[1..][p..];
      var d := c.ord[s[0]];
      if d < 0 {
        ScanIgnores(c, s[1..], p - 1, value, sum, count);
      } else if d < c.base {
        ScanIgnores(c, s[1..], p - 1, Appended(value, c.base, d), sum + d, count + 1);
      }
    }
  }

  lemma IgnoredSkipped(c: Codec, s: seq<Octet>, p: nat)
    requires |c.ord| == 256 && c.size > 0 && p + Checks(c) < |s| && PADDING !in s[..p + 1] && c.ord[s[p]] < 0
    ensures Decode(c, s[..p] + s[p + 1..]) == Decode(c, s)
  {
    hide ScanDigits, SkipPadding, Verify;
    var r, k := s[..p] + s[p + 1..], |s| - Checks(c);
    var data := s[..k];
    assert data[..p + 1] == s[..p + 1];
    ScanIgnores(c, data, p, 0, 0, 0);
    var rest := data[..p] + data[p + 1..];
    assert s[..p] == data[..p] && s[p + 1..] == data[p + 1..] + s[k..];
    assert r == rest + s[k..];
    assert r[..k - 1] == rest && r[k - 1..] == s[k..];
  }

  // ----- characters that appear in no list

  /** An encoder with the tables made from these lists. */
  predicate Built(c: Codec, alphabet: seq<Octet>, extended: seq<Octet>, translate: seq<Octet>, ignoreCase: bool) {
    && Accepted(alphabet, extended, translate, ignoreCase) && Wf(c)
    && c.base == |alphabet| && c.size == |alphabet| + |extended|
    && c.ord == OrdTable(alphabet, extended, translate, ignoreCase)
  }

  predicate Unknown(alphabet: seq<Octet>, extended: seq<Octet>, translate: seq<Octet>, ignoreCase: bool, x: Octet) {
    && x != PADDING
    && !Mentions(alphabet, x, ignoreCase) && !Mentions(extended, x, ignoreCase) && !Mentions(translate, x, ignoreCase)
  }

  /** Among the data, before any padding, an unknown character is always refused. */
  lemma UnknownDigit(c: Codec, alphabet: seq<Octet>, extended: seq<Octet>, translate: seq<Octet>, ignoreCase: bool,
                     s: seq<Octet>, p: nat)
    requires Built(c, alphabet, extended, translate, ignoreCase) && |s| >= Checks(c) && p < |s| - Checks(c)
    requires Unknown(alphabet, extended, translate, ignoreCase, s[p]) && PADDING !in s[..p]
    ensures Decode(c, s) == Err
  {
    hide Accepted, OrdTable, ScanDigits, Mentions;
    OrdUnknown(alphabet, extended, translate, ignoreCase, s[p]);
    var data := Data(c, s);
    var a, b := data[..p + 1], data[p + 1..];
    assert a == s[..p] + [s[p]] && a[p] == s[p];
    ScanReadable(c, a);
    ScanBad(c, a, b, 0, 0, 0);
    assert data == a + b;
  }

  /**
   * In the place of a check character, an unknown character is read as the first extension character,
   * and refused if there is no extension.
   */
  lemma UnknownCheck(c: Codec, alphabet: seq<Octet>, extended: seq<Octet>, translate: seq<Octet>, ignoreCase: bool,
                     s: seq<Octet>, p: nat, x: Octet)
    requires Built(c, alphabet, extended, translate, ignoreCase) && Whole(c, s) && |s| - Checks(c) <= p < |s|
    requires Unknown(alphabet, extended, translate, ignoreCase, x)
    ensures if extended != [] then Decode(c, s[p := x]) == Decode(c, s[p := extended[0]]) else Decode(c, s[p := x]) == Err
  {
    hide OrdTable, Mentions, Decode;
    OrdUnknown(alphabet, extended, translate, ignoreCase, x);
    var t := s[p := x];
    if extended != [] {
      var all := alphabet + extended;
      assert all[|alphabet|] == extended[0];
      OrdFinds(alphabet, extended, translate, ignoreCase, |alphabet|, extended[0]);
      DecodeByOrdinal(c, t, s[p := extended[0]]);
    } else {
      DecodeFits(c, t);
      UnfitCheck(c, t, p);
    }
  }

  lemma UnfitCheck(c: Codec, s: seq<Octet>, p: nat)
    requires Whole(c, s) && |s| - Checks(c) <= p < |s| && c.ord[s[p]] >= c.size
    ensures !Fits(c, s)
  {
  }

  // ----- Crockford's base 32, with a check character modulo 37

  /** "0123456789ABCDEFGHJKMNPQRSTVWXYZ" */
  function CrockfordChar(i: nat): Octet
    requires i < 32
  {
    if i < 10 then 48 + i else if i < 18 then 55 + i else if i < 20 then 56 + i
    else if i < 22 then 57 + i else if i < 27 then 58 + i else 59 + i
  }

  function Crockford(): seq<Octet> {
    seq(32, i requires 0 <= i < 32 => CrockfordChar(i))
  }

  const CROCKFORD_EXTENDED: seq<Octet> := [42, 126, 36, 61, 85]   // "*~$=U"
  const CROCKFORD_TRANSLATE: seq<Octet> := [45, 48, 79, 49, 73, 76]  // "-0O1IL"

  function Octets(s: string): seq<int> {
    seq(|s|, i requires 0 <= i < |s| => s[i] as int)
  }

  lemma CrockfordLists()
    ensures Crockford() == Octets("0123456789ABCDEFGHJKMNPQRSTVWXYZ")
    ensures CROCKFORD_EXTENDED == Octets("*~$=U") && CROCKFORD_TRANSLATE == Octets("-0O1IL")
  {
  }

  lemma CrockfordAccepted()
    ensures Accepted(Crockford(), CROCKFORD_EXTENDED, CROCKFORD_TRANSLATE, true)
  {
    var s := Crockford() + CROCKFORD_EXTENDED;
    forall i, j | 0 <= i < j < |s| ensures !Alike(s[i], s[j], true) {
    }
  }

  /** The digit that a character of Crockford's base 32 stands for: "O" for "0", "I" and "L" for "1". */
  function CrockfordDigit(ch: Octet): Octet {
    if ch == 79 || ch == 111 then 48
    else if ch == 73 || ch == 105 || ch == 76 || ch == 108 then 49
    else ch
  }

  lemma CrockfordOrds(c: Codec, extended: seq<Octet>)
    requires Built(c, Crockford(), extended, CROCKFORD_TRANSLATE, true)
    ensures c.ord[45] == -1 && c.ord[48] == 0 && c.ord[49] == 1
    ensures forall x: Octet :: x in {79, 111} ==> c.ord[x] == 0
    ensures forall x: Octet :: x in {73, 76, 105, 108} ==> c.ord[x] == 1
  {
    hide OrdTable, Accepted, Targets, LastTarget;
    var a, t := Crockford(), CROCKFORD_TRANSLATE;
    CrockfordTargets();
    assert (a + extended)[0] == 48 && (a + extended)[1] == 49;
    OrdFinds(a, extended, t, true, 0, 48);
    OrdFinds(a, extended, t, true, 1, 49);
    Translated(a, extended, t, true, 0, 45);
    assert LastTarget(a, t, true, 0) == -1;
    TranslatedTo(a, extended, t, true, 1, 0, 2, 79);
    TranslatedTo(a, extended, t, true, 1, 0, 2, 111);
    TranslatedTo(a, extended, t, true, 3, 1, 4, 73);
    TranslatedTo(a, extended, t, true, 3, 1, 4, 105);
    TranslatedTo(a, extended, t, true, 3, 1, 5, 76);
    TranslatedTo(a, extended, t, true, 3, 1, 5, 108);
  }

  /** In the list "-0O1IL" the places of "0" and "1" are the targets. */
  lemma CrockfordTargets()
    ensures forall j :: 0 <= j < |CROCKFORD_TRANSLATE| ==>
              (Targets(Crockford(), CROCKFORD_TRANSLATE, true, j) <==> j == 1 || j == 3)
  {
    var a, t := Crockford(), CROCKFORD_TRANSLATE;
    assert a[0] == t[1] && a[1] == t[3];
    forall j | j == 0 || j == 2 || j == 4 || j == 5 ensures !Targets(a, t, true, j) {
      assert !Mentions(a, t[j], true);
      assert !Mentions(t[..j], t[j], true);
    }
  }

  /** Base 32 after Crockford reads "O" as "0" and "I" and "L" as "1", in either case, and reads over "-". */
  lemma CrockfordReads(c: Codec, extended: seq<Octet>, s: seq<Octet>)
    requires Built(c, Crockford(), extended, CROCKFORD_TRANSLATE, true) && |s| >= Checks(c)
    ensures Decode(c, s) == Decode(c, seq(|s|, i requires 0 <= i < |s| => CrockfordDigit(s[i])))
    ensures forall p :: 0 <= p < |s| - Checks(c) && s[p] == 45 && PADDING !in s[..p + 1] ==>
              Decode(c, s) == Decode(c, s[..p] + s[p + 1..])
  {
    hide Decode, OrdTable, Accepted;
    CrockfordOrds(c, extended);
    var t := seq(|s|, i requires 0 <= i < |s| => CrockfordDigit(s[i]));
    DecodeByOrdinal(c, s, t);
    forall p | 0 <= p < |s| - Checks(c) && s[p] == 45 && PADDING !in s[..p + 1]
      ensures Decode(c, s) == Decode(c, s[..p] + s[p + 1..])
    {
      IgnoredSkipped(c, s, p);
    }
  }

  /** The string "10!" has no valid check character, yet it is read as 32, like "10*". */
  lemma UnknownAccepted(c: Codec)
    requires Built(c, Crockford(), CROCKFORD_EXTENDED, CROCKFORD_TRANSLATE, true) && c.check && !c.checksum
    ensures Unknown(Crockford(), CROCKFORD_EXTENDED, CROCKFORD_TRANSLATE, true, 33)
    ensures Decode(c, [49, 48, 33]) == Ok(32) == Decode(c, [49, 48, 42])
  {
    hide OrdTable, Decode, Accepted;
    var a, e, t := Crockford(), CROCKFORD_EXTENDED, CROCKFORD_TRANSLATE;
    OrdUnknown(a, e, t, true, 33);
    OrdFinds(a, e, t, true, 0, 48);
    OrdFinds(a, e, t, true, 1, 49);
    OrdFinds(a, e, t, true, 32, 42);
    CheckedThirtyTwo(c, 33);
    CheckedThirtyTwo(c, 42);
  }

  lemma CheckedThirtyTwo(c: Codec, x: Octet)
    requires Wf(c) && c.check && !c.checksum && c.base == 32 && c.size == 37 && x != PADDING
    requires c.ord[49] == 1 && c.ord[48] == 0 && c.ord[x] == 32
    ensures Decode(c, [49, 48, x]) == Ok(32)
  {
    hide Decode, OrdValue, OrdSum, OrdCount;
    var s: seq<Octet> := [49, 48, x];
    var one: seq<Octet>, data: seq<Octet> := [49], [49, 48];
    assert Data(c, s) == data == one + [48];
    OrdOne(c, 49);
    ValueSnocOrd(c, one, 48);
    DecodeFits(c, s);
  }

  /** 32 has the inverse 22 modulo 37, so this encoder notices every replaced digit. */
  lemma CrockfordDetects(c: Codec, s: seq<Octet>, p: nat, ch: Octet)
    requires Built(c, Crockford(), CROCKFORD_EXTENDED, CROCKFORD_TRANSLATE, true) && c.check && !c.checksum
    requires Whole(c, s) && Decode(c, s).Ok? && p < |s| - 1 && ch != PADDING
    requires 0 <= c.ord[s[p]] != c.ord[ch] && 0 <= c.ord[ch]
    ensures Decode(c, s[p := ch]) == Err
  {
    hide OrdTable, Decode, Accepted;
    CheckDetectsAll(c, s, p, ch, 22);
  }
}
