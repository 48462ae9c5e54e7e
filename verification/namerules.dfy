/** What generated names are: bounded, made of the text's letters and digits in order, and already
  * names when the text is one (dsref/generate.go). */
module NameRules {
  import opened Prelude
  import opened RefGrammar
  import opened NameGenerator

  // ---- the whole name, before it is shortened ----

  /** The glyphs of a text's first n characters. */
  function GlyphsTo(t: string, n: nat): string
    requires n <= |t|
  {
    if n == 0 then "" else GlyphsTo(t, n - 1) + Glyph(t, n - 1)
  }

  /** The pieces of a text's first n characters. */
  function PiecesTo(t: string, n: nat): seq<string>
    requires n <= |t|
  {
    if n == 0 then [] else Grouped(PiecesTo(t, n - 1), MarkOf(t, n - 1))
  }

  lemma {:induction false} PiecesAreGroups(t: string, n: nat)
    requires n <= |t|
    ensures PiecesTo(t, n) == Group(Marks(t)[..n])
  {
    if n > 0 {
      PiecesAreGroups(t, n - 1);
      MarksSnoc(t, n - 1);
      GroupAppend(Marks(t)[..n - 1], MarkOf(t, n - 1));
    }
  }

  lemma MarksSnoc(t: string, n: nat)
    requires n < |t|
    ensures Marks(t)[..n + 1] == Marks(t)[..n] + [MarkOf(t, n)]
  {
  }

  lemma PiecesOfWhole(t: string)
    ensures Pieces(t) == PiecesTo(t, |t|)
  {
    PiecesAreGroups(t, |t|);
    assert Marks(t)[..|t|] == Marks(t);
  }

  lemma {:induction false} JoinedPieces(t: string, n: nat)
    requires n <= |t|
    ensures Joined(PiecesTo(t, n)) == GlyphsTo(t, n)
  {
    if n > 0 {
      JoinedPieces(t, n - 1);
      JoinedGrouped(PiecesTo(t, n - 1), MarkOf(t, n - 1));
    }
  }

  lemma JoinedGrouped(ps: seq<string>, m: Mark)
    ensures Joined(Grouped(ps, m)) == Joined(ps) + m.glyph
  {
    if ps == [] || m.starts {
      assert AllButLast(ps + [m.glyph]) == ps;
    } else {
      assert AllButLast(Extend(ps, m.glyph)) == AllButLast(ps);
    }
  }

  /** The name of a text were there no bound. */
  function FullName(input: string): string { Joined(Pieces(Squeeze(input))) }

  lemma FullNameIsGlyphs(input: string, t: string)
    requires t == Squeeze(input)
    ensures FullName(input) == GlyphsTo(t, |t|)
  {
    PiecesOfWhole(t);
    JoinedPieces(t, |t|);
  }

  // ---- the bound ----

  /** A name is the longest run of whole pieces within the bound; only a first piece is ever cut. */
  lemma {:induction false} ShortenKeeps(ps: seq<string>, max: nat) returns (k: nat)
    ensures k <= |ps|
    ensures if k == 0 && ps != [] then |ps[0]| > max && Shorten(ps, max) == ps[0][..max]
            else Shorten(ps, max) == Joined(ps[..k]) && (k < |ps| ==> |Joined(ps[..k + 1])| > max)
  {
    if ps == [] {
      k := 0;
    } else if |Joined(ps)| <= max {
      k := |ps|;
      assert ps[..k] == ps;
    } else if |ps| == 1 {
      k := 0;
      assert Joined(AllButLast(ps)) == "";
    } else {
      var before := AllButLast(ps);
      k := ShortenKeeps(before, max);
      assert before[..k] == ps[..k];
      if k < |before| { assert before[..k + 1] == ps[..k + 1]; } else { assert ps[..k + 1] == ps; }
    }
  }

  lemma {:induction false} JoinedPrefix(ps: seq<string>, k: nat)
    requires k <= |ps|
    ensures Joined(ps[..k]) <= Joined(ps)
  {
    if k == |ps| {
      assert ps[..k] == ps;
    } else {
      assert AllButLast(ps)[..k] == ps[..k];
      JoinedPrefix(AllButLast(ps), k);
    }
  }

  /** A name within the bound is the whole name; otherwise it is a proper beginning of it. */
  lemma NameIsPrefix(input: string, max: nat)
    ensures NameOf(input, max) <= FullName(input) && |NameOf(input, max)| <= max
    ensures |FullName(input)| <= max <==> NameOf(input, max) == FullName(input)
  {
    var ps := Pieces(Squeeze(input));
    var k := ShortenKeeps(ps, max);
    if k == 0 && ps != [] {
      JoinedPrefix(ps, 1);
      assert AllButLast(ps[..1]) == [] && Joined(ps[..1]) == ps[0];
    } else {
      JoinedPrefix(ps, k);
    }
  }

  // ---- letters and digits ----

  /** The letters and digits of a text. */
  function LettersAndDigits(s: string): string {
    if s == "" then "" else LettersAndDigits(s[..|s| - 1]) + if Alphanum(Final(s)) then [Final(s)] else ""
  }

  lemma {:induction false} LettersOfConcat(a: string, b: string)
    ensures LettersAndDigits(a + b) == LettersAndDigits(a) + LettersAndDigits(b)
  {
    if b == "" {
      assert a + b == a;
    } else {
      var b' := b[..|b| - 1];
      assert (a + b)[..|a + b| - 1] == a + b' && Final(a + b) == Final(b);
      LettersOfConcat(a, b');
    }
  }

  lemma LettersOfPrefix(a: string, b: string)
    requires a <= b
    ensures LettersAndDigits(a) <= LettersAndDigits(b)
  {
    assert b == a + b[|a|..];
    LettersOfConcat(a, b[|a|..]);
  }

  lemma LettersOfOne(c: char)
    ensures LettersAndDigits([c]) == if Alphanum(c) then [c] else ""
    ensures LettersAndDigits(['_', c]) == LettersAndDigits([c])
  {
    assert [c][..0] == "" && ['_', c][..1] == ['_'] && ['_'][..0] == "";
  }

  lemma LettersOfGlyph(t: string, i: nat)
    requires i < |t|
    ensures SameLetters(Glyph(t, i), [t[i]])
  {
    LettersOfOne(t[i]);
    LettersOfOne('_');
    LettersOfOne('-');
    LowerKind(t[i]);
    LettersOfOne(ToLower(t[i]));
  }

  /** A name has the letters and digits of a text, in lower case. */
  predicate SameLetters(name: string, text: string) { LettersAndDigits(name) == Lowered(LettersAndDigits(text)) }

  lemma {:induction false} LettersOfGlyphs(t: string, n: nat)
    requires n <= |t|
    ensures SameLetters(GlyphsTo(t, n), t[..n])
  {
    if n == 0 {
      assert LettersAndDigits(t[..0]) == "";
    } else {
      LettersOfGlyphs(t, n - 1);
      LettersOfGlyph(t, n - 1);
      LettersGrow(GlyphsTo(t, n - 1), Glyph(t, n - 1), t[..n - 1], [t[n - 1]]);
      OneMore(t, n - 1);
    }
  }

  lemma OneMore(t: string, n: nat)
    requires n < |t|
    ensures t[..n] + [t[n]] == t[..n + 1]
  {
  }

  lemma LettersGrow(name: string, glyph: string, text: string, c: string)
    requires SameLetters(name, text) && SameLetters(glyph, c)
    ensures SameLetters(name + glyph, text + c)
  {
    LettersOfConcat(name, glyph);
    LettersOfConcat(text, c);
    LoweredConcat(LettersAndDigits(text), LettersAndDigits(c));
  }

  lemma LoweredConcat(a: string, b: string)
    ensures Lowered(a + b) == Lowered(a) + Lowered(b)
  {
  }

  lemma {:induction false} SqueezeKeepsLetters(s: string)
    ensures LettersAndDigits(Squeeze(s)) == LettersAndDigits(s)
  {
    if s != "" {
      var t := Squeeze(s[..|s| - 1]);
      SqueezeKeepsLetters(s[..|s| - 1]);
      LettersOfConcat(t, [Final(s)]);
      LettersOfOne(Final(s));
    }
  }

  /** The letters and digits of a name are the text's, in order and in lower case, from the first on;
    * all of them when the whole name is within the bound. */
  lemma NameKeepsLetters(input: string, max: nat)
    ensures LettersAndDigits(FullName(input)) == Lowered(LettersAndDigits(input))
    ensures LettersAndDigits(NameOf(input, max)) <= Lowered(LettersAndDigits(input))
  {
    var t := Squeeze(input);
    SqueezeKeepsLetters(input);
    FullNameIsGlyphs(input, t);
    LettersOfGlyphs(t, |t|);
    assert t[..|t|] == t;
    assert SameLetters(FullName(input), t);
    NameIsPrefix(input, max);
    LettersOfPrefix(NameOf(input, max), FullName(input));
  }

  // ---- the characters of names ----

  predicate NameChar(c: char) { IsLower(c) || IsDigit(c) || c == '_' || c == '-' }

  ghost predicate NameChars(s: string) { forall i :: 0 <= i < |s| ==> NameChar(s[i]) }

  /** Punctuation where no word has begun. */
  ghost predicate OpensWithPunctuation(t: string) {
    exists i :: 0 <= i < |t| && CopiesAt(t, i)
  }

  predicate CopiesAt(t: string, i: nat)
    requires i < |t|
  {
    KindOf(t[i]) == Punc && Opening(t, i)
  }

  lemma GlyphChars(t: string, i: nat)
    requires i < |t|
    ensures NameChars(Glyph(t, i)) <==> !CopiesAt(t, i)
  {
    LowerKind(t[i]);
    if CopiesAt(t, i) { assert !NameChar(Glyph(t, i)[0]); }
  }

  ghost predicate CopiesNone(t: string, n: nat)
    requires n <= |t|
  {
    forall i :: 0 <= i < n ==> !CopiesAt(t, i)
  }

  lemma CharsGrow(t: string, n: nat, before: string, glyph: string, after: string)
    requires n < |t| && glyph == Glyph(t, n) && after == before + glyph && (NameChars(before) <==> CopiesNone(t, n))
    ensures NameChars(after) <==> CopiesNone(t, n + 1)
  {
    GlyphChars(t, n);
    CharsOfConcat(before, glyph);
    OneMoreCopied(t, n);
  }

  lemma {:induction false} GlyphsChars(t: string, n: nat)
    requires n <= |t|
    ensures NameChars(GlyphsTo(t, n)) <==> CopiesNone(t, n)
  {
    if n > 0 {
      GlyphsChars(t, n - 1);
      CharsGrow(t, n - 1, GlyphsTo(t, n - 1), Glyph(t, n - 1), GlyphsTo(t, n));
    }
  }

  lemma CharsOfConcat(a: string, b: string)
    ensures NameChars(a + b) <==> NameChars(a) && NameChars(b)
  {
    assert forall i :: 0 <= i < |a| ==> (a + b)[i] == a[i];
    assert forall i :: 0 <= i < |b| ==> (a + b)[|a| + i] == b[i];
  }

  /** No punctuation is copied among the first m characters that the text becomes. */
  ghost predicate CopiesNoneWithin(t: string, n: nat, m: nat)
    requires n <= |t|
  {
    forall i :: 0 <= i < n && CopiesAt(t, i) ==> |GlyphsTo(t, i)| >= m
  }

  lemma {:induction false} CutChars(t: string, n: nat, m: nat, cut: string)
    requires n <= |t| && m <= |GlyphsTo(t, n)| && cut == GlyphsTo(t, n)[..m]
    ensures NameChars(cut) <==> CopiesNoneWithin(t, n, m)
  {
    if n > 0 && m <= |GlyphsTo(t, n - 1)| {
      CutBefore(t, n - 1, m);
      CutChars(t, n - 1, m, cut);
    } else if n > 0 {
      CutWithin(t, n - 1, m, cut);
    }
  }

  lemma CutWithin(t: string, n: nat, m: nat, cut: string)
    requires n < |t| && |GlyphsTo(t, n)| < m <= |GlyphsTo(t, n + 1)| && cut == GlyphsTo(t, n + 1)[..m]
    ensures NameChars(cut) <==> CopiesNoneWithin(t, n + 1, m)
  {
    ShortBefore(t, n + 1, m);
    CutInside(t, n, GlyphsTo(t, n), Glyph(t, n), GlyphsTo(t, n + 1), m);
  }

  lemma CutBefore(t: string, n: nat, m: nat)
    requires n < |t| && m <= |GlyphsTo(t, n)|
    ensures m <= |GlyphsTo(t, n + 1)| && GlyphsTo(t, n + 1)[..m] == GlyphsTo(t, n)[..m]
    ensures CopiesNoneWithin(t, n + 1, m) <==> CopiesNoneWithin(t, n, m)
  {
  }

  lemma CutInside(t: string, n: nat, before: string, glyph: string, after: string, m: nat)
    requires n < |t| && before == GlyphsTo(t, n) && glyph == Glyph(t, n) && after == before + glyph
    requires |before| < m <= |after|
    ensures NameChars(after[..m]) <==> CopiesNone(t, n + 1)
  {
    GlyphsChars(t, n);
    CutGlyph(t, n, glyph, m - |before|);
    CutJoined(before, glyph, m);
    OneMoreCopied(t, n);
  }

  lemma CutJoined(before: string, glyph: string, m: nat)
    requires |before| < m <= |before + glyph|
    ensures NameChars((before + glyph)[..m]) <==> NameChars(before) && NameChars(glyph[..m - |before|])
  {
    CharsOfConcat(before, glyph[..m - |before|]);
    assert (before + glyph)[..m] == before + glyph[..m - |before|];
  }

  lemma OneMoreCopied(t: string, n: nat)
    requires n < |t|
    ensures CopiesNone(t, n + 1) <==> CopiesNone(t, n) && !CopiesAt(t, n)
  {
  }

  /** A beginning of a glyph shows whether the glyph is copied punctuation. */
  lemma CutGlyph(t: string, i: nat, glyph: string, k: nat)
    requires i < |t| && glyph == Glyph(t, i) && 0 < k <= |glyph|
    ensures NameChars(glyph[..k]) <==> !CopiesAt(t, i)
  {
    GlyphChars(t, i);
    if CopiesAt(t, i) {
      assert glyph[..k] == glyph;
    } else {
      assert forall c :: 0 <= c < k ==> NameChar(glyph[c]);
    }
  }

  lemma ShortBefore(t: string, n: nat, m: nat)
    requires 0 < n <= |t| && m > |GlyphsTo(t, n - 1)|
    ensures CopiesNoneWithin(t, n, m) <==> CopiesNone(t, n)
  {
    forall i | 0 <= i < n ensures |GlyphsTo(t, i)| < m {
      GlyphsExtend(t, i, n - 1);
    }
  }

  /** A name has name characters alone exactly when no punctuation that comes where no word has begun
    * turns up in the part of the name that the bound leaves; the whole name, when there is none. */
  lemma NameCharsIff(input: string, max: nat)
    ensures var t := Squeeze(input);
            && (NameChars(NameOf(input, max)) <==> CopiesNoneWithin(t, |t|, |NameOf(input, max)|))
            && (NameChars(FullName(input)) <==> !OpensWithPunctuation(t))
  {
    var t := Squeeze(input);
    FullNameIsGlyphs(input, t);
    GlyphsChars(t, |t|);
    NameIsPrefix(input, max);
    CutChars(t, |t|, |NameOf(input, max)|, NameOf(input, max));
  }

  // ---- names that stay as they are ----

  /** Lower-case words and numbers, '_' only after something other than a separator, and punctuation
    * only where no word has begun. */
  ghost predicate Settled(s: string) { forall i :: 0 <= i < |s| ==> SettledAt(s, i) }

  predicate SettledAt(s: string, i: nat)
    requires i < |s|
  {
    match KindOf(s[i])
    case Lower => i == 0 || KindOf(s[i - 1]) != Digit
    case Digit => i == 0 || KindOf(s[i - 1]) != Lower
    case Dash => s[i] == '_' ==> i > 0 && KindOf(s[i - 1]) != Dash
    case Punc => i == 0 || KindOf(s[i - 1]) == Dash
    case _ => false
  }

  /** The character at i becomes itself. */
  predicate Stays(s: string, i: nat)
    requires i < |s|
  {
    Glyph(s, i) == [s[i]]
  }

  predicate Noted(c: char) { KindOf(c) != Space && KindOf(c) != Upper && KindOf(c) != Ignored }

  lemma {:induction false} SqueezeKeepsAll(s: string, n: nat)
    requires n <= |s| && forall i :: 0 <= i < n ==> KindOf(s[i]) != Ignored
    requires forall i :: 0 < i < n && KindOf(s[i]) == Space ==> KindOf(s[i - 1]) != Punc
    ensures Squeeze(s[..n]) == s[..n]
  {
    if n > 0 {
      SqueezeKeepsAll(s, n - 1);
      assert s[..n][..n - 1] == s[..n - 1] && Final(s[..n]) == s[n - 1];
      OneMore(s, n - 1);
    }
  }

  lemma SqueezeKeepsWhole(s: string)
    requires forall i :: 0 <= i < |s| ==> KindOf(s[i]) != Ignored
    requires forall i :: 0 < i < |s| && KindOf(s[i]) == Space ==> KindOf(s[i - 1]) != Punc
    ensures Squeeze(s) == s
  {
    SqueezeKeepsAll(s, |s|);
    assert s[..|s|] == s;
  }

  lemma GlyphNoted(t: string, i: nat)
    requires i < |t|
    ensures forall k :: 0 <= k < |Glyph(t, i)| ==> Noted(Glyph(t, i)[k])
  {
    LowerKind(t[i]);
    LowerKind('_');
  }

  lemma {:induction false} GlyphsNoted(t: string, n: nat)
    requires n <= |t|
    ensures forall k :: 0 <= k < |GlyphsTo(t, n)| ==> Noted(GlyphsTo(t, n)[k])
  {
    if n > 0 {
      GlyphsNoted(t, n - 1);
      GlyphNoted(t, n - 1);
    }
  }

  lemma GlyphSettled(s: string, i: nat)
    requires i < |s| && Noted(s[i]) && (i > 0 ==> Noted(s[i - 1]))
    ensures Stays(s, i) <==> SettledAt(s, i)
    ensures Glyph(s, i) != "" && (Glyph(s, i)[0] == s[i] ==> Stays(s, i))
  {
  }

  ghost predicate AllNoted(s: string) { forall i :: 0 <= i < |s| ==> Noted(s[i]) }

  /** Where every character stays, the glyphs are the text. */
  lemma {:induction false} GlyphsSettled(s: string, n: nat)
    requires n <= |s| && StaysTo(s, n)
    ensures GlyphsTo(s, n) == s[..n]
  {
    if n > 0 {
      GlyphsSettled(s, n - 1);
      OneStays(s, n - 1, GlyphsTo(s, n - 1), GlyphsTo(s, n));
    }
  }

  lemma OneStays(s: string, n: nat, before: string, after: string)
    requires n < |s| && Stays(s, n) && before == s[..n] && after == before + Glyph(s, n)
    ensures after == s[..n + 1]
  {
    OneMore(s, n);
  }

  ghost predicate StaysTo(s: string, n: nat)
    requires n <= |s|
  {
    forall i :: 0 <= i < n ==> Stays(s, i)
  }

  /** The glyphs of a text begin like the text does; then every character stays. */
  predicate BeginsLike(s: string) { s <= GlyphsTo(s, |s|) }

  lemma {:induction false} SettledGlyphs(s: string, n: nat)
    requires n <= |s| && AllNoted(s) && BeginsLike(s)
    ensures StaysTo(s, n)
  {
    if n > 0 {
      SettledGlyphs(s, n - 1);
      SettledNext(s, n - 1);
    }
  }

  lemma SettledNext(s: string, n: nat)
    requires n < |s| && AllNoted(s) && BeginsLike(s) && StaysTo(s, n)
    ensures StaysTo(s, n + 1)
  {
    assert Noted(s[n]) && (n > 0 ==> Noted(s[n - 1]));
    GlyphSettled(s, n);
    GlyphsSettled(s, n);
    GlyphsExtend(s, n + 1, |s|);
    BeginsAlike(s, n, Glyph(s, n), GlyphsTo(s, |s|));
  }

  lemma BeginsAlike(s: string, n: nat, glyph: string, whole: string)
    requires n < |s| && s <= whole && glyph != "" && s[..n] + glyph <= whole
    ensures glyph[0] == s[n]
  {
    assert (s[..n] + glyph)[n] == whole[n] == s[n];
  }

  lemma {:induction false} GlyphsExtend(t: string, n: nat, m: nat)
    requires n <= m <= |t|
    ensures GlyphsTo(t, n) <= GlyphsTo(t, m)
  {
    if n < m {
      GlyphsExtend(t, n, m - 1);
    }
  }

  lemma SettledIff(s: string)
    requires AllNoted(s)
    ensures Settled(s) <==> StaysTo(s, |s|)
  {
    forall i | 0 <= i < |s| ensures Stays(s, i) <==> SettledAt(s, i) {
      assert Noted(s[i]) && (i > 0 ==> Noted(s[i - 1]));
      GlyphSettled(s, i);
    }
  }

  /** A text is its own name exactly when it is settled and within the bound. */
  lemma FixedPointIff(s: string, max: nat)
    ensures NameOf(s, max) == s <==> Settled(s) && |s| <= max
  {
    if Settled(s) {
      forall i | 0 <= i < |s| ensures Noted(s[i]) { assert SettledAt(s, i); }
      StaysWhole(s);
      SettledIff(s);
      GlyphsSettled(s, |s|);
      NameIsPrefix(s, max);
    }
    if NameOf(s, max) == s {
      NameIsPrefix(s, max);
      FullNameIsGlyphs(s, Squeeze(s));
      GlyphsNoted(Squeeze(s), |Squeeze(s)|);
      assert AllNoted(s);
      StaysWhole(s);
      SettledGlyphs(s, |s|);
      SettledIff(s);
    }
  }

  lemma StaysWhole(s: string)
    requires AllNoted(s)
    ensures FullName(s) == GlyphsTo(s, |s|) && s[..|s|] == s
  {
    SqueezeKeepsWhole(s);
    FullNameIsGlyphs(s, s);
  }

  // ---- words and separators ----

  predicate Separator(c: char) { KindOf(c) == Space || KindOf(c) == Dash }

  /** Letters, digits, and single separators between them. */
  ghost predicate Plain(s: string) {
    (forall i :: 0 <= i < |s| ==> PlainAt(s, i)) && (s != "" ==> Alphanum(Final(s)))
  }

  predicate PlainAt(s: string, i: nat)
    requires i < |s|
  {
    Alphanum(s[i]) || (Separator(s[i]) && i > 0 && Alphanum(s[i - 1]))
  }

  /** Lower-case words and numbers joined by single dashes or underscores. */
  ghost predicate Tidy(s: string) { Joinable(s) && (s != "" ==> Alphanum(Final(s))) }

  ghost predicate Joinable(s: string) { forall i :: 0 <= i < |s| ==> JoinableAt(s, i) }

  predicate JoinableAt(s: string, i: nat)
    requires i < |s|
  {
    match KindOf(s[i])
    case Lower => i == 0 || KindOf(s[i - 1]) == Lower || KindOf(s[i - 1]) == Dash
    case Digit => i == 0 || KindOf(s[i - 1]) == Digit || KindOf(s[i - 1]) == Dash
    case Dash => i > 0 && Alphanum(s[i - 1])
    case _ => false
  }

  lemma TidyIsSettled(s: string)
    requires Tidy(s)
    ensures Settled(s) && Plain(s)
  {
    forall i | 0 <= i < |s| ensures SettledAt(s, i) && PlainAt(s, i) {
      assert JoinableAt(s, i);
    }
  }

  /** The kind of a glyph's last character. */
  function EndKind(c: char): Kind {
    if KindOf(c) == Upper then Lower else if KindOf(c) == Space then Dash else KindOf(c)
  }

  lemma GlyphEnds(t: string, i: nat)
    requires Plain(t) && i < |t|
    ensures Glyph(t, i) != "" && KindOf(Final(Glyph(t, i))) == EndKind(t[i])
    ensures |Glyph(t, i)| <= 2 && (|Glyph(t, i)| == 2 ==> Glyph(t, i)[0] == '_' && i > 0 && Alphanum(t[i - 1]) && Alphanum(t[i]))
    ensures |Glyph(t, i)| == 1 && i > 0 ==>
              KindOf(t[i - 1]) == Space || KindOf(t[i - 1]) == Dash || KindOf(t[i]) == Space || KindOf(t[i]) == Dash
              || EndKind(t[i - 1]) == EndKind(t[i])
  {
    assert PlainAt(t, i) && (i > 0 ==> PlainAt(t, i - 1));
    LowerKind(t[i]);
    LowerKind('_');
  }

  /** What has become of a plain text's first n characters can be part of a tidy name. */
  ghost predicate JoinedTo(t: string, n: nat, name: string)
    requires n <= |t|
  {
    Joinable(name) && (n == 0 <==> name == "") && (n > 0 ==> KindOf(Final(name)) == EndKind(t[n - 1]))
  }

  lemma GlyphJoins(t: string, i: nat, before: string, joined: string)
    requires Plain(t) && i < |t| && JoinedTo(t, i, before) && joined == before + Glyph(t, i)
    ensures JoinedTo(t, i + 1, joined)
  {
    GlyphEnds(t, i);
    var b := |before|;
    assert Final(joined) == Final(Glyph(t, i));
    assert i > 0 ==> joined[b - 1] == Final(before);
    assert joined[b] == Glyph(t, i)[0];
    forall k | 0 <= k < |joined| ensures JoinableAt(joined, k) {
      if k < b {
        assert JoinableAt(before, k) && joined[k] == before[k] && (k > 0 ==> joined[k - 1] == before[k - 1]);
      } else if k == b {
        assert PlainAt(t, i);
      } else {
        assert k == b + 1 && joined[k] == Glyph(t, i)[1] && joined[k - 1] == '_';
      }
    }
  }

  lemma {:induction false} GlyphsJoin(t: string, n: nat)
    requires n <= |t| && Plain(t)
    ensures JoinedTo(t, n, GlyphsTo(t, n))
  {
    if n > 0 {
      GlyphsJoin(t, n - 1);
      GlyphJoins(t, n - 1, GlyphsTo(t, n - 1), GlyphsTo(t, n));
    }
  }

  ghost predicate AllAlphanum(s: string) { forall i :: 0 <= i < |s| ==> Alphanum(s[i]) }

  ghost predicate EndsInWord(s: string) { s != "" && Alphanum(Final(s)) }

  /** Every piece but the last ends in a letter or digit, and the first has no separators. */
  ghost predicate WordPieces(ps: seq<string>, last: char) {
    && ps != [] && AllAlphanum(ps[0]) && (forall j :: 0 <= j < |ps| - 1 ==> EndsInWord(ps[j]))
    && Last(ps) != "" && (Alphanum(Final(Last(ps))) <==> Alphanum(last))
  }

  lemma {:induction false} PiecesEndInWords(t: string, n: nat)
    requires 0 < n <= |t| && Plain(t)
    ensures WordPieces(PiecesTo(t, n), t[n - 1])
  {
    GlyphWord(t, n - 1);
    if n > 1 {
      PiecesEndInWords(t, n - 1);
      GroupedWord(PiecesTo(t, n - 1), MarkOf(t, n - 1), t[n - 2], t[n - 1]);
    }
  }

  /** What a glyph adds to the piece before it. */
  lemma GlyphWord(t: string, i: nat)
    requires i < |t| && Plain(t)
    ensures var m := MarkOf(t, i);
            && m.glyph != "" && (Alphanum(Final(m.glyph)) <==> Alphanum(t[i]))
            && (i == 0 || (Alphanum(t[i - 1]) && !m.starts) ==> AllAlphanum(m.glyph))
            && (i > 0 && m.starts ==> Alphanum(t[i - 1]))
  {
    GlyphEnds(t, i);
    assert PlainAt(t, i) && (i > 0 ==> PlainAt(t, i - 1));
    LowerKind(t[i]);
  }

  lemma GroupedWord(ps: seq<string>, m: Mark, before: char, last: char)
    requires WordPieces(ps, before) && m.glyph != "" && (Alphanum(Final(m.glyph)) <==> Alphanum(last))
    requires Alphanum(before) && !m.starts ==> AllAlphanum(m.glyph)
    requires m.starts ==> Alphanum(before)
    ensures WordPieces(Grouped(ps, m), last)
  {
    if !m.starts {
      assert Final(Last(ps) + m.glyph) == Final(m.glyph);
      if |ps| == 1 {
        assert Alphanum(ps[0][|ps[0]| - 1]);
        assert AllAlphanum(ps[0] + m.glyph);
      }
    }
  }

  lemma PlainStays(t: string)
    requires Plain(t)
    ensures Squeeze(t) == t && Joinable(FullName(t)) && Pieces(t) == PiecesTo(t, |t|)
  {
    PlainIsSqueezed(t);
    PiecesOfWhole(t);
    FullNameIsGlyphs(t, t);
    GlyphsJoin(t, |t|);
  }

  lemma PlainIsSqueezed(t: string)
    requires Plain(t)
    ensures Squeeze(t) == t
  {
    forall i | 0 <= i < |t| ensures KindOf(t[i]) != Ignored && KindOf(t[i]) != Punc { PlainKinds(t, i); }
    SqueezeKeepsWhole(t);
  }

  lemma PlainKinds(t: string, i: nat)
    requires i < |t| && PlainAt(t, i)
    ensures KindOf(t[i]) != Ignored && KindOf(t[i]) != Punc
  {
  }

  /** The name of words and numbers between single separators is in lower case, with a single dash or
    * underscore between its words and numbers. */
  lemma PlainNameIsTidy(input: string, max: nat)
    requires Plain(input)
    ensures Tidy(NameOf(input, max))
  {
    PlainStays(input);
    NameIsPrefix(input, max);
    JoinablePrefix(NameOf(input, max), FullName(input));
    if input == "" {
      assert Marks(input) == [];
    } else {
      PiecesEndInWords(input, |input|);
      if NameOf(input, max) != "" { NameEndsInWord(Pieces(input), Final(input), max); }
    }
  }

  lemma JoinablePrefix(a: string, b: string)
    requires Joinable(b) && a <= b
    ensures Joinable(a)
  {
    forall i | 0 <= i < |a| ensures JoinableAt(a, i) { assert JoinableAt(b, i) && a[i] == b[i]; }
  }

  lemma NameEndsInWord(ps: seq<string>, last: char, max: nat)
    requires WordPieces(ps, last) && Alphanum(last) && Shorten(ps, max) != ""
    ensures EndsInWord(Shorten(ps, max))
  {
    var k := ShortenKeeps(ps, max);
    if k == 0 {
      CutWord(ps[0], max);
    } else {
      JoinedEnds(ps[..k], ps[k - 1]);
    }
  }

  lemma CutWord(word: string, max: nat)
    requires AllAlphanum(word) && 0 < max < |word|
    ensures EndsInWord(word[..max])
  {
    assert Alphanum(word[max - 1]);
  }

  lemma JoinedEnds(ps: seq<string>, last: string)
    requires ps != [] && last == ps[|ps| - 1] && EndsInWord(last)
    ensures EndsInWord(Joined(ps))
  {
    var whole := Joined(ps);
    assert whole == Joined(AllButLast(ps)) + last;
    assert Final(whole) == Final(last);
  }

  /** Naming is idempotent on such texts. */
  lemma NamingTwice(input: string, max: nat)
    requires Plain(input)
    ensures NameOf(NameOf(input, max), max) == NameOf(input, max)
  {
    PlainNameIsTidy(input, max);
    TidyIsSettled(NameOf(input, max));
    FixedPointIff(NameOf(input, max), max);
  }

  // ---- generated names ----

  /** GenerateName on normalised, trimmed text; None where it indexes an empty name. */
  function GenerateName(input: string, prefix: string, max: nat): Option<string> {
    var name := NameOf(input, max);
    if name == "" then None else if !IsLower(name[0]) then Some(prefix + name) else Some(name)
  }

  /** What GenerateName promises: a dataset name that starts with a lower-case letter. */
  ghost predicate DatasetName(s: string) { IsValidName(s) && IsLower(s[0]) && NameChars(s) }

  lemma {:induction false} SqueezeEmptyIff(s: string)
    ensures Squeeze(s) == "" <==> forall i :: 0 <= i < |s| ==> KindOf(s[i]) == Ignored
  {
    if s != "" {
      var before := s[..|s| - 1];
      SqueezeEmptyIff(before);
      assert KindOf(s[|s| - 1]) == KindOf(Final(s));
      forall i | 0 <= i < |s| ensures i < |s| - 1 ==> before[i] == s[i] {}
    }
  }

  lemma {:induction false} SqueezeDropsIgnored(s: string)
    ensures forall i :: 0 <= i < |Squeeze(s)| ==> KindOf(Squeeze(s)[i]) != Ignored
  {
    if s != "" { SqueezeDropsIgnored(s[..|s| - 1]); }
  }

  lemma {:induction false} FirstPieceHasText(t: string, n: nat)
    requires 0 < n <= |t| && KindOf(t[0]) != Ignored
    ensures PiecesTo(t, n) != [] && PiecesTo(t, n)[0] != ""
  {
    if n > 1 { FirstPieceHasText(t, n - 1); }
  }

  /** GenerateName indexes an empty name exactly when the text has no printable ASCII character (or no
    * name may have any length). */
  lemma GenerateNameFailsIff(input: string, prefix: string, max: nat)
    ensures GenerateName(input, prefix, max).None? <==> max == 0 || forall i :: 0 <= i < |input| ==> KindOf(input[i]) == Ignored
  {
    var t := Squeeze(input);
    SqueezeEmptyIff(input);
    NameIsPrefix(input, max);
    if t == "" {
      assert Marks(t) == [];
    } else if max > 0 {
      SqueezeDropsIgnored(input);
      FirstPieceHasText(t, |t|);
      PiecesOfWhole(t);
      var ps := Pieces(t);
      var k := ShortenKeeps(ps, max);
      if k > 0 {
        JoinedPrefix(ps[..k], 1);
        assert ps[..k][..1] == [ps[0]] && AllButLast([ps[0]]) == [];
        assert Joined([ps[0]]) == ps[0];
      }
    }
  }

  /** A generated name is a dataset name exactly when no punctuation was copied into it. The prefix
    * must be a dataset name itself, short enough for the two together. */
  lemma GeneratedNameIsValidIff(input: string, prefix: string, max: nat)
    requires DatasetName(prefix) && |prefix| + max <= 144
    requires GenerateName(input, prefix, max).Some?
    ensures var t := Squeeze(input);
            DatasetName(GenerateName(input, prefix, max).value) <==> CopiesNoneWithin(t, |t|, |NameOf(input, max)|)
  {
    NameCharsIff(input, max);
    NameIsPrefix(input, max);
    PrefixedIff(NameOf(input, max), prefix);
  }

  /** A check on the text alone: without punctuation where no word begins the name is valid under every
    * bound; where the whole name is within the bound the check is exact. */
  lemma CleanTextIsValid(input: string, prefix: string, max: nat)
    requires DatasetName(prefix) && |prefix| + max <= 144
    requires GenerateName(input, prefix, max).Some?
    ensures var valid, clean := DatasetName(GenerateName(input, prefix, max).value), !OpensWithPunctuation(Squeeze(input));
            (clean ==> valid) && (|FullName(input)| <= max ==> (valid <==> clean))
  {
    NameCharsIff(input, max);
    NameIsPrefix(input, max);
    PrefixedIff(NameOf(input, max), prefix);
  }

  lemma PrefixedIff(name: string, prefix: string)
    requires DatasetName(prefix) && name != "" && |prefix| + |name| <= 144
    ensures DatasetName(if !IsLower(name[0]) then prefix + name else name) <==> NameChars(name)
  {
    CharsOfConcat(prefix, name);
    NameCharsAreWord(name);
    NameCharsAreWord(prefix + name);
    assert (prefix + name)[0] == prefix[0];
  }

  lemma NameCharsAreWord(s: string)
    ensures NameChars(s) ==> All(WordOrDash, s)
  {
    if NameChars(s) {
      forall i | 0 <= i < |s| ensures In(WordOrDash, s[i]) { assert NameChar(s[i]); }
    }
  }

  /** The generator's promise of a valid name fails on a tilde in front. */
  lemma TildeIsCopied(prefix: string)
    requires DatasetName(prefix) && |prefix| <= 100
    ensures GenerateName("~a", prefix, 44) == Some(prefix + "~a") && !DatasetName(prefix + "~a")
  {
    var s := "~a";
    assert KindOf(s[0]) == Punc && KindOf(s[1]) == Lower;
    assert SettledAt(s, 0) && SettledAt(s, 1);
    FixedPointIff(s, 44);
    CharsOfConcat(prefix, s);
    assert !NameChar(s[0]);
  }
}
