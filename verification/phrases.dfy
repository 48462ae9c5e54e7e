/** What names the word machine makes of phrases: words, camel-cased or apart, numbers, and what stands
  * between them (dsref/generate.go). */
module Phrases {
  import opened Prelude
  import opened RefGrammar
  import opened NameGenerator
  import opened NameRules

  // ---- phrases ----

  predicate AllLower(s: string) { forall i :: 0 <= i < |s| ==> IsLower(s[i]) }
  predicate AllUpper(s: string) { forall i :: 0 <= i < |s| ==> IsUpper(s[i]) }
  predicate AllDigits(s: string) { forall i :: 0 <= i < |s| ==> IsDigit(s[i]) }

  predicate LowerWord(w: string) { w != "" && AllLower(w) }
  predicate Capitalised(w: string) { |w| > 1 && IsUpper(w[0]) && AllLower(w[1..]) }
  predicate Capitals(w: string) { w != "" && AllUpper(w) }
  predicate Number(w: string) { w != "" && AllDigits(w) }

  predicate IsWord(w: string) { LowerWord(w) || Capitalised(w) || Capitals(w) || Number(w) }

  /** The words that b can be told from when it follows a directly. */
  predicate MayFollow(a: string, b: string) {
    Capitalised(b) || (LowerWord(b) && Number(a)) || (Capitals(b) && !Capitals(a)) || (Number(b) && !Number(a))
  }

  /** What stands between two words: nothing, spaces and dashes, or punctuation with spaces after it. */
  datatype Sep = Nothing | Blank(s: string) | Punct(s: string)

  predicate IsBlank(c: char) { c == ' ' || c == '_' || c == '-' }

  predicate ValidSep(sep: Sep) {
    match sep
    case Nothing => true
    case Blank(s) => s != "" && forall i :: 0 <= i < |s| ==> IsBlank(s[i])
    case Punct(s) => s != "" && IsPunc(s[0]) && forall i :: 0 <= i < |s| ==> IsPunc(s[i]) || s[i] == ' '
  }

  function TextOf(sep: Sep): string { match sep case Nothing => "" case Blank(s) => s case Punct(s) => s }

  /** Blanks where no word has begun: a space becomes an underscore, everything else a dash. */
  function Opened(s: string): (r: string)
  {
    if s == "" then "" else Opened(s[..|s| - 1]) + if s[|s| - 1] == ' ' then "_" else "-"
  }

  /** A dash for every punctuation mark. */
  function Dashes(s: string): string {
    if s == "" then "" else Dashes(s[..|s| - 1]) + if s[|s| - 1] == ' ' then "" else "-"
  }

  /** What becomes of what stands between two words. */
  function Between(sep: Sep): string {
    match sep
    case Nothing => "_"
    case Blank(s) => if s == "" then "" else (if s[0] == ' ' then "_" else [s[0]]) + Opened(s[1..])
    case Punct(s) => Dashes(s)
  }

  /** A word and what stands before it. */
  datatype Part = Part(sep: Sep, word: string)

  /** A first word after some blanks, and more words. */
  predicate ValidPhrase(lead: string, first: string, parts: seq<Part>) {
    if parts == [] then IsWord(first) && forall i :: 0 <= i < |lead| ==> IsBlank(lead[i])
    else
      var before, part := parts[..|parts| - 1], parts[|parts| - 1];
      && ValidPhrase(lead, first, before) && ValidSep(part.sep) && IsWord(part.word)
      && (part.sep.Nothing? ==> MayFollow(LastWord(first, before), part.word))
  }

  function LastWord(first: string, parts: seq<Part>): string {
    if parts == [] then first else parts[|parts| - 1].word
  }

  function PhraseText(lead: string, first: string, parts: seq<Part>): string {
    if parts == [] then lead + first
    else
      var part := parts[|parts| - 1];
      PhraseText(lead, first, parts[..|parts| - 1]) + TextOf(part.sep) + part.word
  }

  /** The pieces a phrase's name may be cut between. */
  function PhrasePieces(lead: string, first: string, parts: seq<Part>): seq<string> {
    if parts == [] then [Opened(lead) + Lowered(first)]
    else
      var part := parts[|parts| - 1];
      PhrasePieces(lead, first, parts[..|parts| - 1]) +
      if part.sep.Punct? then [Between(part.sep), Lowered(part.word)] else [Between(part.sep) + Lowered(part.word)]
  }

  function PhraseName(lead: string, first: string, parts: seq<Part>): string {
    if parts == [] then Opened(lead) + Lowered(first)
    else
      var part := parts[|parts| - 1];
      PhraseName(lead, first, parts[..|parts| - 1]) + Between(part.sep) + Lowered(part.word)
  }

  // ---- pieces, one character more ----

  lemma FirstOnto(a: string, s: string)
    requires s != ""
    ensures a + [s[0]] + s[1..] == a + s
  {
  }

  lemma TwoOnto(a: string, s: string)
    requires |s| > 1
    ensures a + [s[0]] + [s[1]] + s[2..] == a + s
  {
    FirstOnto(a, s);
    FirstOnto(a + [s[0]], s[1..]);
    assert s[1..][1..] == s[2..] && s[1..][0] == s[1];
  }

  lemma LastOnto(a: string, s: string)
    requires s != ""
    ensures a + s[..|s| - 1] + [s[|s| - 1]] == a + s
  {
  }

  predicate IsWordKind(k: Kind) { k == Lower || k == Upper || k == Digit }

  /** A character that goes on with the last piece. */
  lemma GoesOn(t: string, r: char)
    requires t != "" && IsWordKind(KindOf(r)) && !Splits(t, r)
    requires KindOf(Final(t)) == KindOf(r) || KindOf(Final(t)) == Space || KindOf(Final(t)) == Dash
             || (KindOf(Final(t)) == Upper && KindOf(r) == Lower)
    ensures Pieces(t + [r]) == Extend(Pieces(t), [ToLower(r)])
  {
    var u := t + [r];
    assert u[|t|] == r && u[|t| - 1] == Final(t);
    assert Glyph(u, |t|) == [ToLower(r)];
    assert !Starts(u, |t|);
    PiecesGrow(t, u, r);
    NonEmptyPieces(t);
  }

  lemma NonEmptyPieces(t: string)
    requires t != ""
    ensures Pieces(t) != []
  {
    assert Marks(t) != [];
  }

  /** A character that begins a word next to another. */
  lemma Begins(t: string, r: char)
    requires t != "" && IsWordKind(KindOf(r)) && IsWordKind(KindOf(Final(t)))
    requires KindOf(Final(t)) != KindOf(r) && !(KindOf(Final(t)) == Upper && KindOf(r) == Lower)
    ensures Pieces(t + [r]) == Pieces(t) + [['_', ToLower(r)]]
  {
    var u := t + [r];
    assert u[|t|] == r && u[|t| - 1] == Final(t);
    assert Glyph(u, |t|) == ['_', ToLower(r)];
    assert Starts(u, |t|);
    PiecesGrow(t, u, r);
  }

  /** A word that begins after punctuation. */
  lemma BeginsAfterPunc(t: string, r: char)
    requires t != "" && IsWordKind(KindOf(r)) && KindOf(Final(t)) == Punc
    ensures Pieces(t + [r]) == Pieces(t) + [[ToLower(r)]]
  {
    var u := t + [r];
    assert u[|t|] == r && u[|t| - 1] == Final(t);
    assert Glyph(u, |t|) == [ToLower(r)];
    assert Starts(u, |t|);
    PiecesGrow(t, u, r);
  }

  /** Blanks and punctuation, right after a word and further on. */
  lemma SeparatorBegins(t: string, r: char)
    requires t != "" && IsWordKind(KindOf(Final(t))) && (KindOf(r) == Space || KindOf(r) == Dash || KindOf(r) == Punc)
    ensures Pieces(t + [r]) == Pieces(t) + [if KindOf(r) == Space then "_" else if KindOf(r) == Dash then [r] else "-"]
  {
    var u := t + [r];
    assert u[|t|] == r && u[|t| - 1] == Final(t);
    PiecesGrow(t, u, r);
  }

  lemma SeparatorGoesOn(t: string, r: char)
    requires t != ""
    requires (KindOf(Final(t)) == Punc && KindOf(r) == Punc)
             || ((KindOf(Final(t)) == Space || KindOf(Final(t)) == Dash) && (KindOf(r) == Space || KindOf(r) == Dash))
    ensures Pieces(t) != [] && Pieces(t + [r]) == Extend(Pieces(t), if KindOf(r) == Space then "_" else "-")
  {
    SeparatorMark(t, r, t + [r]);
    PiecesGrow(t, t + [r], r);
    NonEmptyPieces(t);
  }

  lemma SeparatorMark(t: string, r: char, u: string)
    requires t != "" && u == t + [r]
    requires (KindOf(Final(t)) == Punc && KindOf(r) == Punc)
             || ((KindOf(Final(t)) == Space || KindOf(Final(t)) == Dash) && (KindOf(r) == Space || KindOf(r) == Dash))
    ensures MarkOf(u, |t|) == Mark(false, if KindOf(r) == Space then "_" else "-")
  {
    assert u[|t|] == r && u[|t| - 1] == Final(t);
  }

  lemma FirstCharacter(r: char)
    requires KindOf(r) != Ignored && KindOf(r) != Punc
    ensures Pieces([r]) == [if KindOf(r) == Space then "_" else if KindOf(r) == Dash then "-" else [ToLower(r)]]
  {
    FirstPieces(r);
    assert !Breaks([r], 0) && Opening([r], 0);
    assert "" + [ToLower(r)] == [ToLower(r)];
  }

  /** A capital after capitals, and a lower-case letter after it: the capital begins a word. */
  lemma CapitalBegins(t: string, c: char, r: char)
    requires t != "" && KindOf(Final(t)) == Upper && KindOf(c) == Upper && KindOf(r) == Lower
    ensures Pieces(t + [c] + [r]) == Pieces(t) + [['_', ToLower(c), r]]
  {
    GoesOn(t, c);
    var u := t + [c];
    assert u[|u| - 1] == c && u[|u| - 2] == Final(t);
    var before := PiecesSplit(u, u + [r], r);
    NonEmptyPieces(t);
    SameBefore(before, Pieces(t), ToLower(c));
  }

  lemma SameBefore(a: seq<string>, b: seq<string>, c: char)
    requires a != [] && b != [] && Extend(a, [c]) == Extend(b, [c])
    ensures a == b
  {
    var x, y := Extend(a, [c]), Extend(b, [c]);
    assert AllButLast(x) == AllButLast(a) && AllButLast(y) == AllButLast(b);
    assert Last(x) == Last(a) + [c] && Last(y) == Last(b) + [c];
    assert Last(a) == Last(x)[..|Last(x)| - 1] && Last(b) == Last(y)[..|Last(y)| - 1];
    assert a == AllButLast(a) + [Last(a)] && b == AllButLast(b) + [Last(b)];
  }

  // ---- pieces, one word more ----

  predicate AllOf(s: string, k: Kind) { forall i :: 0 <= i < |s| ==> KindOf(s[i]) == k }

  lemma KindsOf(s: string)
    ensures AllLower(s) <==> AllOf(s, Lower)
    ensures AllUpper(s) <==> AllOf(s, Upper)
    ensures AllDigits(s) <==> AllOf(s, Digit)
  {
  }

  lemma ExtendTwice(ps: seq<string>, a: string, b: string)
    requires ps != []
    ensures Extend(Extend(ps, a), b) == Extend(ps, a + b)
    ensures Extend(ps, "") == ps
  {
    var x := Extend(ps, a);
    assert AllButLast(x) == AllButLast(ps) && Last(x) == Last(ps) + a;
    assert Last(ps) + a + b == Last(ps) + (a + b) && Last(ps) + "" == Last(ps);
    assert ps == AllButLast(ps) + [Last(ps)];
  }

  lemma ExtendLast(ps: seq<string>, x: string, a: string)
    ensures Extend(ps + [x], a) == ps + [x + a]
  {
    assert AllButLast(ps + [x]) == ps;
  }

  lemma LoweredPush(s: string, r: char)
    ensures Lowered(s + [r]) == Lowered(s) + [ToLower(r)]
  {
  }

  /** A run of letters of one case, or of digits, goes on. */
  lemma {:induction false} RunGoesOn(t: string, run: string, k: Kind)
    requires t != "" && IsWordKind(k) && KindOf(Final(t)) == k && AllOf(run, k)
    ensures Pieces(t) != [] && Pieces(t + run) == Extend(Pieces(t), Lowered(run))
  {
    NonEmptyPieces(t);
    if run == "" {
      assert t + run == t;
      ExtendTwice(Pieces(t), "", "");
    } else {
      var rest := run[..|run| - 1];
      RunGoesOn(t, rest, k);
      OneMoreOfRun(t, rest, run, k, Pieces(t));
    }
  }

  lemma EndsAlikeRun(t: string, run: string, k: Kind)
    requires t != "" && KindOf(Final(t)) == k && AllOf(run, k)
    ensures KindOf(Final(t + run)) == k
  {
    assert Final(t + run) == if run == "" then Final(t) else run[|run| - 1];
  }

  lemma OneMoreOfRun(t: string, rest: string, run: string, k: Kind, ps: seq<string>)
    requires t != "" && IsWordKind(k) && KindOf(Final(t)) == k && AllOf(run, k)
    requires run != "" && rest == run[..|run| - 1] && ps != [] && Pieces(t + rest) == Extend(ps, Lowered(rest))
    ensures Pieces(t + run) == Extend(ps, Lowered(run))
  {
    var r := run[|run| - 1];
    assert run == rest + [r];
    EndsAlikeRun(t, rest, k);
    GoesOn(t + rest, r);
    ExtendTwice(ps, Lowered(rest), [ToLower(r)]);
    LoweredPush(rest, r);
    LastOnto(t, run);
  }

  lemma RestOfWord(t: string, w: string, ps: seq<string>)
    requires IsWord(w) && Pieces(t + [w[0]]) == ps && (Capitalised(w) && t != "" ==> KindOf(Final(t)) != Upper)
    ensures ps != [] && Pieces(t + w) == Extend(ps, Lowered(w[1..]))
  {
    NonEmptyPieces(t + [w[0]]);
    if Capitalised(w) {
      RestOfCapitalised(t, t + [w[0]], w, ps);
    } else {
      RestOfRun(t + [w[0]], w, ps);
      assert t + [w[0]] + w[1..] == t + w;
    }
  }

  lemma RestOfRun(u: string, w: string, ps: seq<string>)
    requires LowerWord(w) || Capitals(w) || Number(w)
    requires u != "" && Final(u) == w[0] && Pieces(u) == ps
    ensures ps != [] && Pieces(u + w[1..]) == Extend(ps, Lowered(w[1..]))
  {
    KindsOf(w);
    RunGoesOn(u, w[1..], KindOf(w[0]));
  }

  lemma RestOfCapitalised(t: string, u: string, w: string, ps: seq<string>)
    requires Capitalised(w) && u == t + [w[0]] && Pieces(u) == ps && ps != [] && (t != "" ==> KindOf(Final(t)) != Upper)
    ensures Pieces(t + w) == Extend(ps, Lowered(w[1..]))
  {
    CapitalisedTail(w);
    assert u[|u| - 1] == w[0] && (t != "" ==> u[|u| - 2] == Final(t));
    GoesOn(u, w[1]);
    RunGoesOn(u + [w[1]], w[2..], Lower);
    TwoOnto(t, w);
    ExtendTwice(ps, [ToLower(w[1])], Lowered(w[2..]));
  }

  lemma CapitalisedTail(w: string)
    requires Capitalised(w)
    ensures KindOf(w[0]) == Upper && KindOf(w[1]) == Lower && AllOf(w[2..], Lower)
    ensures Lowered(w[1..]) == [ToLower(w[1])] + Lowered(w[2..])
  {
    KindsOf(w[1..]);
    assert w[1] == w[1..][0];
    assert forall i :: 0 <= i < |w[2..]| ==> w[2..][i] == w[1..][i + 1];
  }

  lemma LoweredHead(w: string)
    requires w != ""
    ensures Lowered(w) == [ToLower(w[0])] + Lowered(w[1..])
  {
  }

  /** The kind a word ends in. */
  function EndOf(w: string): Kind { if Capitals(w) then Upper else if Number(w) then Digit else Lower }

  lemma EndsIn(w: string)
    requires IsWord(w)
    ensures KindOf(Final(w)) == EndOf(w)
  {
    if Capitalised(w) { assert w[|w| - 1] == w[1..][|w| - 2]; }
  }

  /** A word right after another one. */
  lemma WordNext(t: string, a: string, w: string)
    requires IsWord(a) && IsWord(w) && MayFollow(a, w) && t != "" && KindOf(Final(t)) == EndOf(a)
    ensures Pieces(t + w) == Pieces(t) + ["_" + Lowered(w)]
  {
    if Capitalised(w) && Capitals(a) {
      CapitalAfterCapitals(t, w);
    } else {
      WordKinds(a, w);
      Begins(t, w[0]);
      RestOfWord(t, w, Pieces(t) + [['_', ToLower(w[0])]]);
      JoinWord(Pieces(t), w);
    }
  }

  /** The first character of a word told from the one before it. */
  lemma WordKinds(a: string, w: string)
    requires IsWord(a) && IsWord(w) && MayFollow(a, w) && !(Capitalised(w) && Capitals(a))
    ensures IsWordKind(KindOf(w[0])) && IsWordKind(EndOf(a))
    ensures EndOf(a) != KindOf(w[0]) && !(EndOf(a) == Upper && KindOf(w[0]) == Lower)
    ensures Capitalised(w) ==> EndOf(a) != Upper
  {
    assert IsLower(a[0]) || IsUpper(a[0]) || IsDigit(a[0]);
  }

  lemma JoinWord(ps: seq<string>, w: string)
    requires w != ""
    ensures Extend(ps + [['_', ToLower(w[0])]], Lowered(w[1..])) == ps + ["_" + Lowered(w)]
  {
    LoweredHead(w);
    ExtendLast(ps, ['_', ToLower(w[0])], Lowered(w[1..]));
    assert ['_', ToLower(w[0])] + Lowered(w[1..]) == "_" + Lowered(w);
  }

  lemma CapitalAfterCapitals(t: string, w: string)
    requires Capitalised(w) && t != "" && KindOf(Final(t)) == Upper
    ensures Pieces(t + w) == Pieces(t) + ["_" + Lowered(w)]
  {
    CapitalisedTail(w);
    CapitalBegins(t, w[0], w[1]);
    RunGoesOn(t + [w[0]] + [w[1]], w[2..], Lower);
    TwoOnto(t, w);
    JoinCapitalised(Pieces(t), w);
  }

  lemma JoinCapitalised(ps: seq<string>, w: string)
    requires Capitalised(w)
    ensures Extend(ps + [['_', ToLower(w[0]), w[1]]], Lowered(w[2..])) == ps + ["_" + Lowered(w)]
  {
    CapitalisedTail(w);
    LoweredHead(w);
    var x := ['_', ToLower(w[0]), w[1]];
    ExtendLast(ps, x, Lowered(w[2..]));
    assert x == "_" + [ToLower(w[0])] + [ToLower(w[1])];
    assert x + Lowered(w[2..]) == "_" + Lowered(w);
  }

  /** A word after blanks, and one after punctuation. */
  lemma WordAfterBlank(t: string, w: string)
    requires IsWord(w) && t != "" && (KindOf(Final(t)) == Space || KindOf(Final(t)) == Dash)
    ensures Pieces(t) != [] && Pieces(t + w) == Extend(Pieces(t), Lowered(w))
  {
    KindsOf(w);
    NonEmptyPieces(t);
    GoesOn(t, w[0]);
    RestOfWord(t, w, Extend(Pieces(t), [ToLower(w[0])]));
    ExtendTwice(Pieces(t), [ToLower(w[0])], Lowered(w[1..]));
    LoweredHead(w);
  }

  lemma WordAfterPunc(t: string, w: string)
    requires IsWord(w) && t != "" && KindOf(Final(t)) == Punc
    ensures Pieces(t + w) == Pieces(t) + [Lowered(w)]
  {
    KindsOf(w);
    BeginsAfterPunc(t, w[0]);
    RestOfWord(t, w, Pieces(t) + [[ToLower(w[0])]]);
    ExtendLast(Pieces(t), [ToLower(w[0])], Lowered(w[1..]));
    LoweredHead(w);
  }

  // ---- pieces, one separator more ----

  predicate AllBlank(s: string) { forall i :: 0 <= i < |s| ==> IsBlank(s[i]) }

  predicate AllPunc(s: string) { forall i :: 0 <= i < |s| ==> IsPunc(s[i]) }

  lemma BlankKind(c: char)
    ensures IsBlank(c) <==> KindOf(c) == Space || KindOf(c) == Dash
    ensures IsPunc(c) <==> KindOf(c) == Punc
    ensures c == ' ' <==> KindOf(c) == Space
  {
  }

  lemma FinalOf(t: string, r: char)
    ensures Final(t + [r]) == r
  {
  }

  /** Blanks after blanks. */
  lemma {:induction false} BlanksGoOn(t: string, s: string)
    requires t != "" && IsBlank(Final(t)) && AllBlank(s)
    ensures Pieces(t) != [] && Pieces(t + s) == Extend(Pieces(t), Opened(s)) && IsBlank(Final(t + s))
  {
    NonEmptyPieces(t);
    if s == "" {
      assert t + s == t;
      ExtendTwice(Pieces(t), "", "");
    } else {
      BlanksGoOn(t, s[..|s| - 1]);
      OneMoreBlank(t, s[..|s| - 1], s, Pieces(t));
    }
  }

  lemma OneMoreBlank(t: string, rest: string, s: string, ps: seq<string>)
    requires s != "" && rest == s[..|s| - 1] && AllBlank(s) && t + rest != "" && IsBlank(Final(t + rest))
    requires ps != [] && Pieces(t + rest) == Extend(ps, Opened(rest))
    ensures Pieces(t + s) == Extend(ps, Opened(s)) && t + s != "" && IsBlank(Final(t + s))
  {
    var r := s[|s| - 1];
    BlankKind(r);
    BlankKind(Final(t + rest));
    SeparatorGoesOn(t + rest, r);
    ExtendTwice(ps, Opened(rest), if r == ' ' then "_" else "-");
    LastOnto(t, s);
    FinalOf(t + rest, r);
  }

  /** Blanks after a word. */
  lemma BlanksBegin(t: string, s: string, u: string)
    requires t != "" && IsWordKind(KindOf(Final(t))) && s != "" && AllBlank(s) && u == t + s
    ensures Pieces(u) == Pieces(t) + [Between(Blank(s))] && u != "" && IsBlank(Final(u))
  {
    BlankBegins(t, s[0]);
    BlanksFollow(t + [s[0]], s, Pieces(t));
    FirstOnto(t, s);
  }

  lemma BlankBegins(t: string, c: char)
    requires t != "" && IsWordKind(KindOf(Final(t))) && IsBlank(c)
    ensures Pieces(t + [c]) == Pieces(t) + [if c == ' ' then "_" else [c]] && t + [c] != "" && Final(t + [c]) == c
  {
    BlankKind(c);
    SeparatorBegins(t, c);
    FinalOf(t, c);
  }

  lemma BlanksFollow(u: string, s: string, ps: seq<string>)
    requires u != "" && s != "" && AllBlank(s) && Final(u) == s[0]
    requires Pieces(u) == ps + [if s[0] == ' ' then "_" else [s[0]]]
    ensures Pieces(u + s[1..]) == ps + [Between(Blank(s))] && u + s[1..] != "" && IsBlank(Final(u + s[1..]))
  {
    BlanksGoOn(u, s[1..]);
    ExtendLast(ps, if s[0] == ' ' then "_" else [s[0]], Opened(s[1..]));
  }

  /** Punctuation after a word. */
  lemma {:induction false} PuncsBegin(t: string, s: string)
    requires t != "" && IsWordKind(KindOf(Final(t))) && s != "" && AllPunc(s)
    ensures Pieces(t + s) == Pieces(t) + [Dashes(s)] && t + s != "" && KindOf(Final(t + s)) == Punc
  {
    var rest, r := s[..|s| - 1], s[|s| - 1];
    BlankKind(r);
    if rest == "" {
      assert s == [r];
      SeparatorBegins(t, r);
      FinalOf(t, r);
      assert Dashes(s) == Dashes(rest) + "-" == "-";
    } else {
      PuncsBegin(t, rest);
      SeparatorGoesOn(t + rest, r);
      ExtendLast(Pieces(t), Dashes(rest), "-");
      FinalOf(t + rest, r);
      LastOnto(t, s);
    }
  }

  /** A first word after blanks. */
  lemma FirstWord(lead: string, w: string)
    requires IsWord(w) && AllBlank(lead)
    ensures Pieces(lead + w) == [Opened(lead) + Lowered(w)]
  {
    if lead == "" {
      WordAlone(w);
      assert "" + w == w && "" + Lowered(w) == Lowered(w);
    } else {
      LeadingBlanks(lead);
      BlankKind(Final(lead));
      WordAfterBlank(lead, w);
      OnePiece(Opened(lead), Lowered(w));
    }
  }

  lemma OnePiece(x: string, a: string)
    ensures Extend([x], a) == [x + a]
  {
  }

  lemma WordAlone(w: string)
    requires IsWord(w)
    ensures Pieces(w) == [Lowered(w)]
  {
    KindsOf(w);
    FirstCharacter(w[0]);
    assert "" + [w[0]] == [w[0]] && "" + w == w;
    RestOfWord("", w, [[ToLower(w[0])]]);
    LoweredHead(w);
    OnePiece([ToLower(w[0])], Lowered(w[1..]));
  }

  lemma LeadingBlanks(lead: string)
    requires lead != "" && AllBlank(lead)
    ensures Pieces(lead) == [Opened(lead)] && IsBlank(Final(lead))
  {
    BlankKind(lead[0]);
    FirstCharacter(lead[0]);
    BlanksGoOn([lead[0]], lead[1..]);
    assert [lead[0]] + lead[1..] == lead;
    OpenedHead(lead);
    ExtendLast([], Opened([lead[0]]), Opened(lead[1..]));
    OneOpened(lead[0]);
    assert [] + [Opened([lead[0]])] == [Opened([lead[0]])];
  }

  lemma OneOpened(c: char)
    ensures Opened([c]) == if c == ' ' then "_" else "-"
  {
    assert [c][..0] == "";
  }

  lemma {:induction false} OpenedHead(s: string)
    requires s != ""
    ensures Opened(s) == Opened([s[0]]) + Opened(s[1..])
  {
    if |s| == 1 {
      assert s == [s[0]] && s[1..] == "";
    } else {
      var rest := s[..|s| - 1];
      OpenedHead(rest);
      assert s[1..][..|s| - 2] == rest[1..] && s[1..][|s| - 2] == s[|s| - 1];
      assert rest[0] == s[0];
    }
  }

  // ---- what the machine takes note of in a phrase ----

  /** The punctuation marks of a text. */
  function Marked(s: string): (r: string)
    ensures forall i :: 0 <= i < |r| ==> IsPunc(r[i])
  {
    if s == "" then "" else Marked(s[..|s| - 1]) + if IsPunc(s[|s| - 1]) then [s[|s| - 1]] else ""
  }

  lemma SqueezeOne(a: string, c: char)
    ensures Squeeze(a + [c]) == Squeezed(Squeeze(a), c)
  {
    assert (a + [c])[..|a|] == a;
  }

  /** Everything that is noted and is no space stays. */
  lemma {:induction false} SqueezeWord(a: string, w: string)
    requires forall i :: 0 <= i < |w| ==> KindOf(w[i]) != Ignored && KindOf(w[i]) != Space
    ensures Squeeze(a + w) == Squeeze(a) + w
  {
    if w == "" {
      assert a + w == a && Squeeze(a) + w == Squeeze(a);
    } else {
      var rest, c := w[..|w| - 1], w[|w| - 1];
      SqueezeWord(a, rest);
      SqueezeOne(a + rest, c);
      LastOnto(a, w);
      LastOnto(Squeeze(a), w);
    }
  }

  /** Blanks stay, unless punctuation comes before. */
  lemma {:induction false} SqueezeBlanks(a: string, s: string)
    requires AllBlank(s) && NoPuncAtEnd(Squeeze(a))
    ensures Squeeze(a + s) == Squeeze(a) + s && NoPuncAtEnd(Squeeze(a + s))
  {
    if s == "" {
      assert a + s == a && Squeeze(a) + s == Squeeze(a);
    } else {
      var rest, c := s[..|s| - 1], s[|s| - 1];
      SqueezeBlanks(a, rest);
      SqueezeBlank(a + rest, c);
      LastOnto(a, s);
      LastOnto(Squeeze(a), s);
    }
  }

  predicate NoPuncAtEnd(t: string) { t != "" ==> KindOf(Final(t)) != Punc }

  lemma SqueezeBlank(a: string, c: char)
    requires IsBlank(c) && NoPuncAtEnd(Squeeze(a))
    ensures Squeeze(a + [c]) == Squeeze(a) + [c] && NoPuncAtEnd(Squeeze(a + [c]))
  {
    BlankKind(c);
    SqueezeOne(a, c);
    FinalOf(Squeeze(a), c);
  }

  /** Spaces in punctuation are dropped. */
  lemma {:induction false} SqueezePuncs(a: string, s: string)
    requires s != "" && IsPunc(s[0]) && forall i :: 0 <= i < |s| ==> IsPunc(s[i]) || s[i] == ' '
    ensures Squeeze(a + s) == Squeeze(a) + Marked(s) && Marked(s) != "" && Dashes(Marked(s)) == Dashes(s)
  {
    var rest, c := s[..|s| - 1], s[|s| - 1];
    BlankKind(c);
    LastOnto(a, s);
    SqueezeOne(a + rest, c);
    if rest == "" {
      assert s == [c] && a + rest == a && Marked(s) == [c];
      assert Marked(s)[..0] == "";
    } else {
      SqueezePuncs(a, rest);
      FinalMark(Squeeze(a), Marked(rest));
      OneMoreMark(Squeeze(a), s, rest, c);
    }
  }

  lemma OneMoreMark(t: string, s: string, rest: string, c: char)
    requires s != "" && rest == s[..|s| - 1] && c == s[|s| - 1] && (IsPunc(c) || c == ' ')
    requires Marked(rest) != "" && KindOf(Final(t + Marked(rest))) == Punc && Dashes(Marked(rest)) == Dashes(rest)
    ensures Squeezed(t + Marked(rest), c) == t + Marked(s) && Marked(s) != "" && Dashes(Marked(s)) == Dashes(s)
  {
    MarkKept(t, Marked(rest), c);
    assert Marked(s) == if IsPunc(c) then Marked(rest) + [c] else Marked(rest) + "";
    DashesPush(Marked(rest), c);
  }

  lemma MarkKept(t: string, marks: string, c: char)
    requires marks != "" && KindOf(Final(t + marks)) == Punc && (IsPunc(c) || c == ' ')
    ensures Squeezed(t + marks, c) == if IsPunc(c) then t + (marks + [c]) else t + (marks + "")
  {
    BlankKind(c);
    assert t + marks + [c] == t + (marks + [c]) && marks + "" == marks;
  }

  lemma DashesPush(s: string, c: char)
    ensures Dashes(s + [c]) == Dashes(s) + if c == ' ' then "" else "-"
    ensures Dashes(s + "") == Dashes(s) + ""
  {
    assert (s + [c])[..|s|] == s && s + "" == s && Dashes(s) + "" == Dashes(s);
  }

  lemma FinalMark(t: string, marks: string)
    requires marks != "" && AllPunc(marks)
    ensures KindOf(Final(t + marks)) == Punc
  {
    BlankKind(marks[|marks| - 1]);
    assert Final(t + marks) == marks[|marks| - 1];
  }

  // ---- phrases ----

  /** The text is squeezed to t, whose pieces these are, and ends in that word. */
  ghost predicate ReadUpTo(text: string, ps: seq<string>, last: string) {
    && Squeeze(text) != "" && Pieces(Squeeze(text)) == ps
    && IsWord(last) && KindOf(Final(Squeeze(text))) == EndOf(last)
  }

  lemma WordsAreNoted(w: string)
    requires IsWord(w)
    ensures forall i :: 0 <= i < |w| ==> KindOf(w[i]) != Ignored && KindOf(w[i]) != Space
  {
    KindsOf(w);
    if Capitalised(w) {
      KindsOf(w[1..]);
      assert forall i :: 1 <= i < |w| ==> w[i] == w[1..][i - 1];
    }
  }

  lemma AppendedWord(t: string, w: string)
    requires IsWord(w)
    ensures Final(t + w) == Final(w) && t + w != ""
  {
  }

  lemma PartRead(text: string, ps: seq<string>, last: string, part: Part)
    requires ReadUpTo(text, ps, last) && ValidSep(part.sep) && IsWord(part.word)
    requires part.sep.Nothing? ==> MayFollow(last, part.word)
    ensures ReadUpTo(text + TextOf(part.sep) + part.word,
                     ps + if part.sep.Punct? then [Between(part.sep), Lowered(part.word)]
                          else [Between(part.sep) + Lowered(part.word)],
                     part.word)
  {
    var w := part.word;
    WordsAreNoted(w);
    EndsIn(w);
    SqueezeWord(text + TextOf(part.sep), w);
    match part.sep {
      case Nothing =>
        assert text + "" == text;
        WordNext(Squeeze(text), last, w);
        AppendedWord(Squeeze(text), w);
      case Blank(s) =>
        BlankThenWord(text, Squeeze(text), s, w);
      case Punct(s) =>
        PunctThenWord(text, Squeeze(text), s, w);
        assert ps + [Dashes(s)] + [Lowered(w)] == ps + [Dashes(s), Lowered(w)];
    }
  }

  lemma BlankThenWord(text: string, t: string, s: string, w: string)
    requires t == Squeeze(text) != "" && IsWordKind(KindOf(Final(t))) && s != "" && AllBlank(s) && IsWord(w)
    ensures Squeeze(text + s) == t + s && Final(t + s + w) == Final(w)
    ensures Pieces(t + s + w) == Pieces(t) + [Between(Blank(s)) + Lowered(w)]
  {
    SqueezeBlanks(text, s);
    BlanksBegin(t, s, t + s);
    BlankKind(Final(t + s));
    WordAfterBlank(t + s, w);
    ExtendLast(Pieces(t), Between(Blank(s)), Lowered(w));
    AppendedWord(t + s, w);
  }

  lemma PunctThenWord(text: string, t: string, s: string, w: string)
    requires t == Squeeze(text) != "" && IsWordKind(KindOf(Final(t))) && ValidSep(Punct(s)) && IsWord(w)
    ensures Squeeze(text + s) != "" && Final(Squeeze(text + s) + w) == Final(w)
    ensures Pieces(Squeeze(text + s) + w) == Pieces(t) + [Dashes(s)] + [Lowered(w)]
  {
    SqueezePuncs(text, s);
    PuncsBegin(t, Marked(s));
    WordAfterPunc(t + Marked(s), w);
    AppendedWord(t + Marked(s), w);
  }

  lemma {:induction false} PhraseRead(lead: string, first: string, parts: seq<Part>)
    requires ValidPhrase(lead, first, parts)
    ensures ReadUpTo(PhraseText(lead, first, parts), PhrasePieces(lead, first, parts), LastWord(first, parts))
  {
    if parts == [] {
      WordsAreNoted(first);
      EndsIn(first);
      assert Squeeze("") == "" && "" + lead == lead;
      SqueezeBlanks("", lead);
      SqueezeWord(lead, first);
      FirstWord(lead, first);
      AppendedWord(lead, first);
    } else {
      PhraseRead(lead, first, parts[..|parts| - 1]);
      PartRead(PhraseText(lead, first, parts[..|parts| - 1]), PhrasePieces(lead, first, parts[..|parts| - 1]),
               LastWord(first, parts[..|parts| - 1]), parts[|parts| - 1]);
    }
  }

  lemma {:induction false} PiecesJoin(lead: string, first: string, parts: seq<Part>)
    ensures Joined(PhrasePieces(lead, first, parts)) == PhraseName(lead, first, parts)
  {
    if parts == [] {
      assert AllButLast([Opened(lead) + Lowered(first)]) == [];
      assert "" + (Opened(lead) + Lowered(first)) == Opened(lead) + Lowered(first);
    } else {
      var part, ps := parts[|parts| - 1], PhrasePieces(lead, first, parts[..|parts| - 1]);
      PiecesJoin(lead, first, parts[..|parts| - 1]);
      JoinedPush(ps, Between(part.sep), Lowered(part.word));
    }
  }

  lemma JoinedPush(ps: seq<string>, a: string, b: string)
    ensures Joined(ps + [a + b]) == Joined(ps) + a + b == Joined(ps + [a, b])
  {
    assert AllButLast(ps + [a + b]) == ps;
    assert AllButLast(ps + [a, b]) == ps + [a];
    assert AllButLast(ps + [a]) == ps;
    assert Joined(ps) + (a + b) == Joined(ps) + a + b;
  }

  /** The unbounded name of a phrase is its words in lower case: joined by underscores where one directly
    * follows another, by what the separators become elsewhere. */
  lemma PhraseIsNamed(lead: string, first: string, parts: seq<Part>)
    requires ValidPhrase(lead, first, parts)
    ensures FullName(PhraseText(lead, first, parts)) == PhraseName(lead, first, parts)
  {
    PhraseRead(lead, first, parts);
    PiecesJoin(lead, first, parts);
  }

  /** Under the bound the name ends after a whole number of words, each with what stands before it, or
    * with the dashes of punctuation; only a first word that does not fit is cut. */
  lemma PhraseIsCut(lead: string, first: string, parts: seq<Part>, max: nat) returns (k: nat)
    requires ValidPhrase(lead, first, parts)
    ensures var (ps, name) := (PhrasePieces(lead, first, parts), NameOf(PhraseText(lead, first, parts), max));
            && k <= |ps| && |name| <= max
            && if k == 0 then |ps[0]| > max && name == ps[0][..max]
               else name == Joined(ps[..k]) && (k < |ps| ==> |Joined(ps[..k + 1])| > max)
  {
    PhraseRead(lead, first, parts);
    var ps := PhrasePieces(lead, first, parts);
    assert ps != [];
    k := ShortenKeeps(ps, max);
  }

  lemma {:induction false} NameBeginsWith(lead: string, first: string, parts: seq<Part>)
    ensures Opened(lead) + Lowered(first) <= PhraseName(lead, first, parts)
  {
    if parts != [] { NameBeginsWith(lead, first, parts[..|parts| - 1]); }
  }

  lemma {:induction false} OpenedChars(s: string)
    ensures s != "" ==> Opened(s) != "" && (Opened(s)[0] == '_' || Opened(s)[0] == '-')
    ensures s == "" ==> Opened(s) == ""
  {
    if s != "" { OpenedChars(s[..|s| - 1]); }
  }

  /** A generated name has the prefix exactly when the phrase does not begin with a letter. */
  lemma PrefixIsAdded(lead: string, first: string, parts: seq<Part>, prefix: string, max: nat)
    requires ValidPhrase(lead, first, parts) && IsWord(first) && max > 0
    ensures var (text, letter) := (PhraseText(lead, first, parts), lead == "" && IsLetter(first[0]));
            GenerateName(text, prefix, max) == Some((if letter then "" else prefix) + NameOf(text, max))
  {
    var text := PhraseText(lead, first, parts);
    var name := NameOf(text, max);
    PhraseRead(lead, first, parts);
    SqueezeEmptyIff(text);
    GenerateNameFailsIff(text, prefix, max);
    assert name != "";
    NameIsPrefix(text, max);
    PhraseIsNamed(lead, first, parts);
    NameBeginsWith(lead, first, parts);
    assert name[0] == PhraseName(lead, first, parts)[0] == (Opened(lead) + Lowered(first))[0];
    OpenedChars(lead);
    LowerCase(first[0]);
    FirstOfWord(first);
    assert "" + name == name;
  }

  lemma FirstOfWord(w: string)
    requires IsWord(w)
    ensures IsLetter(w[0]) || IsDigit(w[0])
  {
  }

  /** Characters that are not noted leave no trace. */
  lemma {:induction false} IgnoredVanish(a: string, c: char, b: string, max: nat)
    requires c as int > 127 || (c as int < 32) || c as int == 127
    ensures Squeeze(a + [c] + b) == Squeeze(a + b) && NameOf(a + [c] + b, max) == NameOf(a + b, max)
  {
    if b == "" {
      SqueezeOne(a, c);
      assert a + [c] + b == a + [c] && a + b == a;
    } else {
      var rest, r := b[..|b| - 1], b[|b| - 1];
      IgnoredVanish(a, c, rest, max);
      SqueezeOne(a + [c] + rest, r);
      SqueezeOne(a + rest, r);
      assert a + [c] + rest + [r] == a + [c] + b && a + rest + [r] == a + b;
    }
  }

  /** The punctuation marks. */
  lemma PunctuationMarks(c: char)
    ensures IsPunc(c) <==> c in "!\"#$%&'()*+," || c in "./" || c in ":;<=>?@" || c in "[\\]^" || c == '`' || c in "{|}~"
  {
  }

  /** Lower case of a letter. */
  lemma LowerCase(c: char)
    ensures ToLower(c) == if 'A' <= c <= 'Z' then (c as int + 32) as char else c
  {
  }

  /** A capitalised word, capitals and a capitalised word, as in AnnualTPSReport. */
  lemma CapitalsBetween(a: string, b: string, c: string)
    requires Capitalised(a) && Capitals(b) && Capitalised(c)
    ensures FullName(a + b + c) == Lowered(a) + "_" + Lowered(b) + "_" + Lowered(c)
  {
    var one, two := [Part(Nothing, b)], [Part(Nothing, b), Part(Nothing, c)];
    assert two[..1] == one && one[..0] == [];
    assert IsLower(a[1..][0]) && a[1] == a[1..][0];
    assert ValidPhrase("", a, []) && ValidPhrase("", a, one);
    PhraseIsNamed("", a, two);
    assert "" + a == a && a + "" + b == a + b && a + b + "" + c == a + b + c;
    assert PhraseText("", a, one) == a + b;
    assert "" + Lowered(a) == Lowered(a);
    assert PhraseName("", a, one) == Lowered(a) + "_" + Lowered(b);
  }

  lemma AnnualTPSReport()
    ensures FullName("Annual" + "TPS" + "Report") == "annual" + "_" + "tps" + "_" + "report"
  {
    assert "Annual"[1..] == "nnual" && "Report"[1..] == "eport";
    CapitalsBetween("Annual", "TPS", "Report");
    assert Lowered("Annual") == "annual" && Lowered("TPS") == "tps" && Lowered("Report") == "report";
  }
}
