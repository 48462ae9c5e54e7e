/** How dataset names are made out of arbitrary text (dsref/generate.go): the word machine, an object that
  * reads one character at a time and flushes words into its result until the bound is met, and, beside
  * it, what each character of the text becomes, stated by its neighbours alone: the character translated,
  * and whether a piece of the name begins there. */
module NameGenerator {
  import opened RefGrammar

  // ---- characters ----

  /** The characters of PuncCharacters: the ASCII punctuation other than '_' and '-'. */
  predicate IsPunc(c: char) {
    || ('!' <= c <= '/' && c != '-') || ':' <= c <= '@'
    || ('[' <= c <= '`' && c != '_') || '{' <= c <= '~'
  }

  datatype Kind = Space | Lower | Upper | Digit | Punc | Dash | Ignored

  function KindOf(c: char): Kind {
    if c == ' ' then Space else if IsLower(c) then Lower else if IsUpper(c) then Upper
    else if IsDigit(c) then Digit else if IsPunc(c) then Punc else if c == '_' || c == '-' then Dash else Ignored
  }

  predicate Alphanum(c: char) { KindOf(c) == Lower || KindOf(c) == Upper || KindOf(c) == Digit }

  function ToLower(c: char): char { if KindOf(c) == Upper then c - 'A' + 'a' else c }

  function Lowered(s: string): (r: string)
    ensures |r| == |s|
  {
    seq(|s|, i requires 0 <= i < |s| => ToLower(s[i]))
  }

  function Final(s: string): char
    requires s != ""
  {
    s[|s| - 1]
  }

  // ---- what becomes of each character ----

  /** The characters the machine takes note of: no control or non-ASCII characters, and no spaces
    * after punctuation. */
  function Squeeze(s: string): string {
    if s == "" then "" else Squeezed(Squeeze(s[..|s| - 1]), Final(s))
  }

  function Squeezed(t: string, c: char): string {
    if KindOf(c) == Ignored || (KindOf(c) == Space && t != "" && KindOf(Final(t)) == Punc) then t else t + [c]
  }

  /** No word has begun before i: the text starts here or a separator comes before. */
  predicate Opening(t: string, i: nat)
    requires i < |t|
  {
    i == 0 || KindOf(t[i - 1]) in {Space, Dash}
  }

  /** A new word begins at i inside a run of letters and digits: between a letter and a digit, before
    * the capital of a camel-cased word, and before the last capital of a run that goes on in lower case. */
  predicate Breaks(t: string, i: nat)
    requires i < |t|
  {
    i > 0 &&
    match (KindOf(t[i - 1]), KindOf(t[i]))
    case (Digit, Lower) => true
    case (Digit, Upper) => true
    case (Lower, Digit) => true
    case (Upper, Digit) => true
    case (Lower, Upper) => true
    case (Upper, Upper) => i + 1 < |t| && KindOf(t[i + 1]) == Lower
    case _ => false
  }

  /** What the character at i becomes. */
  function Glyph(t: string, i: nat): string
    requires i < |t|
  {
    match KindOf(t[i])
    case Space => "_"
    case Dash => if Opening(t, i) then "-" else [t[i]]
    case Punc => if Opening(t, i) then [t[i]] else "-"
    case Ignored => ""
    case _ => (if Breaks(t, i) then "_" else "") + [ToLower(t[i])]
  }

  /** Whether the piece before i ends there: pieces are what the output may be cut between. */
  predicate Starts(t: string, i: nat)
    requires i < |t|
  {
    i > 0 &&
    match KindOf(t[i - 1])
    case Space => false
    case Dash => false
    case Ignored => false
    case Punc => KindOf(t[i]) != Punc
    case _ => !Alphanum(t[i]) || Breaks(t, i)
  }

  datatype Mark = Mark(starts: bool, glyph: string)

  function MarkOf(t: string, i: nat): Mark
    requires i < |t|
  {
    Mark(Starts(t, i), Glyph(t, i))
  }

  function Marks(t: string): (ms: seq<Mark>)
    ensures |ms| == |t| && forall i :: 0 <= i < |t| ==> ms[i] == MarkOf(t, i)
  {
    seq(|t|, i requires 0 <= i < |t| => MarkOf(t, i))
  }

  /** Glyphs put together into pieces. */
  function Group(ms: seq<Mark>): (ps: seq<string>)
    ensures ps == [] <==> ms == []
  {
    if ms == [] then [] else Grouped(Group(ms[..|ms| - 1]), ms[|ms| - 1])
  }

  function Grouped(ps: seq<string>, m: Mark): seq<string> {
    if ps == [] || m.starts then ps + [m.glyph] else Extend(ps, m.glyph)
  }

  function Pieces(t: string): seq<string> { Group(Marks(t)) }

  function Extend(ps: seq<string>, more: string): seq<string>
    requires ps != []
  {
    AllButLast(ps) + [Last(ps) + more]
  }

  function AllButLast(ps: seq<string>): seq<string>
    requires ps != []
  {
    ps[..|ps| - 1]
  }

  function Last(ps: seq<string>): string
    requires ps != []
  {
    ps[|ps| - 1]
  }

  function Joined(ps: seq<string>): string {
    if ps == [] then "" else Joined(AllButLast(ps)) + Last(ps)
  }

  /** As many whole pieces as fit; a first piece that does not fit is cut. */
  function Shorten(ps: seq<string>, max: nat): (r: string)
    ensures |r| <= max
  {
    if ps == [] then ""
    else if |Joined(ps)| <= max then Joined(ps)
    else if |ps| == 1 then assert Joined(AllButLast(ps)) == ""; ps[0][..max]
    else Shorten(AllButLast(ps), max)
  }

  /** The name the machine makes of a text. */
  function NameOf(input: string, max: nat): string {
    Shorten(Pieces(Squeeze(input)), max)
  }

  // ---- one more character ----

  /** The last capital of a run of capitals turns out to begin a word. */
  predicate Splits(t: string, r: char) {
    |t| > 1 && KindOf(t[|t| - 1]) == Upper && KindOf(t[|t| - 2]) == Upper && KindOf(r) == Lower
  }

  /** Marks depend on a character's neighbours alone. */
  lemma MarksStay(t: string, u: string, r: char, i: nat)
    requires u == t + [r] && i < |t| && (i < |t| - 1 || !Splits(t, r))
    ensures MarkOf(u, i) == MarkOf(t, i)
  {
    assert u[i] == t[i] && (i > 0 ==> u[i - 1] == t[i - 1]);
    assert Breaks(u, i) == Breaks(t, i);
    assert Opening(u, i) == Opening(t, i);
  }

  lemma GroupAppend(ms: seq<Mark>, m: Mark)
    ensures Group(ms + [m]) == Grouped(Group(ms), m)
  {
    assert (ms + [m])[..|ms|] == ms;
  }

  lemma PiecesGrow(t: string, u: string, r: char)
    requires u == t + [r] && !Splits(t, r)
    ensures Pieces(u) == Grouped(Pieces(t), MarkOf(u, |t|))
  {
    forall i | 0 <= i < |t| ensures Marks(u)[i] == Marks(t)[i] { MarksStay(t, u, r, i); }
    assert Marks(u) == Marks(t) + [MarkOf(u, |t|)];
    GroupAppend(Marks(t), MarkOf(u, |t|));
  }

  lemma SplitMarks(t: string, u: string, r: char)
    requires Splits(t, r) && u == t + [r]
    ensures var n, c := |t|, ToLower(Final(t));
            && MarkOf(t, n - 1) == Mark(false, [c]) && MarkOf(u, n - 1) == Mark(true, ['_', c])
            && MarkOf(u, n) == Mark(false, [r])
  {
    assert u[|t|] == r && u[|t| - 1] == t[|t| - 1] && u[|t| - 2] == t[|t| - 2];
  }

  lemma MarksSplit(t: string, u: string, r: char, ms: seq<Mark>)
    requires Splits(t, r) && u == t + [r] && ms == Marks(t)[..|t| - 1]
    ensures var c := ToLower(Final(t));
            Marks(t) == ms + [Mark(false, [c])] && Marks(u) == ms + [Mark(true, ['_', c])] + [Mark(false, [r])]
  {
    SplitMarks(t, u, r);
    forall i | 0 <= i < |t| - 1 ensures Marks(u)[i] == Marks(t)[i] { MarksStay(t, u, r, i); }
  }

  /** The last piece loses its last letter, and the letter begins the next one. */
  lemma PiecesSplit(t: string, u: string, r: char) returns (before: seq<string>)
    requires Splits(t, r) && u == t + [r]
    ensures var c := ToLower(Final(t));
            before != [] && Pieces(t) == Extend(before, [c]) && Pieces(u) == before + [['_', c, r]]
  {
    var ms := Marks(t)[..|t| - 1];
    MarksSplit(t, u, r, ms);
    GroupSplit(ms, ToLower(Final(t)), r);
    before := Group(ms);
  }

  lemma GroupSplit(ms: seq<Mark>, c: char, r: char)
    requires ms != []
    ensures Group(ms + [Mark(false, [c])]) == Extend(Group(ms), [c])
    ensures Group(ms + [Mark(true, ['_', c])] + [Mark(false, [r])]) == Group(ms) + [['_', c, r]]
  {
    GroupAppend(ms, Mark(false, [c]));
    GroupAppend(ms, Mark(true, ['_', c]));
    GroupAppend(ms + [Mark(true, ['_', c])], Mark(false, [r]));
    Regroup(Group(ms), c, r);
  }

  lemma Regroup(before: seq<string>, c: char, r: char)
    requires before != []
    ensures Grouped(Grouped(before, Mark(true, ['_', c])), Mark(false, [r])) == before + [['_', c, r]]
  {
    assert ['_', c] + [r] == ['_', c, r];
  }

  // ---- what the machine's variables hold ----

  /** Every piece but the last is in the result; the last is pending. */
  ghost predicate Pending(ps: seq<string>, result: string, next: string, max: nat) {
    && ps != [] && next != "" && result == Joined(AllButLast(ps)) && |result| <= max
    && Last(ps) == Piece(result, Lowered(next)) && (result == "" <==> |ps| == 1)
  }

  /** The pieces before the last do not fit, and what fits of them is in the result. */
  ghost predicate Overflown(ps: seq<string>, result: string, next: string, max: nat) {
    && |ps| > 1 && |Joined(AllButLast(ps))| > max && result == Shorten(AllButLast(ps), max) && (result == "" ==> max == 0)
    && next != "" && |result| + |Piece(result, Lowered(next))| > max
  }

  ghost predicate Remembers(t: string, next: string) {
    && t != "" && KindOf(Final(t)) != Ignored && next != ""
    && (Alphanum(Final(t)) <==> Alphanum(Final(next)))
    && (Alphanum(Final(t)) ==> Final(next) == Final(t))
    && (StateOf(t) == CapsWord ==> |next| > 1 && KindOf(next[|next| - 2]) == Upper)
  }

  lemma AppendsTo(ps: seq<string>, result: string, next: string, more: string, max: nat)
    requires Pending(ps, result, next, max)
    ensures Pending(Extend(ps, Lowered(more)), result, next + more, max)
  {
    assert Lowered(next + more) == Lowered(next) + Lowered(more);
    assert Lowered(next + more)[0] == Lowered(next)[0];
    assert AllButLast(Extend(ps, Lowered(more))) == AllButLast(ps);
  }

  /** The result of a flush that was not refused, or what is left when it was. */
  lemma Flushes(ps: seq<string>, result: string, next: string, piece: string, after: string, max: nat)
    requires Pending(ps, result, next, max) && after != ""
    requires |result| + |Last(ps)| <= max ==> piece == Piece(result + Last(ps), Lowered(after))
    ensures |result| + |Last(ps)| <= max ==> Pending(ps + [piece], result + Last(ps), after, max)
    ensures |result| + |Last(ps)| > max ==>
              Overflown(ps + [piece], if result == "" then Last(ps)[..max] else result, next, max)
  {
    assert AllButLast(ps + [piece]) == ps;
  }

  lemma LaterOverflown(t: string, u: string, r: char, result: string, next: string, max: nat)
    requires u == t + [r] && Overflown(Pieces(t), result, next, max)
    ensures Overflown(Pieces(u), result, next, max)
  {
    var ps := Pieces(t);
    if Splits(t, r) {
      var before := PiecesSplit(t, u, r);
      assert AllButLast(Pieces(u)) == before && AllButLast(ps) == AllButLast(before);
    } else {
      PiecesGrow(t, u, r);
      assert AllButLast(ps) <= AllButLast(Pieces(u));
    }
    StaysOverflown(ps, Pieces(u), result, next, max);
  }

  lemma StaysOverflown(ps: seq<string>, more: seq<string>, result: string, next: string, max: nat)
    requires Overflown(ps, result, next, max) && |more| >= |ps| && AllButLast(ps) <= AllButLast(more)
    ensures Overflown(more, result, next, max)
  {
    ShortenStops(AllButLast(ps), AllButLast(more), max);
  }

  lemma {:induction false} ShortenStops(ps: seq<string>, more: seq<string>, max: nat)
    requires ps != [] && ps <= more && |Joined(ps)| > max
    ensures |Joined(more)| > max && Shorten(more, max) == Shorten(ps, max)
  {
    if |more| > |ps| {
      ShortenStops(ps, AllButLast(more), max);
    } else {
      assert ps == more;
    }
  }

  // ---- the machine ----

  datatype State = Outside | LowerWord | FirstUpper | CapsWord | Number | Punctuation | Exit

  /** The state after a text, unless the machine has left its loop. */
  function StateOf(t: string): State {
    if t == "" then Outside
    else
      match KindOf(Final(t))
      case Lower => LowerWord
      case Upper => if |t| > 1 && KindOf(t[|t| - 2]) == Upper then CapsWord else FirstUpper
      case Digit => Number
      case Punc => Punctuation
      case _ => Outside
  }

  /** A word as it is added after a result. */
  function Piece(result: string, word: string): string {
    if result != "" && word != "" && Alphanum(Final(result)) && Alphanum(word[0]) then "_" + word else word
  }

  /** What reading a character does to the pending word. */
  datatype Action = Skip | Append(to: State, c: char) | Flush(to: State, c: char) | Split(c: char)

  function ActionOf(state: State, r: char): Action {
    match (state, KindOf(r))
    case (_, Ignored) => Skip
    case (Exit, _) => Skip
    case (Outside, Space) => Append(Outside, '_')
    case (Outside, Dash) => Append(Outside, '-')
    case (Outside, Lower) => Append(LowerWord, r)
    case (Outside, Upper) => Append(FirstUpper, r)
    case (Outside, Digit) => Append(Number, r)
    case (Outside, Punc) => Append(Punctuation, r)
    case (LowerWord, Lower) => Append(LowerWord, r)
    case (FirstUpper, Lower) => Append(LowerWord, r)
    case (FirstUpper, Upper) => Append(CapsWord, r)
    case (CapsWord, Upper) => Append(CapsWord, r)
    case (CapsWord, Lower) => Split(r)
    case (Number, Digit) => Append(Number, r)
    case (Punctuation, Punc) => Append(Punctuation, '-')
    case (Punctuation, Space) => Skip
    case (_, Space) => Flush(Outside, '_')
    case (_, Lower) => Flush(LowerWord, r)
    case (_, Upper) => Flush(FirstUpper, r)
    case (_, Digit) => Flush(Number, r)
    case (_, Punc) => Flush(Punctuation, '-')
    case (_, Dash) => Flush(Outside, r)
  }

  datatype Vars = Vars(state: State, result: string, next: string)

  ghost predicate Flushed(v: Vars, to: State, c: char, w: Vars, max: nat) {
    var piece := Piece(v.result, Lowered(v.next));
    if v.next == "" then w == v
    else if |v.result| + |piece| > max then w == Vars(Exit, if v.result == "" then piece[..max] else v.result, v.next)
    else w == Vars(to, v.result + piece, [c])
  }

  ghost predicate Acted(a: Action, v: Vars, w: Vars, max: nat) {
    match a
    case Skip => w == v
    case Append(to, c) => w == Vars(to, v.result, v.next + [c])
    case Flush(to, c) => Flushed(v, to, c, w, max)
    case Split(c) =>
      v.next != "" && w.next != "" && w.next == w.next[..|w.next| - 1] + [c] &&
      Flushed(v.(next := v.next[..|v.next| - 1]), LowerWord, Final(v.next), w.(next := w.next[..|w.next| - 1]), max)
  }

  /** What the variables hold after a text has been read. */
  ghost predicate HasRead(v: Vars, t: string, max: nat) {
    if v.state == Exit then Overflown(Pieces(t), v.result, v.next, max)
    else
      && v.state == StateOf(t)
      && if t == "" then v.result == "" && v.next == ""
         else Pending(Pieces(t), v.result, v.next, max) && Remembers(t, v.next)
  }

  lemma ReadsOne(v: Vars, t: string, r: char, w: Vars, max: nat)
    requires HasRead(v, t, max) && Acted(ActionOf(v.state, r), v, w, max)
    ensures HasRead(w, Squeezed(t, r), max)
  {
    if v.state == Exit {
      ReadsMore(v, t, t + [r], r, w, max);
    } else if t == "" {
      if KindOf(r) != Ignored { FirstRead(v, r, w, max); }
    } else {
      ReadsNext(v, t, t + [r], r, ActionOf(v.state, r), w, max);
    }
  }

  /** After the exit nothing changes any more. */
  lemma ReadsMore(v: Vars, t: string, u: string, r: char, w: Vars, max: nat)
    requires HasRead(v, t, max) && v.state == Exit && u == t + [r] && Acted(ActionOf(Exit, r), v, w, max)
    ensures w == v && HasRead(w, Squeezed(t, r), max)
  {
    if Squeezed(t, r) == u { LaterOverflown(t, u, r, v.result, v.next, max); }
  }

  lemma ReadsNext(v: Vars, t: string, u: string, r: char, a: Action, w: Vars, max: nat)
    requires t != "" && HasRead(v, t, max) && v.state != Exit && u == t + [r]
    requires a == ActionOf(v.state, r) && Acted(a, v, w, max)
    ensures HasRead(w, Squeezed(t, r), max)
  {
    NextAction(t, r);
    if Squeezed(t, r) == u {
      if a.Split? {
        SplitRead(v, t, u, r, w, max);
      } else {
        NextRead(v, t, u, r, a, w, max);
      }
    }
  }

  lemma NextRead(v: Vars, t: string, u: string, r: char, a: Action, w: Vars, max: nat)
    requires t != "" && Pending(Pieces(t), v.result, v.next, max) && Remembers(t, v.next) && v.state == StateOf(t)
    requires u == t + [r] && Squeezed(t, r) == u && !Splits(t, r) && KindOf(r) != Ignored
    requires a == ActionOf(v.state, r) && (a.Append? || a.Flush?) && Acted(a, v, w, max)
    requires a.to == StateOf(u) && (Alphanum(a.c) <==> Alphanum(r)) && (Alphanum(r) ==> a.c == r)
    requires a.to == CapsWord ==> a.Append? && KindOf(Final(t)) == Upper
    ensures HasRead(w, u, max)
  {
    PiecesGrow(t, u, r);
    NextMark(t, u, r);
    if a.Append? {
      AppendRead(v, t, u, MarkOf(u, |t|), a.to, a.c, w, max);
    } else {
      FlushRead(v, t, u, MarkOf(u, |t|), a.to, a.c, w, max);
    }
  }

  lemma FirstRead(v: Vars, r: char, w: Vars, max: nat)
    requires HasRead(v, "", max) && v.state != Exit && KindOf(r) != Ignored && Acted(ActionOf(v.state, r), v, w, max)
    ensures HasRead(w, [r], max)
  {
    FirstMark(r);
    FirstPieces(r);
    var c := ActionOf(Outside, r).c;
    assert w.next == [c];
    FirstPending(Lowered([c]), [c], max);
  }

  lemma FirstPieces(r: char)
    ensures Pieces([r]) == [MarkOf([r], 0).glyph]
  {
    var m := MarkOf([r], 0);
    assert Marks([r]) == [] + [m];
    GroupAppend([], m);
  }

  lemma FirstPending(glyph: string, next: string, max: nat)
    requires next != "" && glyph == Lowered(next)
    ensures Pending([glyph], "", next, max)
  {
    assert AllButLast([glyph]) == [];
  }

  lemma FirstMark(r: char)
    requires KindOf(r) != Ignored
    ensures var a := ActionOf(Outside, r);
            a.Append? && a.to == StateOf([r]) && MarkOf([r], 0).glyph == Lowered([a.c]) && Remembers([r], [a.c])
  {
  }

  /** Whether a character is skipped, and the state after it. */
  lemma NextAction(t: string, r: char)
    requires t != "" && KindOf(Final(t)) != Ignored
    ensures var a := ActionOf(StateOf(t), r);
            && (a.Skip? <==> Squeezed(t, r) == t) && (a.Split? <==> Splits(t, r))
            && (a.Append? || a.Flush? ==>
                  a.to == StateOf(t + [r]) && (Alphanum(a.c) <==> Alphanum(r)) && (Alphanum(r) ==> a.c == r) &&
                  (a.to == CapsWord ==> a.Append? && KindOf(Final(t)) == Upper))
            && (KindOf(r) == Ignored ==> a.Skip?)
  {
    assert (t + [r])[|t| - 1] == Final(t);
    assert |t + [r]| != |t|;
  }

  /** The mark of a character, by what the machine does with it. */
  lemma NextMark(t: string, u: string, r: char)
    requires t != "" && KindOf(Final(t)) != Ignored && u == t + [r] && Squeezed(t, r) == u && !Splits(t, r)
    ensures match ActionOf(StateOf(t), r)
            case Skip => false
            case Split(_) => false
            case Append(_, c) => MarkOf(u, |t|) == Mark(false, [ToLower(c)])
            case Flush(_, c) => MarkOf(u, |t|) == Mark(true, Joint(Final(t), c))
  {
    assert u[|t|] == r && u[|t| - 1] == Final(t);
  }

  /** A word's first character after the last character before it. */
  function Joint(last: char, c: char): string {
    (if Alphanum(last) && Alphanum(c) then "_" else "") + [ToLower(c)]
  }

  lemma AppendRead(v: Vars, t: string, u: string, m: Mark, to: State, c: char, w: Vars, max: nat)
    requires t != "" && Pending(Pieces(t), v.result, v.next, max) && Remembers(t, v.next)
    requires w == Vars(to, v.result, v.next + [c]) && m == Mark(false, [ToLower(c)])
    requires u != "" && Pieces(u) == Grouped(Pieces(t), m) && to == StateOf(u) && to != Exit && KindOf(Final(u)) != Ignored
    requires (Alphanum(c) <==> Alphanum(Final(u))) && (Alphanum(Final(u)) ==> c == Final(u))
    requires to == CapsWord ==> KindOf(Final(t)) == Upper
    ensures HasRead(w, u, max)
  {
    assert Lowered([c]) == [ToLower(c)];
    AppendsTo(Pieces(t), v.result, v.next, [c], max);
  }

  lemma FlushRead(v: Vars, t: string, u: string, m: Mark, to: State, c: char, w: Vars, max: nat)
    requires t != "" && Pending(Pieces(t), v.result, v.next, max) && Remembers(t, v.next)
    requires Flushed(v, to, c, w, max) && m == Mark(true, Joint(Final(t), c))
    requires u != "" && Pieces(u) == Grouped(Pieces(t), m) && to == StateOf(u) && to != Exit && KindOf(Final(u)) != Ignored
    requires (Alphanum(c) <==> Alphanum(Final(u))) && (Alphanum(Final(u)) ==> c == Final(u))
    requires to != CapsWord
    ensures HasRead(w, u, max)
  {
    EndsAlike(v.result, v.next, t, c);
    Flushes(Pieces(t), v.result, v.next, m.glyph, [c], max);
  }

  /** Only whether the text ends in a letter or digit matters for what comes after its last piece. */
  lemma EndsAlike(result: string, next: string, t: string, c: char)
    requires Remembers(t, next)
    ensures Piece(result + Piece(result, Lowered(next)), Lowered([c])) == Joint(Final(t), c)
  {
    EndOfPiece(result, next);
    LowerKind(Final(next));
    LowerKind(c);
    assert Lowered([c]) == [ToLower(c)];
  }

  lemma EndOfPiece(result: string, next: string)
    requires next != ""
    ensures var piece := Piece(result, Lowered(next)); piece != "" && Final(result + piece) == ToLower(Final(next))
  {
    var piece := Piece(result, Lowered(next));
    assert Final(result + piece) == Final(piece);
  }

  lemma LowerKind(c: char)
    ensures KindOf(ToLower(c)) == if KindOf(c) == Upper then Lower else KindOf(c)
  {
  }

  lemma SplitRead(v: Vars, t: string, u: string, r: char, w: Vars, max: nat)
    requires t != "" && Pending(Pieces(t), v.result, v.next, max) && Remembers(t, v.next)
    requires Splits(t, r) && u == t + [r] && Acted(Split(r), v, w, max)
    ensures HasRead(w, u, max)
  {
    var before := PiecesSplit(t, u, r);
    LowerIsLast(u, r);
    SplitNext(t, r, v.next);
    SplitFlush(before, v.(next := v.next[..|v.next| - 1]), Final(t), r, w.(next := w.next[..|w.next| - 1]), max);
  }

  lemma SplitNext(t: string, r: char, next: string)
    requires Remembers(t, next) && Splits(t, r)
    ensures |next| > 1 && next == next[..|next| - 1] + [Final(t)] && KindOf(Final(next[..|next| - 1])) == Upper
  {
  }

  lemma LowerIsLast(u: string, r: char)
    requires u != "" && Final(u) == r && KindOf(r) == Lower
    ensures StateOf(u) == LowerWord && KindOf(r) == Lower
  {
  }

  /** A split flushes the word before the last capital and goes on with the capital. */
  lemma SplitFlush(before: seq<string>, v: Vars, last: char, r: char, w: Vars, max: nat)
    requires before != [] && v.next != "" && KindOf(Final(v.next)) == Upper && KindOf(last) == Upper && KindOf(r) == Lower
    requires Pending(Extend(before, [ToLower(last)]), v.result, v.next + [last], max)
    requires Flushed(v, LowerWord, last, w, max)
    ensures var ps := before + [['_', ToLower(last), r]];
            if w.state == Exit then Overflown(ps, w.result, w.next + [r], max)
            else w.state == LowerWord && w.next == [last] && Pending(ps, w.result, w.next + [r], max)
  {
    var piece := ['_', ToLower(last), r];
    PrevPending(before, v.result, v.next, last, max);
    SplitPiece(v.result, v.next, last, r);
    Flushes(before, v.result, v.next, piece, [last, r], max);
    if |v.result| + |Last(before)| > max {
      LongerOverflown(before + [piece], w.result, v.next, r, max);
    }
  }

  lemma SplitPiece(result: string, next: string, last: char, r: char)
    requires next != "" && KindOf(Final(next)) == Upper && KindOf(last) == Upper && KindOf(r) == Lower
    ensures Piece(result + Piece(result, Lowered(next)), Lowered([last, r])) == ['_', ToLower(last), r]
  {
    EndOfPiece(result, next);
    LowerKind(Final(next));
    LowerKind(last);
    assert Lowered([last, r]) == [ToLower(last), r];
  }

  /** A pending word without its last letter. */
  lemma PrevPending(before: seq<string>, result: string, prev: string, last: char, max: nat)
    requires before != [] && prev != "" && Pending(Extend(before, [ToLower(last)]), result, prev + [last], max)
    ensures Pending(before, result, prev, max)
  {
    var c := [ToLower(last)];
    assert Lowered(prev + [last]) == Lowered(prev) + c;
    assert Lowered(prev + [last])[0] == Lowered(prev)[0];
    assert AllButLast(Extend(before, c)) == AllButLast(before);
    assert Last(before) + c == Piece(result, Lowered(prev)) + c;
    assert (Last(before) + c)[..|Last(before)|] == Last(before);
  }

  lemma LongerOverflown(ps: seq<string>, result: string, next: string, r: char, max: nat)
    requires Overflown(ps, result, next, max)
    ensures Overflown(ps, result, next + [r], max)
  {
    assert Lowered(next + [r]) == Lowered(next) + [ToLower(r)];
    assert Lowered(next + [r])[0] == Lowered(next)[0];
  }

  class Machine {
    var state: State
    var result: string
    var next: string

    constructor ()
      ensures state == Outside && result == "" && next == ""
    {
      state, result, next := Outside, "", "";
    }

    /** flushWord: adds the pending word to the result if it fits, and leaves the loop if not. */
    method FlushWord(nextState: State, nextRune: char, max: nat)
      modifies this
      ensures Flushed(old(Vars(state, result, next)), nextState, nextRune, Vars(state, result, next), max)
    {
      var word := Lowered(next);
      if word == "" { return; }
      if |result| > 0 {
        if Alphanum(result[|result| - 1]) && Alphanum(word[0]) {
          word := "_" + word;
        }
      }
      if |result| + |word| > max {
        if |result| == 0 {
          result := result + word[..max];
        }
        state := Exit;
        return;
      }
      result := result + word;
      next := "";
      state := nextState;
      next := next + [nextRune];
    }

    /** One turn of the loop. */
    method Read(r: char, max: nat)
      requires state == CapsWord ==> next != ""
      modifies this
      ensures Acted(ActionOf(old(state), r), old(Vars(state, result, next)), Vars(state, result, next), max)
    {
      if r as int > 127 { return; }
      var kind := KindOf(r);
      match state {
        case Exit =>
        case Outside =>
          if kind == Space {
            next := next + "_";
          } else if kind == Lower {
            state := LowerWord;
            next := next + [r];
          } else if kind == Upper {
            state := FirstUpper;
            next := next + [r];
          } else if kind == Digit {
            state := Number;
            next := next + [r];
          } else if kind == Punc {
            state := Punctuation;
            next := next + [r];
          } else if kind == Dash {
            next := next + "-";
          }
        case LowerWord =>
          if kind == Space {
            FlushWord(Outside, '_', max);
          } else if kind == Lower {
            next := next + [r];
          } else if kind == Upper {
            FlushWord(FirstUpper, r, max);
          } else if kind == Digit {
            FlushWord(Number, r, max);
          } else if kind == Punc {
            FlushWord(Punctuation, '-', max);
          } else if kind == Dash {
            FlushWord(Outside, r, max);
          }
        case FirstUpper =>
          if kind == Space {
            FlushWord(Outside, '_', max);
          } else if kind == Lower {
            state := LowerWord;
            next := next + [r];
          } else if kind == Upper {
            state := CapsWord;
            next := next + [r];
          } else if kind == Digit {
            FlushWord(Number, r, max);
          } else if kind == Punc {
            FlushWord(Punctuation, '-', max);
          } else if kind == Dash {
            FlushWord(Outside, r, max);
          }
        case CapsWord =>
          if kind == Space {
            FlushWord(Outside, '_', max);
          } else if kind == Lower {
            var prevWord, lastLetter := next[..|next| - 1], next[|next| - 1];
            next := prevWord;
            FlushWord(LowerWord, lastLetter, max);
            next := next + [r];
          } else if kind == Upper {
            next := next + [r];
          } else if kind == Digit {
            FlushWord(Number, r, max);
          } else if kind == Punc {
            FlushWord(Punctuation, '-', max);
          } else if kind == Dash {
            FlushWord(Outside, r, max);
          }
        case Number =>
          if kind == Space {
            FlushWord(Outside, '_', max);
          } else if kind == Lower {
            FlushWord(LowerWord, r, max);
          } else if kind == Upper {
            FlushWord(FirstUpper, r, max);
          } else if kind == Digit {
            next := next + [r];
          } else if kind == Punc {
            FlushWord(Punctuation, '-', max);
          } else if kind == Dash {
            FlushWord(Outside, r, max);
          }
        case Punctuation =>
          if kind == Space {
            return;
          } else if kind == Lower {
            FlushWord(LowerWord, r, max);
          } else if kind == Upper {
            FlushWord(FirstUpper, r, max);
          } else if kind == Digit {
            FlushWord(Number, r, max);
          } else if kind == Punc {
            next := next + "-";
          } else if kind == Dash {
            FlushWord(Outside, r, max);
          }
      }
    }
  }

  /** convertWordsStateMachine: runs the machine over a text and flushes the last word. */
  method ConvertWordsStateMachine(input: string, max: nat) returns (name: string)
    ensures name == NameOf(input, max)
  {
    var m := new Machine();
    assert Marks("") == [];
    for i := 0 to |input|
      invariant HasRead(Vars(m.state, m.result, m.next), Squeeze(input[..i]), max)
      modifies m
    {
      ghost var v := Vars(m.state, m.result, m.next);
      m.Read(input[i], max);
      assert input[..i + 1][..i] == input[..i];
      ReadsOne(v, Squeeze(input[..i]), input[i], Vars(m.state, m.result, m.next), max);
    }
    ghost var v := Vars(m.state, m.result, m.next);
    m.FlushWord(Outside, '\0', max);
    assert input[..|input|] == input;
    Finishes(v, Squeeze(input), Vars(m.state, m.result, m.next), max);
    name := m.result;
  }

  lemma Finishes(v: Vars, t: string, w: Vars, max: nat)
    requires HasRead(v, t, max) && Flushed(v, Outside, '\0', w, max)
    ensures w.result == Shorten(Pieces(t), max)
  {
    var ps := Pieces(t);
    if v.state == Exit {
      ShortenStops(AllButLast(ps), ps, max);
    } else if t == "" {
      assert Marks(t) == [];
    } else {
      assert Joined(ps) == v.result + Last(ps);
    }
  }
}
