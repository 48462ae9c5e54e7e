/** What each error of the reference parsers says of the text (dsref/parse.go). */
module ParseErrors {
  import opened DsRef
  import opened RefGrammar

  /** A character that can be part of a name. */
  predicate NameCharacter(c: char) { 'a' <= c <= 'z' || 'A' <= c <= 'Z' || '0' <= c <= '9' || c == '_' || c == '-' }

  /** A text that does not begin with a letter has no alias; any other has one that is as long as can be. */
  ghost predicate Begins(text: string, username: string, name: string, tail: string) {
    if username == "" then name == "" && text == tail && (text == "" || !IsLetter(text[0]))
    else
      && AlphaNumeric(username) && AlphaNumeric(name) && text == username + ("/" + (name + tail))
      && (tail == "" || !NameCharacter(tail[0]))
  }

  function Alias(username: string, name: string): Ref { Ref("", username, "", name, "") }

  lemma InWord(c: char)
    ensures In(WordOrDash, c) <==> NameCharacter(c)
  {
  }

  lemma BeginsRead(text: string, username: string, name: string, tail: string)
    requires Begins(text, username, name, tail)
    ensures HumanPortion(text) ==
            if username == "" then Portion(text, EMPTY_REF, NoMatch) else Portion(tail, Alias(username, name), NoErr)
  {
    if username != "" {
      if tail != "" { InWord(tail[0]); }
      var rest := "/" + (name + tail);
      NameStops(username, rest);
      assert rest[1..] == name + tail;
      NameStops(name, tail);
    }
  }

  /** What a text without an error in its alias begins with. */
  lemma ReadBegins(text: string) returns (username: string, name: string, tail: string)
    requires HumanPortion(text).err == NoErr || HumanPortion(text).err == NoMatch
    ensures Begins(text, username, name, tail)
  {
    if HumanPortion(text).err == NoMatch {
      if text != "" && IsLetter(text[0]) { NameFound(text); }
      username, name, tail := "", "", text;
    } else {
      HumanRead(text);
      var rest := text[|FindName(text)|..];
      NameFound(rest[1..]);
      username, name, tail := HumanPortion(text).partial.username, HumanPortion(text).partial.name, HumanPortion(text).remain;
      if tail != "" { InWord(tail[0]); }
    }
  }

  // ---- the expressions ----

  /** The characters of s in a row from lo on. */
  predicate Row(s: string, lo: char) { forall i :: 0 <= i < |s| ==> s[i] as int == lo as int + i }

  lemma InRow(c: char, s: string, lo: char)
    requires Row(s, lo)
    ensures c in s <==> lo as int <= c as int < lo as int + |s|
  {
    if lo as int <= c as int < lo as int + |s| { assert s[c as int - lo as int] == c; }
  }

  /** The alphabets of identifiers and hashes: lower-case base32 of section 6 of RFC 4648, and base58
    * without 0, I, O and l. */
  lemma Alphabets(c: char)
    ensures In(Base32, c) <==> c in "abcdefghijklmnopqrstuvwxyz" || c in "234567"
    ensures In(Base58, c) <==> c in "123456789" || c in "ABCDEFGH" || c in "JKLMN" || c in "PQRSTUVWXYZ"
                               || c in "abcdefghijk" || c in "mnopqrstuvwxyz"
  {
    Rows32(c);
    Rows58(c);
  }

  lemma Rows32(c: char)
    ensures In(Base32, c) <==> c in "abcdefghijklmnopqrstuvwxyz" || c in "234567"
  {
    InRow(c, "abcdefghijklmnopqrstuvwxyz", 'a');
    InRow(c, "234567", '2');
  }

  lemma Rows58(c: char)
    ensures In(Base58, c) <==> c in "123456789" || c in "ABCDEFGH" || c in "JKLMN" || c in "PQRSTUVWXYZ"
                               || c in "abcdefghijk" || c in "mnopqrstuvwxyz"
  {
    InRow(c, "123456789", '1');
    InRow(c, "ABCDEFGH", 'A');
    InRow(c, "JKLMN", 'J');
    InRow(c, "PQRSTUVWXYZ", 'P');
    InRow(c, "abcdefghijk", 'a');
    InRow(c, "mnopqrstuvwxyz", 'm');
  }

  /** How long the parts may be. */
  lemma Lengths(s: string)
    ensures LogbookID(s) <==> |s| <= 52 && forall i :: 0 <= i < |s| ==> In(Base32, s[i])
    ensures B58ID(s) <==> 2 <= |s| <= 46 && s[..2] == "Qm" && All(Alnum, s[2..])
    ensures StrictB58(s) <==> 2 <= |s| && s[..2] == "Qm" && All(Base58, s[2..])
    ensures IsValidName(s) <==> AlphaNumeric(s) && |s| <= 144
    ensures AlphaNumeric(s) <==> s != "" && IsLetter(s[0]) && forall i :: 0 <= i < |s| ==> NameCharacter(s[i])
  {
    assert |s| >= 2 ==> s[..2] == [s[0], s[1]];
    forall i | 0 <= i < |s| ensures In(WordOrDash, s[i]) <==> NameCharacter(s[i]) { InWord(s[i]); }
  }

  // ---- errors in the alias ----

  /** What can come of the text after an alias. */
  predicate RestError(err: ParseErr) {
    IsRead(err) || err.UnexpectedAt? || err == InvalidNetwork || err == BadBase32 || err == BadBase58
  }

  lemma RestErrors(r: Ref, text: string, length: nat)
    ensures RestError(ParseRest(r, text, length).err)
  {
    ConcreteErrors(text);
    AfterErrors(r, ConcretePortion(text), text, length);
  }

  lemma ConcreteErrors(text: string)
    ensures var err := ConcretePortion(text).err;
            err == NoErr || err == NoMatch || err == InvalidNetwork || err == BadBase32 || err == BadBase58
  {
  }

  lemma AfterErrors(r: Ref, concrete: Portion, text: string, length: nat)
    requires concrete.err == NoErr || concrete.err == NoMatch || RestError(concrete.err)
    ensures RestError(AfterConcrete(r, concrete, text, length).err)
  {
  }

  /** How an error of the alias reaches the caller. */
  lemma ErrorOfAlias(text: string, peerRef: bool)
    requires text != ""
    ensures var (human, err) := (HumanPortion(text), ParseRef(text, peerRef).err);
            match human.err
            case NoErr => RestError(err)
            case NoMatch => RestError(err)
            case NeedSeparator => if peerRef then err == NoErr else err == NeedSeparator
            case NoDatasetName => err == NoDatasetName
            case UnexpectedChar => err.UnexpectedAt?
            case _ => false
  {
    RestErrors(HumanPortion(text).partial, HumanPortion(text).remain, |text|);
    RestErrors(EMPTY_REF, text, |text|);
    PortionErrors(text);
  }

  lemma PortionErrors(text: string)
    ensures var human := HumanPortion(text);
            && (human.err == NoErr || human.err == NoMatch || human.err == NeedSeparator || human.err == NoDatasetName
                || human.err == UnexpectedChar)
            && (human.err == UnexpectedChar ==> human.remain != "")
  {
  }

  lemma HumanErrorOfAlias(text: string)
    requires text != ""
    ensures var (human, err) := (HumanPortion(text).err, ParseHuman(text).err);
            if human == NoErr || human == NoMatch then IsRead(err) || err.UnexpectedAt? || err == NotHumanFriendly
            else err == human
  {
    PortionErrors(text);
  }

  lemma EmptyRefIff(text: string, peerRef: bool)
    ensures ParseRef(text, peerRef).err == EmptyRef <==> text == ""
    ensures ParseHuman(text).err == EmptyRef <==> text == ""
    ensures text == "" ==> ParseHuman(text) == ParseRef(text, peerRef) == Parsed(EMPTY_REF, EmptyRef)
  {
    if text != "" {
      ErrorOfAlias(text, peerRef);
      HumanErrorOfAlias(text);
      PortionErrors(text);
    }
  }

  /** The text is a name alone. */
  lemma NeedSeparatorIff(text: string, peerRef: bool)
    ensures ParseRef(text, peerRef).err == NeedSeparator <==> AlphaNumeric(text) && !peerRef
    ensures ParseHuman(text).err == NeedSeparator <==> AlphaNumeric(text)
    ensures AlphaNumeric(text) ==> ParseHuman(text) == ParseRef(text, false) == Parsed(EMPTY_REF, NeedSeparator)
  {
    NameAlone(text);
    if text != "" {
      ErrorOfAlias(text, peerRef);
      HumanErrorOfAlias(text);
    }
  }

  lemma NameAlone(text: string)
    ensures HumanPortion(text).err == NeedSeparator <==> AlphaNumeric(text)
  {
    if AlphaNumeric(text) {
      NameStops(text, "");
      assert text + "" == text;
    } else if HumanPortion(text).err == NeedSeparator {
      NameFound(text);
    }
  }

  /** The text is a name and a slash, without a name after it. */
  ghost predicate LacksName(text: string) {
    exists username, rest :: AlphaNumeric(username) && text == username + ("/" + rest) && (rest == "" || !IsLetter(rest[0]))
  }

  lemma NoDatasetNameIff(text: string, peerRef: bool)
    ensures ParseRef(text, peerRef).err == NoDatasetName <==> LacksName(text)
    ensures ParseHuman(text).err == NoDatasetName <==> LacksName(text)
    ensures LacksName(text) ==> ParseHuman(text) == ParseRef(text, peerRef) == Parsed(EMPTY_REF, NoDatasetName)
  {
    NameLacking(text);
    if text != "" {
      ErrorOfAlias(text, peerRef);
      HumanErrorOfAlias(text);
    }
  }

  lemma NameLacking(text: string)
    ensures HumanPortion(text).err == NoDatasetName <==> LacksName(text)
  {
    if HumanPortion(text).err == NoDatasetName {
      NameFound(text);
      LackFound(text, FindName(text), text[|FindName(text)|..]);
    }
    if LacksName(text) {
      var username, rest :| AlphaNumeric(username) && text == username + ("/" + rest) && (rest == "" || !IsLetter(rest[0]));
      NameStops(username, "/" + rest);
      assert ("/" + rest)[1..] == rest;
    }
  }

  lemma LackFound(text: string, username: string, rest: string)
    requires text == username + rest && AlphaNumeric(username) && rest != "" && rest[0] == '/' && FindName(rest[1..]) == ""
    ensures LacksName(text)
  {
    assert rest == "/" + rest[1..];
    if rest[1..] != "" && IsLetter(rest[1]) { NameFound(rest[1..]); }
    assert text == username + ("/" + rest[1..]);
  }

  /** A name is followed by something that is neither part of it nor a slash. */
  ghost predicate StrayAfterName(text: string, pos: nat) {
    0 < pos < |text| && AlphaNumeric(text[..pos]) && text[pos] != '/' && !NameCharacter(text[pos])
  }

  lemma StrayRead(text: string, pos: nat)
    requires StrayAfterName(text, pos)
    ensures HumanPortion(text) == Portion(text[pos..], EMPTY_REF.(username := text[..pos]), UnexpectedChar)
  {
    InWord(text[pos]);
    assert text == text[..pos] + text[pos..];
    NameStops(text[..pos], text[pos..]);
  }

  lemma StrayFound(text: string) returns (pos: nat)
    requires HumanPortion(text).err == UnexpectedChar
    ensures StrayAfterName(text, pos)
  {
    NameFound(text);
    pos := |FindName(text)|;
    assert text[..pos] == FindName(text);
    InWord(text[pos]);
  }

  /** ParseHumanFriendly returns that error as it is; the other parsers say where. */
  lemma UnexpectedCharIff(text: string, peerRef: bool)
    ensures ParseHuman(text).err == UnexpectedChar <==> exists pos: nat :: StrayAfterName(text, pos)
    ensures ParseRef(text, peerRef).err != UnexpectedChar
  {
    if text != "" {
      ErrorOfAlias(text, peerRef);
      HumanErrorOfAlias(text);
    }
    if HumanPortion(text).err == UnexpectedChar {
      var pos := StrayFound(text);
    }
    if pos: nat :| StrayAfterName(text, pos) { StrayRead(text, pos); }
  }

  lemma StrayIsReported(text: string, peerRef: bool, pos: nat)
    requires StrayAfterName(text, pos)
    ensures ParseRef(text, peerRef) == Parsed(EMPTY_REF, UnexpectedAt(pos, text[pos]))
    ensures ParseHuman(text) == Parsed(EMPTY_REF, UnexpectedChar)
  {
    StrayRead(text, pos);
  }

  // ---- what follows the alias ----

  /** Past an alias without an error the parsers go on with the rest. */
  lemma GoesOn(text: string, peerRef: bool, username: string, name: string, tail: string)
    requires Begins(text, username, name, tail) && text != ""
    ensures ParseRef(text, peerRef) == ParseRest(Alias(username, name), tail, |text|)
    ensures ParseHuman(text) ==
            if tail != "" && tail[0] == '@' then Parsed(Alias(username, name), NotHumanFriendly)
            else Finish(Alias(username, name), tail, |text|)
  {
    BeginsRead(text, username, name, tail);
  }

  /** ParseHumanFriendly finds an identifier or a path after the alias. */
  lemma NotHumanFriendlyIff(text: string)
    ensures ParseHuman(text).err == NotHumanFriendly <==>
            exists username, name, tail :: Begins(text, username, name, tail) && tail != "" && tail[0] == '@'
  {
    if ParseHuman(text).err == NotHumanFriendly {
      var username, name, tail := ReadBegins(text);
      GoesOn(text, false, username, name, tail);
    }
    if username, name, tail :| Begins(text, username, name, tail) && tail != "" && tail[0] == '@' {
      GoesOn(text, false, username, name, tail);
    }
  }

  /** A network that is not known, a bad identifier, or a bad hash. */
  function FlawOf(g: Groups): ParseErr {
    if g.network != "mem" && g.network != "ipfs" then InvalidNetwork
    else if g.id != "" && !StrictB58(g.id) && !All(Base32, g.id) then BadBase32
    else if !StrictB58(g.hash) then BadBase58
    else NoErr
  }

  /** After the alias comes a concrete reference with this flaw. */
  ghost predicate HasFlaw(text: string, flaw: ParseErr) {
    exists username, name, tail, g :: Begins(text, username, name, tail) && ConcreteMatch(tail, g) && FlawOf(g) == flaw
  }

  /** The longest match has the flaws of every shorter one. */
  lemma FlawFound(text: string, g: Groups)
    requires ConcreteMatch(text, g) && FlawOf(g) != NoErr
    ensures ConcretePortion(text).err == FlawOf(g)
  {
    FindConcreteIsMatch(text);
    var found := FindConcrete(text).value;
    assert found.id == g.id && found.network == g.network && g.hash <= found.hash;
    if StrictB58(found.hash) { PrefixIsStrict(g.hash, found.hash); }
  }

  lemma PrefixIsStrict(a: string, b: string)
    requires a <= b && StrictB58(b) && |a| >= 2
    ensures StrictB58(a)
  {
    assert forall i :: 0 <= i < |a| - 2 ==> a[2..][i] == b[2..][i];
  }

  lemma FlawIff(text: string, peerRef: bool, flaw: ParseErr)
    requires flaw == InvalidNetwork || flaw == BadBase32 || flaw == BadBase58
    ensures ParseRef(text, peerRef).err == flaw <==> HasFlaw(text, flaw)
  {
    if HasFlaw(text, flaw) {
      var username, name, tail, g :| Begins(text, username, name, tail) && ConcreteMatch(tail, g) && FlawOf(g) == flaw;
      FlawFound(tail, g);
      assert text != "" by { MatchHasText(tail, g); }
      GoesOn(text, peerRef, username, name, tail);
    }
    if ParseRef(text, peerRef).err == flaw {
      ErrorOfAlias(text, peerRef);
      var username, name, tail := ReadBegins(text);
      GoesOn(text, peerRef, username, name, tail);
      FlawIsFound(tail, Alias(username, name), |text|, flaw);
    }
  }

  lemma MatchHasText(text: string, g: Groups)
    requires ConcreteMatch(text, g)
    ensures text != ""
  {
    assert |Whole(g)| > 0;
  }

  lemma FlawIsFound(text: string, r: Ref, length: nat, flaw: ParseErr)
    requires flaw == InvalidNetwork || flaw == BadBase32 || flaw == BadBase58
    requires ParseRest(r, text, length).err == flaw
    ensures exists g :: ConcreteMatch(text, g) && FlawOf(g) == flaw
  {
    FlawPasses(r, ConcretePortion(text), text, length, flaw);
    FlawOfFound(text, flaw);
    FindConcreteIsMatch(text);
  }

  lemma FlawPasses(r: Ref, concrete: Portion, text: string, length: nat, flaw: ParseErr)
    requires flaw == InvalidNetwork || flaw == BadBase32 || flaw == BadBase58
    ensures AfterConcrete(r, concrete, text, length).err == flaw <==> concrete.err == flaw
  {
  }

  lemma FlawOfFound(text: string, flaw: ParseErr)
    requires flaw == InvalidNetwork || flaw == BadBase32 || flaw == BadBase58
    requires ConcretePortion(text).err == flaw
    ensures FindConcrete(text).Some? && FlawOf(FindConcrete(text).value) == flaw
  {
    FlawIsError(text);
  }

  lemma FlawIsError(text: string)
    ensures FindConcrete(text).Some? ==> ConcretePortion(text).err == FlawOf(FindConcrete(text).value)
    ensures FindConcrete(text).None? ==> ConcretePortion(text).err == NoMatch
  {
  }

  // ---- where a text goes wrong ----

  /** What has been read before a position: nothing, a username, or a whole reference; and why no more
    * of the text could be read. */
  ghost predicate StopsAt(text: string, r: Ref, pos: nat) {
    && pos < |text|
    && ( (r == EMPTY_REF && StrayAfterName(text, pos))
      || (Begins(text, r.username, r.name, text[pos..]) && r == Alias(r.username, r.name) && forall g :: !ConcreteMatch(text[pos..], g))
      || (AnyCase(r) && r.path != "" && PrintAny(r) == text[..pos] && LongestMatch(text, r, pos)))
  }

  /** No longer reference begins the text. */
  ghost predicate LongestMatch(text: string, r: Ref, pos: nat) {
    forall tail, g :: Begins(text, r.username, r.name, tail) && ConcreteMatch(tail, g) ==> |text| - |tail| + |Whole(g)| <= pos
  }

  /** An unexpected character is where the error says, and what comes before it has been read. */
  lemma UnexpectedAtMeans(text: string, peerRef: bool, r: Ref, pos: int, c: char)
    requires ParseRef(text, peerRef) == Parsed(r, UnexpectedAt(pos, c))
    ensures 0 <= pos < |text| && text[pos] == c && StopsAt(text, r, pos)
  {
    ErrorOfAlias(text, peerRef);
    if HumanPortion(text).err == UnexpectedChar {
      var at := StrayFound(text);
      StrayIsReported(text, peerRef, at);
    } else {
      var username, name, tail := ReadBegins(text);
      GoesOn(text, peerRef, username, name, tail);
      TailStops(text, username, name, tail, r, pos, c);
    }
  }

  lemma TailStops(text: string, username: string, name: string, tail: string, r: Ref, pos: int, c: char)
    requires Begins(text, username, name, tail) && ParseRest(Alias(username, name), tail, |text|) == Parsed(r, UnexpectedAt(pos, c))
    ensures 0 <= pos < |text| && text[pos] == c && StopsAt(text, r, pos)
  {
    ConcreteErrors(tail);
    TailAt(text, username, name, tail);
    AfterStops(Alias(username, name), ConcretePortion(tail), tail, |text|, r, pos, c);
    if ConcretePortion(tail).err == NoMatch {
      NoMatchMeans(tail);
    } else {
      RestStops(text, username, name, tail, r, pos, c);
    }
  }

  lemma AfterStops(alias: Ref, concrete: Portion, tail: string, length: nat, r: Ref, pos: int, c: char)
    requires concrete.err == NoErr || concrete.err == NoMatch || concrete.err == InvalidNetwork || concrete.err == BadBase32
             || concrete.err == BadBase58
    requires AfterConcrete(alias, concrete, tail, length) == Parsed(r, UnexpectedAt(pos, c))
    ensures concrete.err == NoErr || concrete.err == NoMatch
    ensures var remain := if concrete.err == NoErr then concrete.remain else tail;
            && remain != "" && pos == length - |remain| && c == remain[0]
            && r == if concrete.err == NoErr then WithConcrete(alias, concrete.partial) else alias
  {
  }

  /** The tail is the end of the text. */
  lemma TailAt(text: string, username: string, name: string, tail: string)
    requires Begins(text, username, name, tail)
    ensures |tail| <= |text| && text[|text| - |tail|..] == tail
    ensures text[..|text| - |tail|] == if username == "" then "" else username + ("/" + name)
  {
    if username != "" {
      var alias := username + ("/" + name);
      assert text == alias + tail by {
        assert "/" + (name + tail) == "/" + name + tail;
        assert username + ("/" + name + tail) == username + ("/" + name) + tail;
      }
    }
  }

  lemma NoMatchMeans(text: string)
    requires ConcretePortion(text).err == NoMatch
    ensures forall g :: !ConcreteMatch(text, g)
  {
    FindConcreteIsMatch(text);
  }

  /** A whole reference was read, and text follows it. */
  lemma RestStops(text: string, username: string, name: string, tail: string, r: Ref, pos: int, c: char)
    requires Begins(text, username, name, tail) && ConcretePortion(tail).err == NoErr
    requires ParseRest(Alias(username, name), tail, |text|) == Parsed(r, UnexpectedAt(pos, c))
    ensures 0 <= pos < |text| && text[pos] == c && StopsAt(text, r, pos)
  {
    var concrete := ConcretePortion(tail);
    AfterStops(Alias(username, name), concrete, tail, |text|, r, pos, c);
    ConcreteRead(tail);
    TailAt(text, username, name, tail);
    ReadBefore(text, username, name, tail, r, concrete.remain, pos);
    MatchesAreShorter(text, username, name, tail, pos);
  }

  lemma ReadBefore(text: string, username: string, name: string, tail: string, r: Ref, remain: string, pos: int)
    requires Begins(text, username, name, tail) && |tail| <= |text| && text[|text| - |tail|..] == tail
    requires r.username == username && r.name == name && ValidConcrete(r) && r.path != ""
    requires tail == TailOf(r) + remain && remain != "" && pos == |text| - |remain|
    ensures 0 <= pos < |text| && text[pos] == remain[0]
    ensures AnyCase(r) && PrintAny(r) == text[..pos]
  {
    assert |tail| == |TailOf(r)| + |remain|;
    assert text[pos] == tail[|TailOf(r)|] == remain[0];
    assert TailOf(r) != "";
    BeforeRemain(text, username, name, TailOf(r), remain, pos);
    WholeIsPrinted(r, TailOf(r), text[..pos]);
  }

  lemma BeforeRemain(text: string, username: string, name: string, read: string, remain: string, pos: int)
    requires Begins(text, username, name, read + remain) && pos == |text| - |remain| && remain != ""
    ensures 0 <= pos < |text|
    ensures text[..pos] == if username == "" then read else username + ("/" + (name + read))
  {
    if username == "" {
      assert text == read + remain;
    } else {
      var before := username + ("/" + (name + read));
      assert name + (read + remain) == name + read + remain;
      assert "/" + (name + read + remain) == "/" + (name + read) + remain;
      assert text == before + remain;
    }
  }

  lemma MatchesAreShorter(text: string, username: string, name: string, tail: string, pos: int)
    requires Begins(text, username, name, tail) && ConcretePortion(tail).err == NoErr
    requires pos == |text| - |ConcretePortion(tail).remain| && |tail| <= |text|
    ensures forall rest, g :: Begins(text, username, name, rest) && ConcreteMatch(rest, g) ==> |text| - |rest| + |Whole(g)| <= pos
  {
    var found := FoundPortion(tail);
    forall rest, g | Begins(text, username, name, rest) && ConcreteMatch(rest, g)
      ensures |text| - |rest| + |Whole(g)| <= pos
    {
      SameTail(text, username, name, tail, rest);
      LongestIsFound(tail, g);
    }
  }

  lemma SameTail(text: string, username: string, name: string, tail: string, rest: string)
    requires Begins(text, username, name, tail) && Begins(text, username, name, rest)
    ensures rest == tail
  {
    BeginsRead(text, username, name, tail);
    BeginsRead(text, username, name, rest);
  }

  lemma FoundPortion(text: string) returns (whole: string)
    requires ConcretePortion(text).err == NoErr
    ensures FindConcrete(text).Some? && whole == Whole(FindConcrete(text).value) && text == whole + ConcretePortion(text).remain
  {
    whole := Whole(FindConcrete(text).value);
    FoundIsMatch(text);
  }

  lemma LongestIsFound(text: string, g: Groups)
    requires ConcreteMatch(text, g)
    ensures FindConcrete(text).Some? && |Whole(g)| <= |Whole(FindConcrete(text).value)|
  {
    FindConcreteIsMatch(text);
    var found := FindConcrete(text).value;
    assert found.id == g.id && found.network == g.network && |g.hash| <= |found.hash|;
  }

  /** In ParseHumanFriendly: what follows an alias that is read, other than an '@'. */
  lemma UnexpectedAtHumanIff(text: string, r: Ref, pos: int, c: char)
    ensures ParseHuman(text) == Parsed(r, UnexpectedAt(pos, c)) <==>
            0 <= pos < |text| && text[pos] == c && c != '@' && r == Alias(r.username, r.name) &&
            Begins(text, r.username, r.name, text[pos..])
  {
    if ParseHuman(text) == Parsed(r, UnexpectedAt(pos, c)) {
      HumanErrorOfAlias(text);
      PortionErrors(text);
      var username, name, tail := ReadBegins(text);
      GoesOn(text, false, username, name, tail);
      TailAt(text, username, name, tail);
      assert text[pos..] == tail;
    }
    if 0 <= pos < |text| && text[pos] == c && c != '@' && r == Alias(r.username, r.name) &&
       Begins(text, r.username, r.name, text[pos..]) {
      GoesOn(text, false, r.username, r.name, text[pos..]);
    }
  }
}
