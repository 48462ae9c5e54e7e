/** The language of dataset references: its grammar, its printers and its parser
  * (dsref/parse.go, dsref/ref.go). */
module RefGrammar {
  import opened Prelude
  import opened DsRef

  // ---- the character classes and regular expressions of the grammar ----

  datatype CharClass = WordOrDash | Alnum | Base32 | Base58 | NotSlash

  predicate IsLower(c: char) { 'a' <= c <= 'z' }
  predicate IsUpper(c: char) { 'A' <= c <= 'Z' }
  predicate IsLetter(c: char) { IsLower(c) || IsUpper(c) }
  predicate IsDigit(c: char) { '0' <= c <= '9' }

  predicate In(k: CharClass, c: char) {
    match k
    case WordOrDash => IsLetter(c) || IsDigit(c) || c == '_' || c == '-'
    case Alnum => IsLetter(c) || IsDigit(c)
    case Base32 => IsLower(c) || '2' <= c <= '7'
    case Base58 => ('1' <= c <= '9') || (IsUpper(c) && c != 'I' && c != 'O') || (IsLower(c) && c != 'l')
    case NotSlash => c != '/'
  }

  predicate All(k: CharClass, s: string) { forall i :: 0 <= i < |s| ==> In(k, s[i]) }

  /** The length of the longest prefix in a class. */
  function Span(k: CharClass, s: string): (n: nat)
    ensures n <= |s|
  {
    if s == "" || !In(k, s[0]) then 0 else 1 + Span(k, s[1..])
  }

  lemma {:induction false} SpanIsLongest(k: CharClass, s: string)
    ensures All(k, s[..Span(k, s)])
    ensures Span(k, s) < |s| ==> !In(k, s[Span(k, s)])
  {
    if s != "" && In(k, s[0]) {
      SpanIsLongest(k, s[1..]);
      assert s[..Span(k, s)] == [s[0]] + s[1..][..Span(k, s[1..])];
    }
  }

  lemma {:induction false} SpanStops(k: CharClass, a: string, b: string)
    requires All(k, a) && (b == "" || !In(k, b[0]))
    ensures Span(k, a + b) == |a|
  {
    if a != "" {
      assert (a + b)[1..] == a[1..] + b;
      SpanStops(k, a[1..], b);
    } else {
      assert a + b == b;
    }
  }

  /** [a-zA-Z][\w-]* */
  predicate AlphaNumeric(s: string) { s != "" && IsLetter(s[0]) && All(WordOrDash, s) }

  /** [a-z2-7]{0,52} */
  predicate LogbookID(s: string) { |s| <= 52 && All(Base32, s) }

  /** Qm[0-9a-zA-Z]{0,44} */
  predicate B58ID(s: string) { 2 <= |s| <= 46 && s[0] == 'Q' && s[1] == 'm' && All(Alnum, s[2..]) }

  /** ^Qm[1-9A-HJ-NP-Za-km-z]*$ */
  predicate StrictB58(s: string) { 2 <= |s| && s[0] == 'Q' && s[1] == 'm' && All(Base58, s[2..]) }

  /** ^[a-zA-Z][\w-]{0,143}$ */
  predicate IsValidName(s: string) { AlphaNumeric(s) && |s| <= 144 }

  /** The leftmost match of the name expression: the longest one, "" when there is none. */
  function FindName(text: string): (m: string)
    ensures |m| <= |text|
  {
    if text == "" || !IsLetter(text[0]) then "" else text[..Span(WordOrDash, text)]
  }

  lemma NameFound(text: string)
    requires text != "" && IsLetter(text[0])
    ensures var m := FindName(text);
            AlphaNumeric(m) && text == m + text[|m|..] && (|m| < |text| ==> !In(WordOrDash, text[|m|]))
  {
    SpanIsLongest(WordOrDash, text);
  }

  lemma NameStops(name: string, rest: string)
    requires AlphaNumeric(name) && (rest == "" || !In(WordOrDash, rest[0]))
    ensures FindName(name + rest) == name && (name + rest)[|name|..] == rest
  {
    SpanStops(WordOrDash, name, rest);
    assert (name + rest)[0] == name[0];
  }

  /** The three groups of a match of the concrete reference expression. */
  datatype Groups = Groups(id: string, network: string, hash: string)

  function Whole(g: Groups): string { "@" + g.id + "/" + g.network + "/" + g.hash }

  /** What the expression can match at the front of a text. */
  predicate ConcreteMatch(text: string, g: Groups) {
    && (LogbookID(g.id) || B58ID(g.id)) && AlphaNumeric(g.network) && B58ID(g.hash)
    && Whole(g) <= text
  }

  /** An identifier between '@' and the slash that ends it, and what follows the slash. */
  function TakeID(text: string): Option<(string, string)> {
    if text == "" || text[0] != '@' then None
    else
      var n := Span(NotSlash, text[1..]);
      var id, rest := text[1..][..n], text[1..][n..];
      if rest == "" || !(LogbookID(id) || B58ID(id)) then None else Some((id, rest[1..]))
  }

  /** A network name, ended by a slash, and what follows the slash. */
  function TakeNetwork(text: string): Option<(string, string)> {
    var network := FindName(text);
    var rest := text[|network|..];
    if network == "" || rest == "" || rest[0] != '/' then None else Some((network, rest[1..]))
  }

  lemma TakenID(text: string)
    requires TakeID(text).Some?
    ensures var (id, rest) := TakeID(text).value; text == "@" + (id + ("/" + rest)) && (LogbookID(id) || B58ID(id))
  {
    var n := Span(NotSlash, text[1..]);
    var id, rest := text[1..][..n], text[1..][n..];
    SpanIsLongest(NotSlash, text[1..]);
    assert rest == "/" + rest[1..];
    assert text[1..] == id + rest;
    assert text == "@" + text[1..];
  }

  lemma TakenNetwork(text: string)
    requires TakeNetwork(text).Some?
    ensures var (network, rest) := TakeNetwork(text).value; text == network + ("/" + rest) && AlphaNumeric(network)
  {
    NameFound(text);
    var rest := text[|FindName(text)|..];
    assert rest == "/" + rest[1..];
  }

  /** The match the expression finds: ids and networks end at their slash, the hash is as long as it
    * can be. */
  function FindConcrete(text: string): Option<Groups> {
    match TakeID(text)
    case None => None
    case Some((id, afterID)) =>
      match TakeNetwork(afterID)
      case None => None
      case Some((network, afterNetwork)) =>
        var hash := FindHash(afterNetwork);
        if hash == "" then None else Some(Groups(id, network, hash))
  }

  function FindHash(text: string): (m: string)
    ensures |m| <= |text|
  {
    if |text| < 2 || text[0] != 'Q' || text[1] != 'm' then ""
    else
      var n := Span(Alnum, text[2..]);
      text[..2 + if n > 44 then 44 else n]
  }

  lemma HashFound(text: string)
    requires FindHash(text) != ""
    ensures B58ID(FindHash(text)) && text == FindHash(text) + text[|FindHash(text)|..]
  {
    var n := Span(Alnum, text[2..]);
    SpanIsLongest(Alnum, text[2..]);
    var m := FindHash(text);
    forall i | 0 <= i < |m| - 2 ensures In(Alnum, m[2..][i]) {
      assert m[2..][i] == text[2..][..n][i];
    }
  }

  lemma HashIsLongest(text: string, hash: string)
    requires B58ID(hash) && hash <= text
    ensures hash <= FindHash(text)
    ensures hash == text ==> FindHash(text) == hash
  {
    var body, rest := hash[2..], text[|hash|..];
    assert text[2..] == body + rest;
    SpanAtLeast(Alnum, body, rest);
  }

  lemma {:induction false} SpanAtLeast(k: CharClass, a: string, b: string)
    requires All(k, a)
    ensures Span(k, a + b) >= |a|
  {
    if a != "" {
      assert (a + b)[1..] == a[1..] + b;
      SpanAtLeast(k, a[1..], b);
    }
  }

  lemma IDHasNoSlash(id: string)
    requires LogbookID(id) || B58ID(id)
    ensures All(NotSlash, id)
  {
    if B58ID(id) {
      assert forall i :: 2 <= i < |id| ==> id[i] == id[2..][i - 2];
    }
  }

  lemma TakesID(id: string, rest: string)
    requires LogbookID(id) || B58ID(id)
    ensures TakeID("@" + (id + ("/" + rest))) == Some((id, rest))
  {
    var text := "@" + (id + ("/" + rest));
    IDHasNoSlash(id);
    SpanStops(NotSlash, id, "/" + rest);
    assert text[1..] == id + ("/" + rest);
    assert text[1..][..|id|] == id && text[1..][|id|..] == "/" + rest;
    assert ("/" + rest)[1..] == rest;
  }

  lemma TakesNetwork(network: string, rest: string)
    requires AlphaNumeric(network)
    ensures TakeNetwork(network + ("/" + rest)) == Some((network, rest))
  {
    NameStops(network, "/" + rest);
    assert ("/" + rest)[1..] == rest;
  }

  lemma BreakWhole(g: Groups, rest: string)
    ensures Whole(g) + rest == "@" + (g.id + ("/" + (g.network + ("/" + (g.hash + rest)))))
  {
  }

  /** The parts of a text in the shape of a concrete reference are found again. */
  lemma FindsParts(g: Groups, rest: string)
    requires (LogbookID(g.id) || B58ID(g.id)) && AlphaNumeric(g.network) && B58ID(g.hash)
    ensures FindConcrete(Whole(g) + rest) == Some(g.(hash := FindHash(g.hash + rest)))
    ensures g.hash <= FindHash(g.hash + rest) && (rest == "" ==> FindHash(g.hash + rest) == g.hash)
  {
    BreakWhole(g, rest);
    TakesID(g.id, g.network + ("/" + (g.hash + rest)));
    TakesNetwork(g.network, g.hash + rest);
    HashIsLongest(g.hash + rest, g.hash);
  }

  /** The search finds a match whenever there is one, agrees with every match on id and network, and
    * its hash extends the hash of every match: greedy and leftmost. */
  lemma FindConcreteIsMatch(text: string)
    ensures FindConcrete(text).Some? ==> ConcreteMatch(text, FindConcrete(text).value)
    ensures forall g :: ConcreteMatch(text, g) ==>
              FindConcrete(text).Some? &&
              var found := FindConcrete(text).value;
              found.id == g.id && found.network == g.network && g.hash <= found.hash
  {
    if FindConcrete(text).Some? {
      FoundIsMatch(text);
    }
    forall g | ConcreteMatch(text, g)
      ensures FindConcrete(text).Some? && g.hash <= FindConcrete(text).value.hash
      ensures FindConcrete(text).value.id == g.id && FindConcrete(text).value.network == g.network
    {
      var rest := text[|Whole(g)|..];
      assert text == Whole(g) + rest;
      FindsParts(g, rest);
    }
  }

  lemma FoundIsMatch(text: string)
    requires FindConcrete(text).Some?
    ensures ConcreteMatch(text, FindConcrete(text).value)
    ensures text == Whole(FindConcrete(text).value) + text[|Whole(FindConcrete(text).value)|..]
  {
    var g := FindConcrete(text).value;
    var end := FoundShape(text);
    Front(Whole(g), end);
  }

  lemma FoundShape(text: string) returns (end: string)
    requires FindConcrete(text).Some?
    ensures text == Whole(FindConcrete(text).value) + end
    ensures var g := FindConcrete(text).value;
            (LogbookID(g.id) || B58ID(g.id)) && AlphaNumeric(g.network) && B58ID(g.hash)
  {
    TakenID(text);
    var afterID := TakeID(text).value.1;
    TakenNetwork(afterID);
    var afterNetwork := TakeNetwork(afterID).value.1;
    var g := FindConcrete(text).value;
    HashFound(afterNetwork);
    end := afterNetwork[|g.hash|..];
    PutTogether(text, g, afterID, afterNetwork, end);
  }

  lemma PutTogether(text: string, g: Groups, afterID: string, afterNetwork: string, end: string)
    requires text == "@" + (g.id + ("/" + afterID)) && afterID == g.network + ("/" + afterNetwork)
    requires afterNetwork == g.hash + end
    ensures text == Whole(g) + end
  {
    BreakWhole(g, end);
  }

  lemma Front(a: string, b: string)
    ensures a <= a + b && (a + b)[|a|..] == b
  {
  }

  // ---- printing ----

  /** r.Human(): user/name. */
  function Human(r: Ref): string { r.username + if r.name != "" then "/" + r.name else "" }

  /** r.String(). */
  function Print(r: Ref): string {
    Human(r) + (if r.initID != "" || r.path != "" then "@" else "") + r.initID + r.path
  }

  /** r.LegacyProfileIDString(). */
  function PrintLegacy(r: Ref): string {
    Human(r) + (if r.initID != "" || r.path != "" then "@" else "") + r.profileID + r.path
  }

  // ---- parsing ----

  datatype ParseErr =
    | NoErr | EmptyRef | NoMatch | UnexpectedChar | UnexpectedAt(pos: int, c: char) | NeedSeparator | NoDatasetName
    | NotHumanFriendly | BadCaseName | InvalidNetwork | BadBase32 | BadBase58

  datatype Portion = Portion(remain: string, partial: Ref, err: ParseErr)

  datatype Parsed = Parsed(ref: Ref, err: ParseErr)

  function HumanPortion(text: string): Portion {
    var username := FindName(text);
    if username == "" then Portion(text, EMPTY_REF, NoMatch)
    else
      var r, rest := EMPTY_REF.(username := username), text[|username|..];
      if rest == "" then Portion(rest, r, NeedSeparator)
      else if rest[0] != '/' then Portion(rest, r, UnexpectedChar)
      else
        var name := FindName(rest[1..]);
        if name == "" then Portion(rest[1..], r, NoDatasetName)
        else Portion(rest[1..][|name|..], r.(name := name), NoErr)
  }

  function ConcretePortion(text: string): Portion {
    match FindConcrete(text)
    case None => Portion(text, EMPTY_REF, NoMatch)
    case Some(g) =>
      if g.network != "mem" && g.network != "ipfs" then Portion(text, EMPTY_REF, InvalidNetwork)
      else if g.id != "" && !StrictB58(g.id) && !All(Base32, g.id) then Portion(text, EMPTY_REF, BadBase32)
      else
        var r := if g.id == "" then EMPTY_REF
                 else if StrictB58(g.id) then EMPTY_REF.(profileID := g.id) else EMPTY_REF.(initID := g.id);
        if !StrictB58(g.hash) then Portion(text, r, BadBase58)
        else
          FoundIsMatch(text);
          Portion(text[|Whole(g)|..], r.(path := "/" + g.network + "/" + g.hash), NoErr)
  }

  predicate HasUpper(s: string) { exists i :: 0 <= i < |s| && IsUpper(s[i]) }

  /** The checks at the end of every parse: nothing left over, no upper case in the name. */
  function Finish(r: Ref, text: string, length: nat): Parsed {
    if text != "" then Parsed(r, UnexpectedAt(length - |text|, text[0]))
    else if HasUpper(r.name) then Parsed(r, BadCaseName)
    else Parsed(r, NoErr)
  }

  /** The concrete portion, if there is one, then the final checks. */
  function ParseRest(r: Ref, text: string, length: nat): Parsed { AfterConcrete(r, ConcretePortion(text), text, length) }

  function AfterConcrete(r: Ref, concrete: Portion, text: string, length: nat): Parsed {
    if concrete.err == NoMatch then Finish(r, text, length)
    else if concrete.err != NoErr then Parsed(r, concrete.err)
    else Finish(WithConcrete(r, concrete.partial), concrete.remain, length)
  }

  function WithConcrete(r: Ref, c: Ref): Ref { r.(profileID := c.profileID, initID := c.initID, path := c.path) }

  function ParseRef(text: string, peerRef: bool): Parsed {
    if text == "" then Parsed(EMPTY_REF, EmptyRef)
    else
      var human := HumanPortion(text);
      if human.err == NoErr then ParseRest(human.partial, human.remain, |text|)
      else if human.err == NoMatch then ParseRest(EMPTY_REF, text, |text|)
      else if human.err == NeedSeparator && peerRef then Parsed(human.partial, NoErr)
      else if human.err == UnexpectedChar && human.remain != "" then
        Parsed(EMPTY_REF, UnexpectedAt(|text| - |human.remain|, human.remain[0]))
      else Parsed(EMPTY_REF, human.err)
  }

  function ParseHuman(text: string): Parsed {
    if text == "" then Parsed(EMPTY_REF, EmptyRef)
    else
      var human := HumanPortion(text);
      if human.err != NoErr && human.err != NoMatch then Parsed(EMPTY_REF, human.err)
      else
        var rest := if human.err == NoErr then human.remain else text;
        var r := if human.err == NoErr then human.partial else EMPTY_REF;
        if rest != "" && rest[0] == '@' then Parsed(r, NotHumanFriendly)
        else Finish(r, rest, |text|)
  }

  method FindUpper(s: string) returns (found: bool)
    ensures found <==> HasUpper(s)
  {
    for i := 0 to |s|
      invariant forall k :: 0 <= k < i ==> !IsUpper(s[k])
    {
      if IsUpper(s[i]) { return true; }
    }
    found := false;
  }

  /** parse: reads a human-friendly portion, then a concrete one, off the front of the text. */
  method Parse(input: string, peerRef: bool) returns (r: Ref, err: ParseErr)
    ensures Parsed(r, err) == ParseRef(input, peerRef)
  {
    var text := input;
    r := EMPTY_REF;
    if |text| == 0 { return r, EmptyRef; }
    var origLength := |text|;

    var human := HumanPortion(text);
    PortionIsAlias(text);
    ghost var parsed := ParseRef(text, peerRef);
    if human.err == NoErr {
      text := human.remain;
      r := r.(username := human.partial.username, name := human.partial.name);
    } else if human.err == NeedSeparator && peerRef {
      return human.partial, NoErr;
    } else if human.err == UnexpectedChar && human.remain != "" {
      return r, UnexpectedAt(|text| - |human.remain|, human.remain[0]);
    } else if human.err != NoMatch {
      return r, human.err;
    }

    assert parsed == ParseRest(r, text, origLength);
    r, err := ParseConcrete(r, text, origLength);
  }

  lemma PortionIsAlias(text: string)
    ensures var partial := HumanPortion(text).partial;
            partial == EMPTY_REF.(username := partial.username, name := partial.name)
  {
  }

  /** The rest of parse, after the human-friendly portion. */
  method ParseConcrete(before: Ref, text: string, origLength: nat) returns (r: Ref, err: ParseErr)
    ensures Parsed(r, err) == ParseRest(before, text, origLength)
  {
    r := before;
    var concrete := ConcretePortion(text);
    var remain := text;
    if concrete.err == NoErr {
      remain := concrete.remain;
      r := WithConcrete(r, concrete.partial);
    } else if concrete.err != NoMatch {
      return r, concrete.err;
    }
    err := CheckRest(r, remain, origLength);
  }

  /** The checks at the end of both parsers. */
  method CheckRest(r: Ref, text: string, origLength: nat) returns (err: ParseErr)
    ensures Parsed(r, err) == Finish(r, text, origLength)
  {
    if text != "" {
      return UnexpectedAt(origLength - |text|, text[0]);
    }
    var upper := FindUpper(r.name);
    err := if upper then BadCaseName else NoErr;
  }

  method ParseHumanFriendly(input: string) returns (r: Ref, err: ParseErr)
    ensures Parsed(r, err) == ParseHuman(input)
  {
    var text := input;
    r := EMPTY_REF;
    if |text| == 0 { return r, EmptyRef; }
    var origLength := |text|;
    var human := HumanPortion(text);
    if human.err == NoErr {
      text := human.remain;
      r := r.(username := human.partial.username, name := human.partial.name);
    } else if human.err != NoMatch {
      return r, human.err;
    }
    if text != "" && text[0] == '@' {
      return r, NotHumanFriendly;
    }
    err := CheckRest(r, text, origLength);
  }

  // ---- parser and printer are inverse ----

  predicate ValidAlias(r: Ref) {
    (r.username == "" && r.name == "") || (AlphaNumeric(r.username) && AlphaNumeric(r.name))
  }

  function PathOf(network: string, hash: string): string { "/" + network + "/" + hash }

  predicate ValidHash(hash: string) { B58ID(hash) && StrictB58(hash) }

  ghost predicate ValidPath(path: string) {
    exists network, hash :: path == PathOf(network, hash) && (network == "mem" || network == "ipfs") && ValidHash(hash)
  }

  /** The references the grammar describes: dataset names are in lower case. */
  ghost predicate Grammatical(r: Ref) { AnyCase(r) && !HasUpper(r.name) }

  ghost predicate AnyCase(r: Ref) {
    && ValidAlias(r)
    && (r.path == "" || ValidPath(r.path))
    && (r.username != "" || r.path != "")
    && LogbookID(r.initID)
    && (r.profileID == "" || ValidHash(r.profileID))
    && (r.initID == "" || r.profileID == "")
    && (r.initID != "" || r.profileID != "" ==> r.path != "")
  }

  /** A reference printed by the printer that shows its identifier. */
  function PrintAny(r: Ref): string { if r.profileID == "" then Print(r) else PrintLegacy(r) }

  // ---- the human-friendly portion ----

  lemma HumanPrinted(username: string, name: string, rest: string)
    requires AlphaNumeric(username) && AlphaNumeric(name) && (rest == "" || rest[0] == '@')
    ensures HumanPortion(username + ("/" + (name + rest))) ==
            Portion(rest, EMPTY_REF.(username := username, name := name), NoErr)
  {
    var tail := "/" + (name + rest);
    NameStops(username, tail);
    assert tail[1..] == name + rest;
    NameStops(name, rest);
  }

  lemma HumanRead(text: string)
    requires HumanPortion(text).err == NoErr
    ensures var (username, name) := (HumanPortion(text).partial.username, HumanPortion(text).partial.name);
            && AlphaNumeric(username) && AlphaNumeric(name)
            && text == username + ("/" + (name + HumanPortion(text).remain))
            && HumanPortion(text).partial == EMPTY_REF.(username := username, name := name)
  {
    NameFound(text);
    var username := FindName(text);
    var rest := text[|username|..];
    NameFound(rest[1..]);
    var name := FindName(rest[1..]);
    Nested(text, username, rest, rest[1..], name, rest[1..][|name|..]);
  }

  lemma Nested(text: string, a: string, rest: string, after: string, b: string, tail: string)
    requires text == a + rest && rest != "" && rest[0] == '/' && after == rest[1..] == b + tail
    ensures text == a + ("/" + (b + tail))
  {
    assert rest == "/" + after;
  }

  // ---- the concrete portion ----

  /** The identifier in a printed reference. */
  function IDOf(r: Ref): string { if r.profileID == "" then r.initID else r.profileID }

  /** The parts of a reference that a concrete portion sets. */
  ghost predicate ValidConcrete(r: Ref) {
    ValidPath(r.path) && LogbookID(r.initID) && (r.profileID == "" || ValidHash(r.profileID)) && (r.initID == "" || r.profileID == "")
  }

  lemma LogbookIDIsNoHash(id: string)
    requires id != "" && All(Base32, id)
    ensures !StrictB58(id) && !B58ID(id)
  {
    assert In(Base32, id[0]);
  }

  lemma ConcreteOf(g: Groups)
    requires (LogbookID(g.id) || ValidHash(g.id)) && (g.network == "mem" || g.network == "ipfs") && ValidHash(g.hash)
    ensures ConcretePortion(Whole(g)) ==
            Portion("", Ref(if StrictB58(g.id) then "" else g.id, "", if StrictB58(g.id) then g.id else "", "",
                            PathOf(g.network, g.hash)), NoErr)
  {
    assert Whole(g) + "" == Whole(g) && g.hash + "" == g.hash;
    assert AlphaNumeric(g.network);
    FindsParts(g, "");
    if g.id != "" && !StrictB58(g.id) {
      assert All(Base32, g.id);
    }
  }

  lemma ConcretePrinted(r: Ref)
    requires ValidConcrete(r)
    ensures ConcretePortion("@" + IDOf(r) + r.path) == Portion("", Ref(r.initID, "", r.profileID, "", r.path), NoErr)
  {
    var network, hash :| r.path == PathOf(network, hash) && (network == "mem" || network == "ipfs") && ValidHash(hash);
    var g := Groups(IDOf(r), network, hash);
    assert "@" + IDOf(r) + r.path == Whole(g);
    if r.initID != "" { LogbookIDIsNoHash(r.initID); }
    ConcreteOf(g);
  }

  lemma ConcreteRead(text: string)
    requires ConcretePortion(text).err == NoErr
    ensures var r := ConcretePortion(text).partial;
            && ValidConcrete(r) && r.username == r.name == "" && r.path != ""
            && text == TailOf(r) + ConcretePortion(text).remain
  {
    var end := FoundShape(text);
    var g := FindConcrete(text).value;
    if g.id != "" && All(Base32, g.id) { LogbookIDIsNoHash(g.id); }
    ReadGroups(g, ConcretePortion(text).partial);
    Front(Whole(g), end);
  }

  /** What the parser makes of a match is a valid reference that prints to the match. */
  lemma ReadGroups(g: Groups, r: Ref)
    requires (LogbookID(g.id) || B58ID(g.id)) && B58ID(g.hash) && StrictB58(g.hash)
    requires (g.network == "mem" || g.network == "ipfs") && (g.id == "" || StrictB58(g.id) || All(Base32, g.id))
    requires g.id != "" && All(Base32, g.id) ==> !StrictB58(g.id) && !B58ID(g.id)
    requires r == Ref(if StrictB58(g.id) then "" else g.id, "", if StrictB58(g.id) then g.id else "", "",
                      PathOf(g.network, g.hash))
    ensures ValidConcrete(r) && r.path != "" && TailOf(r) == Whole(g)
  {
  }

  lemma ConcreteNoMatch(text: string)
    requires text == "" || text[0] != '@'
    ensures ConcretePortion(text) == Portion(text, EMPTY_REF, NoMatch)
  {
  }

  // ---- whole references ----

  /** What a reference prints after its alias. */
  function TailOf(r: Ref): string { if r.path == "" then "" else "@" + IDOf(r) + r.path }

  lemma PrintedParts(r: Ref)
    requires r.initID == "" || r.profileID == ""
    requires r.initID != "" || r.profileID != "" ==> r.path != ""
    ensures PrintAny(r) == Human(r) + TailOf(r)
  {
    Flat(Human(r), "@", IDOf(r), r.path);
  }

  lemma Flat(human: string, at: string, id: string, path: string)
    ensures human + at + id + path == human + (at + id + path)
    ensures human + "" + "" + "" == human == human + ""
  {
  }

  lemma AliasText(r: Ref, tail: string)
    requires r.username != "" ==> r.name != ""
    requires r.username == "" ==> r.name == ""
    ensures Human(r) + tail == if r.username == "" then tail else r.username + ("/" + (r.name + tail))
  {
    if r.username == "" {
      assert Human(r) == "";
      assert "" + tail == tail;
    } else {
      Flat(r.username, "/", r.name, tail);
      assert "/" + r.name + tail == "/" + (r.name + tail);
      assert Human(r) + tail == r.username + "/" + r.name + tail;
    }
  }

  /** What follows the human-friendly portion of a printed reference, read back. */
  lemma ParsesRest(r: Ref, alias: Ref, tail: string, length: nat)
    requires AnyCase(r) && tail == TailOf(r)
    requires alias == EMPTY_REF.(username := r.username, name := r.name)
    ensures ParseRest(alias, tail, length) == Parsed(r, CaseErr(r))
  {
    if r.path != "" {
      ConcretePrinted(r);
    } else {
      ConcreteNoMatch(tail);
    }
  }

  /** What comes of a reference that is read to its end. */
  function CaseErr(r: Ref): ParseErr { if HasUpper(r.name) then BadCaseName else NoErr }

  lemma ParsesPrinted(r: Ref)
    requires AnyCase(r)
    ensures ParseRef(PrintAny(r), false) == Parsed(r, CaseErr(r))
  {
    var tail := TailOf(r);
    PrintedParts(r);
    AliasText(r, tail);
    if r.username != "" {
      ParsesAliased(r, tail, PrintAny(r));
    } else {
      ParsesConcrete(r, tail);
    }
  }

  lemma ParsesAliased(r: Ref, tail: string, text: string)
    requires AnyCase(r) && r.username != "" && tail == TailOf(r) && text == r.username + ("/" + (r.name + tail))
    ensures ParseRef(text, false) == Parsed(r, CaseErr(r))
  {
    HumanPrinted(r.username, r.name, tail);
    ParsesRest(r, EMPTY_REF.(username := r.username, name := r.name), tail, |text|);
  }

  lemma ParsesConcrete(r: Ref, text: string)
    requires AnyCase(r) && r.username == "" && text == TailOf(r)
    ensures ParseRef(text, false) == Parsed(r, CaseErr(r))
  {
    assert text[0] == '@';
    assert HumanPortion(text) == Portion(text, EMPTY_REF, NoMatch);
    ParsesRest(r, EMPTY_REF, text, |text|);
  }

  /** The text was read to its end. */
  predicate IsRead(err: ParseErr) { err == NoErr || err == BadCaseName }

  /** A concrete portion that is read to the end, and what it leaves unset. */
  lemma ReadsRest(alias: Ref, text: string, length: nat)
    requires alias == EMPTY_REF.(username := alias.username, name := alias.name)
    requires IsRead(ParseRest(alias, text, length).err)
    ensures var r := ParseRest(alias, text, length).ref;
            && r.username == alias.username && r.name == alias.name && ParseRest(alias, text, length).err == CaseErr(r)
            && (if text == "" then r == alias else ValidConcrete(r) && r.path != "" && text == TailOf(r))
  {
    var concrete := ConcretePortion(text);
    if concrete.err == NoErr {
      ConcreteRead(text);
      FinishedRest(alias, text, length, concrete.partial);
    }
  }

  lemma FinishedRest(alias: Ref, text: string, length: nat, c: Ref)
    requires IsRead(Finish(WithConcrete(alias, c), ConcretePortion(text).remain, length).err)
    requires ValidConcrete(c) && c.path != "" && text == TailOf(c) + ConcretePortion(text).remain
    ensures var r := WithConcrete(alias, c);
            text != "" && ValidConcrete(r) && text == TailOf(r) && Finish(r, ConcretePortion(text).remain, length) == Parsed(r, CaseErr(r))
  {
    assert TailOf(c) + "" == TailOf(c) == TailOf(WithConcrete(alias, c));
  }

  lemma ReadsWhatItPrints(text: string)
    ensures var (r, err) := (ParseRef(text, false).ref, ParseRef(text, false).err);
            IsRead(err) ==> AnyCase(r) && PrintAny(r) == text && err == CaseErr(r)
  {
    if IsRead(ParseRef(text, false).err) {
      var human := HumanPortion(text);
      if human.err == NoErr {
        HumanRead(text);
        ReadsRest(human.partial, human.remain, |text|);
        WholeIsPrinted(ParseRef(text, false).ref, human.remain, text);
      } else {
        ReadsRest(EMPTY_REF, text, |text|);
        WholeIsPrinted(ParseRef(text, false).ref, text, text);
      }
    }
  }

  lemma WholeIsPrinted(r: Ref, rest: string, text: string)
    requires if r.username == "" then r.name == "" && text == rest && rest != ""
             else AlphaNumeric(r.username) && AlphaNumeric(r.name) && text == r.username + ("/" + (r.name + rest))
    requires if rest == "" then r == EMPTY_REF.(username := r.username, name := r.name)
             else ValidConcrete(r) && r.path != "" && rest == TailOf(r)
    ensures AnyCase(r) && PrintAny(r) == text
  {
    AliasText(r, rest);
    PrintedParts(r);
  }

  /** Parser and printer are inverse: a text parses to a reference exactly when the reference is in
    * the grammar and prints to the text. */
  lemma ParseIffPrinted(text: string, r: Ref)
    ensures ParseRef(text, false) == Parsed(r, NoErr) <==> Grammatical(r) && PrintAny(r) == text
  {
    if ParseRef(text, false) == Parsed(r, NoErr) { ReadsWhatItPrints(text); }
    if Grammatical(r) && PrintAny(r) == text { ParsesPrinted(r); }
  }

  /** A reference whose name has upper-case letters is returned too, with the error that callers
    * tolerate, exactly when it is grammatical otherwise and prints to the text. */
  lemma BadCaseIff(text: string, peerRef: bool, r: Ref)
    ensures ParseRef(text, peerRef) == Parsed(r, BadCaseName) <==>
            AnyCase(r) && PrintAny(r) == text && exists i :: 0 <= i < |r.name| && 'A' <= r.name[i] <= 'Z'
  {
    if ParseRef(text, false) == Parsed(r, BadCaseName) { ReadsWhatItPrints(text); }
    if AnyCase(r) && PrintAny(r) == text { ParsesPrinted(r); }
    assert HasUpper(r.name) <==> exists i :: 0 <= i < |r.name| && 'A' <= r.name[i] <= 'Z' by {
      forall i | 0 <= i < |r.name| ensures IsUpper(r.name[i]) <==> 'A' <= r.name[i] <= 'Z' {}
    }
  }

  /** ParsePeerRef accepts a username alone besides. */
  lemma ParsePeerIff(text: string, r: Ref)
    ensures ParseRef(text, true) == Parsed(r, NoErr) <==>
            (Grammatical(r) && PrintAny(r) == text) || (AlphaNumeric(text) && r == EMPTY_REF.(username := text))
  {
    ParseIffPrinted(text, r);
    if AlphaNumeric(text) {
      NameStops(text, "");
      assert text + "" == text;
      assert HumanPortion(text) == Portion("", EMPTY_REF.(username := text), NeedSeparator);
    } else if HumanPortion(text).err == NeedSeparator {
      NameFound(text);
    }
  }

  /** ParseHumanFriendly accepts exactly the references with a username and a name alone. */
  lemma ParseHumanIff(text: string, r: Ref)
    ensures ParseHuman(text) == Parsed(r, NoErr) <==> Grammatical(r) && r.path == "" && Print(r) == text
  {
    if ParseHuman(text) == Parsed(r, NoErr) { ReadsHuman(text); }
    if Grammatical(r) && r.path == "" && Print(r) == text { ParsesHuman(r); }
  }

  /** and returns those whose name has upper-case letters with the same error. */
  lemma BadCaseHumanIff(text: string, r: Ref)
    ensures ParseHuman(text) == Parsed(r, BadCaseName) <==>
            AnyCase(r) && r.path == "" && Print(r) == text && exists i :: 0 <= i < |r.name| && 'A' <= r.name[i] <= 'Z'
  {
    if ParseHuman(text) == Parsed(r, BadCaseName) { ReadsHuman(text); }
    if AnyCase(r) && r.path == "" && Print(r) == text { ParsesHuman(r); }
    assert HasUpper(r.name) <==> exists i :: 0 <= i < |r.name| && 'A' <= r.name[i] <= 'Z' by {
      forall i | 0 <= i < |r.name| ensures IsUpper(r.name[i]) <==> 'A' <= r.name[i] <= 'Z' {}
    }
  }

  lemma ReadsHuman(text: string)
    requires IsRead(ParseHuman(text).err)
    ensures var r := ParseHuman(text).ref;
            AnyCase(r) && r.path == "" && Print(r) == text && ParseHuman(text).err == CaseErr(r)
  {
    var r := HumanPortion(text).partial;
    HumanRead(text);
    HumanText(r, r.username, r.name);
  }

  lemma ParsesHuman(r: Ref)
    requires AnyCase(r) && r.path == ""
    ensures ParseHuman(Print(r)) == Parsed(r, CaseErr(r))
  {
    HumanText(r, r.username, r.name);
    HumanPrinted(r.username, r.name, "");
  }

  lemma HumanText(r: Ref, username: string, name: string)
    requires r == EMPTY_REF.(username := username, name := name) && name != ""
    ensures Print(r) == username + ("/" + (name + ""))
  {
    Flat(Human(r), "", "", "");
    assert "/" + name == "/" + (name + "");
  }
}
