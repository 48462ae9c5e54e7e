/** HTTP paths that name datasets, "/user/name/at/net/hash" (lib/api.go): how a path, with or without a
  * query, becomes the string that the reference parser reads. The query is cut off, the first "/at/"
  * becomes "@/", and a leading slash is dropped. */
module HttpPath {
  import opened DsRef
  import opened RefGrammar

  /** strings.Index: where `find` first occurs, -1 when it does not. */
  function Index(s: string, find: string): (i: int)
    ensures i >= -1
  {
    if find <= s then 0
    else if s == "" then -1
    else var i := Index(s[1..], find); if i == -1 then -1 else i + 1
  }

  predicate OccursAt(s: string, k: nat, find: string)
    requires k <= |s|
  {
    find <= s[k..]
  }

  lemma {:induction false} IndexIsFirst(s: string, find: string)
    ensures -1 <= Index(s, find) <= |s|
    ensures var i := Index(s, find);
            if i == -1 then forall k :: 0 <= k <= |s| ==> !OccursAt(s, k, find)
            else OccursAt(s, i, find) && forall k :: 0 <= k < i ==> !OccursAt(s, k, find)
  {
    assert s[0..] == s;
    if !(find <= s) && s != "" {
      IndexIsFirst(s[1..], find);
      forall k | 0 < k <= |s| ensures OccursAt(s, k, find) <==> OccursAt(s[1..], k - 1, find) {
        assert s[k..] == s[1..][k - 1..];
      }
    }
  }

  /** The path up to its query. */
  function WithoutQuery(path: string): string {
    var i := Index(path, "?");
    IndexIsFirst(path, "?");
    if i == -1 then path else path[..i]
  }

  /** strings.Replace with a count of one: the first occurrence only. */
  function ReplaceFirst(s: string, from: string, to: string): string {
    var i := Index(s, from);
    IndexIsFirst(s, from);
    if i == -1 then s else s[..i] + to + s[i + |from|..]
  }

  function HTTPPathToQriPath(path: string): string {
    var replaced := ReplaceFirst(WithoutQuery(path), "/at/", "@/");
    if "/" <= replaced then replaced[1..] else replaced
  }

  function DsRefFromPath(path: string): Parsed { ParseRef(HTTPPathToQriPath(path), true) }

  /** The HTTP form of a reference to a dataset at a path. */
  function HttpForm(r: Ref): string { "/" + r.username + "/" + r.name + "/at" + r.path }

  // ---- where "/at/" first occurs ----

  function Shift(index: int, distance: nat): int { if index == -1 then -1 else distance + index }

  lemma IndexStep(c: char, tail: string, find: string)
    ensures Index([c] + tail, find) == if find <= [c] + tail then 0 else Shift(Index(tail, find), 1)
  {
    assert ([c] + tail)[1..] == tail;
  }

  /** A word without slashes in front moves the first "/at/" by its length. */
  lemma {:induction false} IndexSkips(word: string, rest: string, find: string)
    requires All(NotSlash, word) && find != "" && find[0] == '/'
    ensures Index(word + rest, find) == Shift(Index(rest, find), |word|)
  {
    if word == "" {
      assert word + rest == rest;
    } else {
      assert word + rest == [word[0]] + (word[1..] + rest);
      IndexStep(word[0], word[1..] + rest, find);
      assert In(NotSlash, word[0]);
      IndexSkips(word[1..], rest, find);
    }
  }

  /** A slash starts an occurrence exactly when the word after it is "at" and a slash ends the word. */
  lemma OccursAtSlash(word: string, rest: string, text: string)
    requires All(NotSlash, word) && (rest == "" || rest[0] == '/')
    requires text == "/" + (word + rest)
    ensures "/at/" <= text <==> word == "at" && rest != ""
  {
    assert |text| == 1 + |word| + |rest|;
    assert forall i :: 0 <= i < |word| ==> text[1 + i] == word[i] && In(NotSlash, word[i]);
    assert rest != "" ==> text[1 + |word|] == '/';
    assert "/at/"[0] == '/' && "/at/"[1] == 'a' && "/at/"[2] == 't' && "/at/"[3] == '/';
    if "/at/" <= text {
      assert text[1] == 'a' && text[2] == 't' && text[3] == '/';
      assert |word| == 2;
    }
  }

  lemma IndexAtSlash(word: string, rest: string, text: string)
    requires All(NotSlash, word) && (rest == "" || rest[0] == '/')
    requires text == "/" + (word + rest)
    ensures Index(text, "/at/") == if word == "at" && rest != "" then 0 else Shift(Index(rest, "/at/"), 1 + |word|)
  {
    OccursAtSlash(word, rest, text);
    IndexStep('/', word + rest, "/at/");
    IndexSkips(word, rest, "/at/");
  }

  lemma WordHasNoSlash(word: string)
    requires All(WordOrDash, word)
    ensures All(NotSlash, word) && forall i :: 0 <= i < |word| ==> word[i] != '?'
  {
    assert forall i :: 0 <= i < |word| ==> In(WordOrDash, word[i]);
  }

  // ---- the query ----

  lemma {:induction false} QueryIsDropped(text: string, query: string)
    requires forall i :: 0 <= i < |text| ==> text[i] != '?'
    requires query == "" || query[0] == '?'
    ensures WithoutQuery(text + query) == text
  {
    QueryIndex(text, query);
    assert (text + query)[..|text|] == text;
    assert text + "" == text;
  }

  lemma {:induction false} QueryIndex(text: string, query: string)
    requires forall i :: 0 <= i < |text| ==> text[i] != '?'
    requires query == "" || query[0] == '?'
    ensures Index(text + query, "?") == if query == "" then -1 else |text|
  {
    if text == "" {
      assert text + query == query;
    } else {
      assert (text + query)[0] == text[0];
      assert (text + query)[1..] == text[1..] + query;
      QueryIndex(text[1..], query);
    }
  }

  // ---- the round trip ----

  /** The references with an HTTP form: no identifiers, a username. */
  ghost predicate HasHttpForm(r: Ref) {
    Grammatical(r) && r.initID == "" && r.profileID == "" && r.username != ""
  }

  lemma PathHasNoQuery(path: string)
    requires ValidPath(path)
    ensures |path| > 1 && path[0] == '/' && forall i :: 0 <= i < |path| ==> path[i] != '?'
  {
    var network, hash :| path == PathOf(network, hash) && (network == "mem" || network == "ipfs") && ValidHash(hash);
    assert forall i :: 0 <= i < |hash| - 2 ==> In(Alnum, hash[2..][i]) && hash[2..][i] == hash[2 + i];
  }

  lemma HttpFormHasNoQuery(r: Ref)
    requires HasHttpForm(r) && r.path != ""
    ensures forall i :: 0 <= i < |HttpForm(r)| ==> HttpForm(r)[i] != '?'
  {
    WordHasNoSlash(r.username);
    WordHasNoSlash(r.name);
    PathHasNoQuery(r.path);
  }

  /** Where the replacement happens in the HTTP form. */
  lemma HttpFormIndex(username: string, name: string, path: string, last: string, middle: string, text: string)
    requires All(NotSlash, username) && All(NotSlash, name) && path != "" && path[0] == '/'
    requires last == "/" + ("at" + path) && middle == "/" + (name + last) && text == "/" + (username + middle)
    ensures Index(text, "/at/") ==
            if username == "at" then 0 else if name == "at" then 1 + |username| else 2 + |username| + |name|
  {
    assert All(NotSlash, "at");
    IndexAtSlash("at", path, last);
    IndexAtSlash(name, last, middle);
    IndexAtSlash(username, middle, text);
  }

  lemma HttpFormNested(username: string, name: string, path: string)
    ensures "/" + username + "/" + name + "/at" + path == "/" + (username + ("/" + (name + ("/" + ("at" + path)))))
  {
    Associate("/" + username, "/" + name, "/at" + path);
    assert "/at" + path == "/" + ("at" + path);
    assert "/" + username + "/" + name == "/" + username + ("/" + name);
    assert "/" + username + "/" + name + "/at" + path == ("/" + username) + ("/" + name) + ("/at" + path);
    Associate("/", username, "/" + name + ("/at" + path));
    Associate("/", name, "/at" + path);
  }

  lemma Associate(a: string, b: string, c: string)
    ensures a + b + c == a + (b + c)
  {
  }

  /** The HTTP form of a reference, with any query, reads back as the reference exactly when neither
    * the username nor the name is "at". */
  lemma HttpRoundTripIff(r: Ref, query: string)
    requires HasHttpForm(r) && r.path != ""
    requires query == "" || query[0] == '?'
    ensures DsRefFromPath(HttpForm(r) + query) == Parsed(r, NoErr) <==> r.username != "at" && r.name != "at"
  {
    HttpFormHasNoQuery(r);
    QueryIsDropped(HttpForm(r), query);
    WordHasNoSlash(r.username);
    WordHasNoSlash(r.name);
    PathHasNoQuery(r.path);
    var last := "/" + ("at" + r.path);
    var middle := "/" + (r.name + last);
    HttpFormNested(r.username, r.name, r.path);
    HttpFormIndex(r.username, r.name, r.path, last, middle, HttpForm(r));
    var refstr := HTTPPathToQriPath(HttpForm(r) + query);
    ParsePeerIff(refstr, r);
    Replaced(r);
    assert !AlphaNumeric(refstr) || r != EMPTY_REF.(username := refstr);
  }

  /** What the replacement and the trimmed slash leave of an HTTP form. */
  lemma Replaced(r: Ref)
    requires HasHttpForm(r) && r.path != "" && r.path[0] == '/'
    requires Index(HttpForm(r), "/at/") ==
             if r.username == "at" then 0 else if r.name == "at" then 1 + |r.username| else 2 + |r.username| + |r.name|
    ensures var replaced := ReplaceFirst(HttpForm(r), "/at/", "@/");
            var refstr := if "/" <= replaced then replaced[1..] else replaced;
            refstr == PrintAny(r) <==> r.username != "at" && r.name != "at"
  {
    var text, printed := HttpForm(r), PrintAny(r);
    PrintedForm(r);
    IndexIsFirst(text, "/at/");
    var i := Index(text, "/at/");
    var replaced := ReplaceFirst(text, "/at/", "@/");
    var rest := text[i + 4..];
    assert replaced == text[..i] + "@/" + rest;
    if r.username == "at" {
      assert replaced[0] == '@';
    } else if r.name == "at" {
      AtName(r.username, text, rest, replaced);
    } else {
      AtEnd(r.username, r.name, r.path, text, rest, replaced);
      assert replaced == "/" + printed;
    }
  }

  lemma PrintedForm(r: Ref)
    requires HasHttpForm(r) && r.path != ""
    ensures PrintAny(r) == r.username + ("/" + r.name + "@" + r.path)
    ensures PrintAny(r)[0] == r.username[0] && PrintAny(r)[|r.username|] == '/'
  {
    assert PrintAny(r) == r.username + ("/" + r.name) + "@" + "" + r.path;
  }

  lemma AtName(username: string, text: string, rest: string, replaced: string)
    requires |text| >= 1 + |username| && username != ""
    requires replaced == text[..1 + |username|] + "@/" + rest && text[0] == '/'
    ensures "/" <= replaced && replaced[1..][|username|] == '@'
  {
  }

  lemma AtEnd(username: string, name: string, path: string, text: string, rest: string, replaced: string)
    requires text == "/" + username + "/" + name + "/at" + path && path != "" && path[0] == '/'
    requires var i := 2 + |username| + |name|; rest == text[i + 4..] && replaced == text[..i] + "@/" + rest
    ensures replaced == "/" + (username + ("/" + name + "@" + path))
  {
    assert text[..2 + |username| + |name|] == "/" + username + "/" + name;
    assert rest == path[1..];
    assert "@/" + rest == "@" + path;
  }

  /** A reference without a path has the form "/user/name", which reads back exactly when the username
    * is not "at". */
  lemma AliasRoundTripIff(r: Ref, query: string)
    requires HasHttpForm(r) && r.path == ""
    requires query == "" || query[0] == '?'
    ensures DsRefFromPath("/" + r.username + "/" + r.name + query) == Parsed(r, NoErr) <==> r.username != "at"
  {
    var last := "/" + (r.name + "");
    var text := "/" + (r.username + last);
    assert "/" + r.username + "/" + r.name + query == text + query;
    WordHasNoSlash(r.username);
    WordHasNoSlash(r.name);
    QueryIsDropped(text, query);
    IndexAtSlash(r.name, "", last);
    IndexAtSlash(r.username, last, text);
    assert PrintAny(r) == r.username + last;
    var refstr := HTTPPathToQriPath(text + query);
    ParsePeerIff(refstr, r);
    if r.username == "at" {
      assert refstr[0] == '@';
    } else {
      assert refstr == r.username + last;
    }
  }
}
