/** A free name for a new dataset (base/dataset_prepare.go): a prefix and the least number that is not in
  * use, counted up from 2 until the resolver of references finds nothing under the name. */
module AvailableName {
  import opened DsRef
  import opened Resolvers
  import opened RefGrammar
  import opened NameRules

  // ---- decimal numbers ----

  function DigitChar(d: nat): char
    requires d < 10
  {
    '0' + d as char
  }

  /** n printed with %d. */
  function Decimal(n: nat): (s: string)
    ensures s != ""
  {
    if n < 10 then [DigitChar(n)] else Decimal(n / 10) + [DigitChar(n % 10)]
  }

  /** The number a printed number stands for. */
  function Read(s: string): nat {
    if s == "" then 0
    else
      var c := s[|s| - 1];
      10 * Read(s[..|s| - 1]) + if c >= '0' then c as nat - '0' as nat else 0
  }

  lemma {:induction false} ReadsDecimal(n: nat)
    ensures Read(Decimal(n)) == n
  {
    if n < 10 {
      assert Decimal(n)[..0] == "";
    } else {
      ReadsDecimal(n / 10);
      assert Decimal(n)[..|Decimal(n)| - 1] == Decimal(n / 10);
    }
  }

  // ---- numbered names ----

  function Numbered(prefix: string, n: nat): string { prefix + "_" + Decimal(n) }

  /** Numbered names are different. */
  lemma NumberedDiffer(prefix: string, m: nat, n: nat)
    requires Numbered(prefix, m) == Numbered(prefix, n)
    ensures m == n
  {
    var k := |prefix| + 1;
    assert Numbered(prefix, m)[k..] == Decimal(m) && Numbered(prefix, n)[k..] == Decimal(n);
    ReadsDecimal(m);
    ReadsDecimal(n);
  }

  /** The names among those in use that have a number from n on. */
  ghost function NumberedFrom(used: set<string>, prefix: string, n: nat): set<string> {
    set s | s in used && exists k :: k >= n && s == Numbered(prefix, k)
  }

  /** Trying a name that is in use leaves fewer to try. */
  lemma TryingUsesUp(used: set<string>, prefix: string, n: nat)
    requires Numbered(prefix, n) in used
    ensures |NumberedFrom(used, prefix, n + 1)| < |NumberedFrom(used, prefix, n)|
  {
    var now, later := NumberedFrom(used, prefix, n), NumberedFrom(used, prefix, n + 1);
    var name := Numbered(prefix, n);
    assert name in now;
    assert name !in later by {
      if name in later {
        var k :| k >= n + 1 && name == Numbered(prefix, k);
        NumberedDiffer(prefix, n, k);
      }
    }
    SmallerSubset(later, now, name);
  }

  lemma SmallerSubset(a: set<string>, b: set<string>, x: string)
    requires a <= b && x in b && x !in a
    ensures |a| < |b|
  {
    assert a <= b - {x};
    Subset(a, b - {x});
  }

  lemma {:induction false} Subset(a: set<string>, b: set<string>)
    requires a <= b
    ensures |a| <= |b|
    decreases a
  {
    if a != {} {
      var x :| x in a;
      Subset(a - {x}, b - {x});
    }
  }

  // ---- the search ----

  /** A resolver that looks a dataset up by username and name, as every resolver here does: it finds
    * nothing exactly for the names not in use, and leaves both as they are. */
  ghost predicate Decides(resolver: Resolver, username: string, used: set<string>) {
    forall ref: Ref :: ref.username == username ==>
      var o := OutcomeOf(resolver, ref);
      (o.err == NotFound <==> ref.name !in used) && o.ref.username == username
  }

  /** k is the least free number from 2 on. */
  ghost predicate LeastFree(used: set<string>, prefix: string, k: nat) {
    k >= 2 && Numbered(prefix, k) !in used && UsedTo(used, prefix, k - 1)
  }

  ghost predicate UsedTo(used: set<string>, prefix: string, n: nat) {
    forall j :: 2 <= j <= n ==> Numbered(prefix, j) in used
  }

  lemma OneMoreUsed(used: set<string>, prefix: string, n: nat)
    requires n >= 1 && UsedTo(used, prefix, n - 1) && Numbered(prefix, n) in used
    ensures UsedTo(used, prefix, n)
  {
  }

  /** GenerateAvailableName: tries prefix_2, prefix_3 and so on. With finitely many names in use it
    * ends, with the least number that is free; the reference it looks up is the one the resolver has
    * filled in before. */
  method GenerateAvailableName(resolver: Resolver, username: string, prefix: string, ghost used: set<string>)
    returns (name: string)
    requires Decides(resolver, username, used)
    ensures exists k :: LeastFree(used, prefix, k) && name == Numbered(prefix, k)
  {
    var lookup := EMPTY_REF.(username := username, name := prefix);
    var counter := 1;
    while true
      invariant counter >= 1 && lookup.username == username
      invariant UsedTo(used, prefix, counter)
      decreases |NumberedFrom(used, prefix, counter + 1)|
    {
      counter := counter + 1;
      lookup := lookup.(name := Numbered(prefix, counter));
      assert lookup.username == username && lookup.name == Numbered(prefix, counter);
      var o := OutcomeOf(resolver, lookup);
      if o.err == NotFound {
        assert LeastFree(used, prefix, counter);
        return Numbered(prefix, counter);
      }
      lookup := o.ref;
      OneMoreUsed(used, prefix, counter);
      TryingUsesUp(used, prefix, counter);
    }
  }

  /** There is one least free number, and it is at most the number of names in use plus two. */
  lemma LeastFreeIsOne(used: set<string>, prefix: string, k: nat, l: nat)
    requires LeastFree(used, prefix, k) && LeastFree(used, prefix, l)
    ensures k == l && k <= |used| + 2
  {
    var tried := set j | 2 <= j < k :: Numbered(prefix, j);
    CountTried(prefix, k, tried);
    Subset(tried, used);
    assert k < l ==> Numbered(prefix, k) in used;
    assert l < k ==> Numbered(prefix, l) in used;
  }

  lemma {:induction false} CountTried(prefix: string, k: nat, tried: set<string>)
    requires k >= 2 && tried == set j | 2 <= j < k :: Numbered(prefix, j)
    ensures |tried| == k - 2
  {
    if k == 2 {
      assert tried == {};
    } else {
      var before := set j | 2 <= j < k - 1 :: Numbered(prefix, j);
      var last := Numbered(prefix, k - 1);
      CountTried(prefix, k - 1, before);
      assert last !in before by {
        if last in before {
          var j :| 2 <= j < k - 1 && last == Numbered(prefix, j);
          NumberedDiffer(prefix, j, k - 1);
        }
      }
      assert tried == before + {last};
    }
  }

  lemma {:induction false} DecimalIsDigits(n: nat)
    ensures forall i :: 0 <= i < |Decimal(n)| ==> IsDigit(Decimal(n)[i])
  {
    if n >= 10 { DecimalIsDigits(n / 10); }
  }

  /** Printed numbers have no leading zeros. */
  lemma {:induction false} DecimalBegins(n: nat)
    ensures Decimal(n)[0] == '0' <==> n == 0
  {
    if n >= 10 {
      DecimalBegins(n / 10);
      assert Decimal(n)[0] == Decimal(n / 10)[0];
    }
  }

  /** A numbered dataset name is a dataset name, if it is not too long. */
  lemma NumberedIsName(prefix: string, n: nat)
    requires DatasetName(prefix) && |Numbered(prefix, n)| <= 144
    ensures DatasetName(Numbered(prefix, n))
  {
    DecimalIsDigits(n);
    var rest := "_" + Decimal(n);
    assert forall i :: 0 < i < |rest| ==> rest[i] == Decimal(n)[i - 1];
    CharsOfConcat(prefix, rest);
    assert Numbered(prefix, n) == prefix + rest;
    NameCharsAreWord(Numbered(prefix, n));
  }
}
