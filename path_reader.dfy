/**
 * The path reader: `resolvePath` tokenizes a path and `walkTokens` walks the
 * decoded data token by token. Absent data gives null, the wildcard `[x]`
 * maps the rest of the path over every element of an array and keeps the
 * non-null results, and a key token looks its key up verbatim.
 */
module PathReader {
  import opened Wrappers
  import opened PhpValue
  import opened PathTokenizer

  /** How `walkTokens` reads one token's text. */
  datatype Token = Key(name: string) | Lit(name: string) | Wild

  /** No line feed: PCRE's `.` matches any character but this one. */
  predicate NoNewline(s: string)
  {
    forall i :: 0 <= i < |s| ==> s[i] != '\n'
  }

  /**
   * The capture of `^\['(.+)'\]$` on a token text. The dot does not match a
   * line feed, and `$` also matches just before a final line feed.
   */
  function LiteralCapture(t: string): (r: Option<string>)
    ensures r.Some? ==> |r.value| > 0 && NoNewline(r.value)
    ensures r.Some? ==> t == Quoted(r.value) || t == Quoted(r.value) + "\n"
    ensures |t| >= 5 && t[..2] == "['" && t[|t| - 2..] == "']" && NoNewline(t[2..|t| - 2]) ==>
              r == Some(t[2..|t| - 2])
    ensures |t| >= 6 && t[..2] == "['" && t[|t| - 3..] == "']\n" && NoNewline(t[2..|t| - 3]) ==>
              r == Some(t[2..|t| - 3])
  {
    if |t| >= 5 && t[..2] == "['" && t[|t| - 2..] == "']" && NoNewline(t[2..|t| - 2]) then
      assert t == t[..2] + t[2..|t| - 2] + t[|t| - 2..];
      assert t[|t| - 1] == t[|t| - 2..][1] == ']';
      assert |t| >= 6 ==> t[|t| - 3..][2] == t[|t| - 1];
      Some(t[2..|t| - 2])
    else if |t| >= 6 && t[..2] == "['" && t[|t| - 3..] == "']\n" && NoNewline(t[2..|t| - 3]) then
      assert t == t[..2] + t[2..|t| - 3] + t[|t| - 3..];
      Some(t[2..|t| - 3])
    else None
  }

  /** The dispatch of `walkTokens`: exactly `[x]` first, then the literal pattern, else a bare key. */
  function Classify(t: string): (tok: Token)
  {
    if t == WildcardText then Wild
    else
      match LiteralCapture(t)
      case Some(k) => Lit(k)
      case None => Key(t)
  }

  /** The key a non-wildcard token looks up. */
  function KeyOf(tok: Token): string
    requires !tok.Wild?
  {
    tok.name
  }

  /** `walkTokens($current, $tokens)`. */
  function WalkTokens(cur: Value, tokens: seq<string>): (r: Value)
    decreases |tokens|, 0, 0
  {
    if cur.Null? then Null
    else if tokens == [] then cur
    else
      match Classify(tokens[0])
      case Wild =>
        if cur.Arr? then ListOf(CollectNonNull(cur.entries, tokens[1..])) else Arr([])
      case Lit(k) => WalkTokens(Lookup(cur, k), tokens[1..])
      case Key(k) => WalkTokens(Lookup(cur, k), tokens[1..])
  }

  /**
   * The wildcard's `foreach`: walk every element with the remaining tokens,
   * in element order, keeping only the results that are not null.
   */
  function CollectNonNull(items: seq<(string, Value)>, rest: seq<string>): (vs: seq<Value>)
    ensures |vs| <= |items|
    ensures forall i :: 0 <= i < |vs| ==> !vs[i].Null?
    decreases |rest|, 1, |items|
  {
    if items == [] then []
    else
      var v := WalkTokens(items[0].1, rest);
      (if v.Null? then [] else [v]) + CollectNonNull(items[1..], rest)
  }

  /** `resolvePath($data, $path)`; None is a null path. */
  function ResolvePath(data: Value, path: Option<string>): (r: Value)
  {
    if path.None? || path.value == "" then Null
    else WalkTokens(data, Tokenize(path.value))
  }

  /**
   * How the walker reads each kind of text the tokenizer produces: a bare
   * key is looked up as itself, `[x]` is the wildcard, and `['c']` looks up
   * `c` unless `c` holds a line feed, in which case the literal pattern of
   * the walker does not match and the whole text `['c']` is looked up.
   */
  lemma ClassifyTokenizerOutput(t: string)
    requires IsToken(t)
    ensures IsBareKey(t) ==> Classify(t) == Key(t)
    ensures t == WildcardText ==> Classify(t) == Wild
    ensures IsQuotedLiteral(t) && NoNewline(t) ==> Classify(t) == Lit(t[2..|t| - 2])
    ensures IsQuotedLiteral(t) && !NoNewline(t) ==> Classify(t) == Key(t)
  {
    if IsBareKey(t) {
      assert !IsKeyChar('[');
      assert t != WildcardText by { assert t[0] != WildcardText[0]; }
      if |t| >= 2 { assert t[..2][0] == t[0]; }
    } else if IsQuotedLiteral(t) {
      assert t[..2] == "['";
      assert t[|t| - 2..] == "']";
      assert t != WildcardText by { assert |t| != 3; }
      if !NoNewline(t) {
        var i :| 0 <= i < |t| && t[i] == '\n';
        assert 2 <= i < |t| - 2;
        assert t[2..|t| - 2][i - 2] == '\n';
        assert t[|t| - 3..] != "']\n" by { assert t[|t| - 3..][2] == t[|t| - 1]; }
      } else {
        assert NoNewline(t[2..|t| - 2]);
      }
    }
  }

  /**
   * A quoted literal `['K']` and the bare token `K` perform the same lookup
   * of the verbatim key K (spaces included) and continue identically.
   */
  lemma LiteralAndBareKeyAgree(cur: Value, k: string, rest: seq<string>)
    requires |k| > 0 && NoNewline(k) && k != WildcardText
    requires forall i :: 0 <= i < |k| ==> k[i] != Quote
    ensures WalkTokens(cur, [Quoted(k)] + rest) == WalkTokens(cur, [k] + rest)
    ensures WalkTokens(cur, [k] + rest) == (if cur.Null? then Null else WalkTokens(Lookup(cur, k), rest))
  {
    var lit := Quoted(k);
    assert lit[2..|lit| - 2] == k;
    assert lit[..2] == "['" && lit[|lit| - 2..] == "']";
    assert lit != WildcardText by { assert |lit| != 3; }
    assert Classify(lit) == Lit(k);
    if |k| >= 2 { assert k[..2][1] == k[1]; }
    assert LiteralCapture(k) == None;
    assert Classify(k) == Key(k);
    assert ([lit] + rest)[1..] == rest && ([k] + rest)[1..] == rest;
  }

  /** A null node stays null whatever tokens remain: absence never errors. */
  lemma NullAbsorbsEveryPath(tokens: seq<string>)
    ensures WalkTokens(Null, tokens) == Null
  {
  }

  /** A key the current node does not hold (or holds as null) continues as null. */
  lemma MissingKeyGivesNull(cur: Value, t: string, rest: seq<string>)
    requires !Classify(t).Wild?
    requires !cur.Arr? || !HasKey(cur.entries, KeyOf(Classify(t))) || Lookup(cur, KeyOf(Classify(t))) == Null
    ensures WalkTokens(cur, [t] + rest) == Null
  {
    assert ([t] + rest)[1..] == rest;
  }

  /** The wildcard on a node that is neither null nor an array gives the empty array. */
  lemma WildcardOnNonArray(cur: Value, t: string, rest: seq<string>)
    requires Classify(t) == Wild && !cur.Null? && !cur.Arr?
    ensures WalkTokens(cur, [t] + rest) == Arr([])
  {
  }

  /** Every element walked with the remaining tokens, nulls included, in element order. */
  function WalkEach(items: seq<(string, Value)>, rest: seq<string>): seq<Value>
  {
    seq(|items|, i requires 0 <= i < |items| => WalkTokens(items[i].1, rest))
  }

  /** The values that are not null, in their original order. */
  function NonNull(vs: seq<Value>): (r: seq<Value>)
    ensures |r| <= |vs|
    ensures forall v :: v in r <==> v in vs && !v.Null?
  {
    if vs == [] then []
    else (if vs[0].Null? then [] else [vs[0]]) + NonNull(vs[1..])
  }

  lemma {:induction false} CollectIsFilteredWalk(items: seq<(string, Value)>, rest: seq<string>)
    ensures CollectNonNull(items, rest) == NonNull(WalkEach(items, rest))
    decreases |items|
  {
    if items != [] {
      CollectIsFilteredWalk(items[1..], rest);
      assert WalkEach(items, rest)[1..] == WalkEach(items[1..], rest);
    }
  }

  /**
   * The wildcard on an array: a fresh list, keyed "0", "1", ..., holding
   * exactly the non-null results of walking each element with the
   * remaining tokens, in element order; never longer than the array and
   * never holding null.
   */
  lemma WildcardCollectsNonNullResults(cur: Value, t: string, rest: seq<string>)
    requires Classify(t) == Wild && cur.Arr?
    ensures WalkTokens(cur, [t] + rest) == ListOf(NonNull(WalkEach(cur.entries, rest)))
    ensures var r := WalkTokens(cur, [t] + rest);
            |r.entries| <= |cur.entries| &&
            forall i :: 0 <= i < |r.entries| ==> r.entries[i].0 == DecimalString(i) && !r.entries[i].1.Null?
  {
    assert ([t] + rest)[1..] == rest;
    CollectIsFilteredWalk(cur.entries, rest);
  }

  /** No token of the list is the wildcard. */
  predicate NoWildcard(tokens: seq<string>)
  {
    forall i :: 0 <= i < |tokens| ==> !Classify(tokens[i]).Wild?
  }

  /** Without a wildcard, walking `t1 + t2` is walking `t1` and then `t2` from where it ended. */
  lemma {:induction false} WalkComposes(cur: Value, t1: seq<string>, t2: seq<string>)
    requires NoWildcard(t1)
    ensures WalkTokens(cur, t1 + t2) == WalkTokens(WalkTokens(cur, t1), t2)
    decreases |t1|
  {
    if cur.Null? {
      NullAbsorbsEveryPath(t2);
    } else if t1 == [] {
      assert t1 + t2 == t2;
    } else {
      assert (t1 + t2)[0] == t1[0];
      assert (t1 + t2)[1..] == t1[1..] + t2;
      assert !Classify(t1[0]).Wild?;
      var next := Lookup(cur, KeyOf(Classify(t1[0])));
      WalkComposes(next, t1[1..], t2);
    }
  }

  /**
   * Once a wildcard-free prefix of the path reaches nothing, the whole path
   * gives null: a missing intermediate key never errors.
   */
  lemma AbsentPrefixGivesNull(cur: Value, t1: seq<string>, t2: seq<string>)
    requires NoWildcard(t1) && WalkTokens(cur, t1) == Null
    ensures WalkTokens(cur, t1 + t2) == Null
  {
    WalkComposes(cur, t1, t2);
  }

  /**
   * The composition above needs its side condition: after a wildcard the
   * elements are reindexed, so the rest of the path no longer applies to the
   * collected list as it did to each element.
   */
  lemma WildcardBreaksComposition()
    ensures var cur := Arr([("0", Arr([("a", Num(1))]))]);
            WalkTokens(cur, ["[x]"] + ["a"]) != WalkTokens(WalkTokens(cur, ["[x]"]), ["a"])
  {
    var elem := Arr([("a", Num(1))]);
    var cur := Arr([("0", elem)]);
    assert Classify("[x]") == Wild;
    assert LiteralCapture("a") == None;
    assert Classify("a") == Key("a");
    assert DecimalString(0) == "0";
    assert WalkTokens(elem, ["a"]) == Num(1) by {
      assert Lookup(elem, "a") == Num(1);
    }
    assert CollectNonNull(cur.entries, ["a"]) == [Num(1)];
    assert WalkTokens(cur, ["[x]"] + ["a"]) == ListOf([Num(1)]);
    assert WalkTokens(elem, []) == elem;
    assert CollectNonNull(cur.entries, []) == [elem];
    assert ["[x]"][1..] == [];
    var list := WalkTokens(cur, ["[x]"]);
    assert list == ListOf([elem]);
    assert list.entries == [("0", elem)];
    assert !HasKey(list.entries, "a");
    assert WalkTokens(list, ["a"]) == Null;
  }

  /** The result of a walk from well-formed data is well formed (its arrays have distinct keys). */
  lemma {:induction false} WalkPreservesWellFormed(cur: Value, tokens: seq<string>)
    requires WellFormed(cur)
    ensures WellFormed(WalkTokens(cur, tokens))
    decreases |tokens|, 0, 0
  {
    if !cur.Null? && tokens != [] {
      match Classify(tokens[0])
      case Wild =>
        if cur.Arr? {
          var vs := CollectNonNull(cur.entries, tokens[1..]);
          CollectPreservesWellFormed(cur.entries, tokens[1..]);
          ListOfWellFormed(vs);
        }
      case Lit(k) =>
        LookupPreservesWellFormed(cur, k);
        WalkPreservesWellFormed(Lookup(cur, k), tokens[1..]);
      case Key(k) =>
        LookupPreservesWellFormed(cur, k);
        WalkPreservesWellFormed(Lookup(cur, k), tokens[1..]);
    }
  }

  lemma {:induction false} CollectPreservesWellFormed(items: seq<(string, Value)>, rest: seq<string>)
    requires forall e | e in items :: WellFormed(e.1)
    ensures forall i :: 0 <= i < |CollectNonNull(items, rest)| ==> WellFormed(CollectNonNull(items, rest)[i])
    decreases |rest|, 1, |items|
  {
    if items != [] {
      assert items[0] in items;
      WalkPreservesWellFormed(items[0].1, rest);
      assert forall e | e in items[1..] :: e in items;
      CollectPreservesWellFormed(items[1..], rest);
    }
  }

  lemma LookupPreservesWellFormed(cur: Value, k: string)
    requires WellFormed(cur)
    ensures WellFormed(Lookup(cur, k))
  {
    if cur.Arr? && HasKey(cur.entries, k) {
      var i := IndexOf(cur.entries, k).value;
      assert cur.entries[i] in cur.entries;
    }
  }

  /** A null path and the empty path resolve to null. */
  lemma ResolveWithoutPath(data: Value)
    ensures ResolvePath(data, None) == Null
    ensures ResolvePath(data, Some("")) == Null
  {
  }

  /**
   * A non-empty path in which no text is a token (say `...` or `[]`)
   * tokenizes to nothing, and resolving it returns the data unchanged.
   */
  lemma ResolveUnmatchedPathIsIdentity(data: Value, path: string)
    requires path != "" && NoTokenIn(path)
    ensures Tokenize(path) == []
    ensures ResolvePath(data, Some(path)) == data
  {
    TokenizeEmptyIff(path);
  }

  /**
   * `a.['c']` on `{a: {c: v}}` resolves to v: the quoted key is looked up
   * verbatim, spaces and the text `[x]` included.
   */
  lemma ResolveKeyThenQuoted(a: string, c: string, v: Value)
    requires IsBareKey(a)
    requires |c| > 0 && NoNewline(c)
    requires forall i :: 0 <= i < |c| ==> c[i] != Quote
    ensures ResolvePath(Arr([(a, Arr([(c, v)]))]), Some(a + "." + Quoted(c))) == v
  {
    TokenizeKeyThenQuoted(a, c);
    ReadKeyThenQuoted(a, c, v);
  }

  /** `outer.['inner']` on `{outer: {inner: v}}` reads v. */
  lemma ReadKeyThenQuoted(outer: string, inner: string, v: Value)
    requires IsBareKey(outer)
    requires |inner| > 0 && NoNewline(inner)
    ensures WalkTokens(Arr([(outer, Arr([(inner, v)]))]), [outer, Quoted(inner)]) == v
  {
    var node := Arr([(inner, v)]);
    ReadQuotedMember(inner, v);
    ClassifyTokenizerOutput(outer);
    assert Lookup(Arr([(outer, node)]), outer) == node;
    assert [outer, Quoted(inner)][1..] == [Quoted(inner)];
  }

  /**
   * `['k']` is read as the literal key k, whatever k holds apart from line
   * feeds: even `['[x]']` is a lookup of the key `[x]`, never the wildcard.
   */
  lemma QuotedClassifiesAsLiteral(k: string)
    requires |k| > 0 && NoNewline(k)
    ensures Classify(Quoted(k)) == Lit(k)
  {
    var lit := Quoted(k);
    assert lit[2..|lit| - 2] == k;
    assert lit[..2] == "['" && lit[|lit| - 2..] == "']";
    assert lit != WildcardText by { assert |lit| != 3; }
  }

  /** `['k']` on `{k: v}` reads v. */
  lemma ReadQuotedMember(k: string, v: Value)
    requires |k| > 0 && NoNewline(k)
    ensures WalkTokens(Arr([(k, v)]), [Quoted(k)]) == v
  {
    QuotedClassifiesAsLiteral(k);
    assert [Quoted(k)][1..] == [];
    assert Lookup(Arr([(k, v)]), k) == v;
  }

  /**
   * Fan-out read: `outer.[x].['k']` over a list of two records gives the
   * list of their k members, in order and reindexed.
   */
  lemma ResolveFanOutOverQuotedMember(outer: string, k: string, v1: Value, v2: Value)
    requires IsBareKey(outer)
    requires |k| > 0 && NoNewline(k)
    requires forall i :: 0 <= i < |k| ==> k[i] != Quote
    requires !v1.Null? && !v2.Null?
    ensures ResolvePath(Arr([(outer, ListOf([Arr([(k, v1)]), Arr([(k, v2)])]))]),
                        Some(outer + ".[x]." + Quoted(k))) == ListOf([v1, v2])
  {
    TokenizeFanOutPath(outer, k);
    var lit := Quoted(k);
    ReadQuotedMember(k, v1);
    ReadQuotedMember(k, v2);
    var list := ListOf([Arr([(k, v1)]), Arr([(k, v2)])]);
    var data := Arr([(outer, list)]);
    ClassifyTokenizerOutput(outer);
    assert Lookup(data, outer) == list;
    var toks := [outer, WildcardText, lit];
    assert toks[1..] == [WildcardText, lit] && toks[1..][1..] == [lit];
    assert list.entries[2..] == [];
    assert CollectNonNull(list.entries[1..], [lit]) == [v2];
    assert CollectNonNull(list.entries, [lit]) == [v1, v2];
    assert WalkTokens(list, toks[1..]) == ListOf([v1, v2]);
  }

  /**
   * `contact.['Email Address']` reads the member named `Email Address` verbatim.
   * The path is a parameter equal to the literal rather than the literal
   * itself: a literal argument makes the verifier unfold the recursive scan
   * over every character eagerly, so the proof goes through the general
   * lemma instead.
   */
  lemma ResolveQuotedKeyWithSpace(data: Value, path: string)
    requires data == Arr([("contact", Arr([("Email Address", Str("a@b.com"))]))])
    requires path == "contact.['Email Address']"
    ensures ResolvePath(data, Some(path)) == Str("a@b.com")
  {
    assert path == "contact" + "." + Quoted("Email Address");
    ResolveKeyThenQuoted("contact", "Email Address", Str("a@b.com"));
  }

  /**
   * `Items.[x].['Name']` over two records gives the list of their names.
   * The path is a parameter equal to the literal, for the reason given above.
   */
  lemma ResolveFanOut(data: Value, path: string)
    requires data == Arr([("Items", ListOf([Arr([("Name", Str("a"))]), Arr([("Name", Str("b"))])]))])
    requires path == "Items.[x].['Name']"
    ensures ResolvePath(data, Some(path)) == ListOf([Str("a"), Str("b")])
  {
    assert path == "Items" + ".[x]." + Quoted("Name");
    ResolveFanOutOverQuotedMember("Items", "Name", Str("a"), Str("b"));
  }
}
