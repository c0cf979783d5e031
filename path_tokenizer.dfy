/**
 * The path tokenizer at the head of `resolvePath`: one left-to-right scan
 * for the pattern `[A-Za-z0-9_-]+|\['[^']+'\]|\[x\]`, collecting the text
 * of every match. Matches never overlap; a character where no alternative
 * matches is skipped, so the scan never fails.
 */
module PathTokenizer {
  import opened Wrappers

  const Quote: char := '\''
  const WildcardText: string := "[x]"

  /** The character class `[A-Za-z0-9_-]`. */
  predicate IsKeyChar(c: char)
  {
    ('A' <= c <= 'Z') || ('a' <= c <= 'z') || ('0' <= c <= '9') || c == '_' || c == '-'
  }

  /** Text of the first alternative, `[A-Za-z0-9_-]+`. */
  predicate IsBareKey(t: string)
  {
    |t| > 0 && forall i :: 0 <= i < |t| ==> IsKeyChar(t[i])
  }

  /** Text of the second alternative, `\['[^']+'\]`: non-empty, quote-free content. */
  predicate IsQuotedLiteral(t: string)
  {
    |t| >= 5 && t[0] == '[' && t[1] == Quote && t[|t| - 2] == Quote && t[|t| - 1] == ']' &&
    forall i :: 2 <= i < |t| - 2 ==> t[i] != Quote
  }

  /** Text matched by the whole pattern. */
  predicate IsToken(t: string)
  {
    IsBareKey(t) || IsQuotedLiteral(t) || t == WildcardText
  }

  /** End of the run of key characters that starts at i (greedy `+`). */
  function BareEnd(s: string, i: nat): (j: nat)
    requires i <= |s|
    ensures i <= j <= |s|
    ensures forall k :: i <= k < j ==> IsKeyChar(s[k])
    ensures j == |s| || !IsKeyChar(s[j])
    decreases |s| - i
  {
    if i < |s| && IsKeyChar(s[i]) then BareEnd(s, i + 1) else i
  }

  /** Position of the first quote at or after i, or |s| when there is none (`[^']+`). */
  function QuoteFrom(s: string, i: nat): (j: nat)
    requires i <= |s|
    ensures i <= j <= |s|
    ensures forall k :: i <= k < j ==> s[k] != Quote
    ensures j == |s| || s[j] == Quote
    decreases |s| - i
  {
    if i < |s| && s[i] != Quote then QuoteFrom(s, i + 1) else i
  }

  /**
   * The end of the match that starts at position i, trying the three
   * alternatives in order, or None when none of them matches there.
   */
  function MatchAt(s: string, i: nat): (r: Option<nat>)
    requires i < |s|
    ensures r.Some? ==> i < r.value <= |s|
  {
    if IsKeyChar(s[i]) then Some(BareEnd(s, i))
    else if s[i] == '[' && i + 1 < |s| && s[i + 1] == Quote then
      var q := QuoteFrom(s, i + 2);
      if i + 2 < q && q + 1 < |s| && s[q + 1] == ']' then Some(q + 2) else None
    else if i + 3 <= |s| && s[i..i + 3] == WildcardText then Some(i + 3)
    else None
  }

  /** The tokens found from position i on. */
  function TokenizeFrom(s: string, i: nat): (ts: seq<string>)
    requires i <= |s|
    decreases |s| - i
  {
    if i == |s| then []
    else
      match MatchAt(s, i)
      case None => TokenizeFrom(s, i + 1)
      case Some(j) => [s[i..j]] + TokenizeFrom(s, j)
  }

  /** `preg_match_all(...)[0]`: every match of the pattern, in order. */
  function Tokenize(path: string): (ts: seq<string>)
  {
    TokenizeFrom(path, 0)
  }

  /**
   * What the scan does at one position: the match found there is the
   * longest text starting at i that the pattern accepts, and no match
   * means no prefix of the rest of the path is a token.
   */
  lemma MatchAtIsLongestToken(s: string, i: nat)
    requires i < |s|
    ensures MatchAt(s, i).Some? ==> IsToken(s[i..MatchAt(s, i).value])
    ensures MatchAt(s, i).Some? ==>
              forall j :: MatchAt(s, i).value < j <= |s| ==> !IsToken(s[i..j])
    ensures MatchAt(s, i).None? ==> forall j :: i < j <= |s| ==> !IsToken(s[i..j])
  {
    if IsKeyChar(s[i]) {
      BareRunIsLongestToken(s, i);
    } else if s[i] == '[' && i + 1 < |s| && s[i + 1] == Quote {
      QuotedIsOnlyToken(s, i);
    } else if i + 3 <= |s| && s[i..i + 3] == WildcardText {
      WildcardIsLongestToken(s, i);
    } else {
      NoTokenStartsAt(s, i);
    }
  }

  /** A run of key characters is a bare key, and no longer text from i is a token. */
  lemma BareRunIsLongestToken(s: string, i: nat)
    requires i < |s| && IsKeyChar(s[i])
    ensures IsToken(s[i..BareEnd(s, i)])
    ensures forall j :: BareEnd(s, i) < j <= |s| ==> !IsToken(s[i..j])
  {
    var e := BareEnd(s, i);
    assert IsBareKey(s[i..e]);
    forall j | e < j <= |s| ensures !IsToken(s[i..j]) {
      assert s[i..j][e - i] == s[e];
      assert s[i..j][0] == s[i];
    }
  }

  /** From `['`, the only token is the one ending at the first quote after the content, followed by `]`. */
  lemma QuotedIsOnlyToken(s: string, i: nat)
    requires i + 1 < |s| && s[i] == '[' && s[i + 1] == Quote
    ensures var q := QuoteFrom(s, i + 2);
            forall j :: i < j <= |s| && IsToken(s[i..j]) ==>
              i + 2 < q && q + 1 < |s| && s[q + 1] == ']' && j == q + 2
    ensures var q := QuoteFrom(s, i + 2);
            i + 2 < q && q + 1 < |s| && s[q + 1] == ']' ==> IsToken(s[i..q + 2])
  {
    var q := QuoteFrom(s, i + 2);
    forall j | i < j <= |s| && IsToken(s[i..j])
      ensures i + 2 < q && q + 1 < |s| && s[q + 1] == ']' && j == q + 2
    {
      QuotedTokenEnd(s, i, j);
    }
    if i + 2 < q && q + 1 < |s| && s[q + 1] == ']' {
      var t := s[i..q + 2];
      assert forall k :: 2 <= k < |t| - 2 ==> t[k] == s[i + k];
      assert IsQuotedLiteral(t);
    }
  }

  /** A token that starts with `['` is a quoted literal that ends just after the first quote of its content. */
  lemma QuotedTokenEnd(s: string, i: nat, j: nat)
    requires i + 1 < |s| && s[i] == '[' && s[i + 1] == Quote
    requires i < j <= |s| && IsToken(s[i..j])
    ensures var q := QuoteFrom(s, i + 2);
            i + 2 < q && q + 1 < |s| && s[q + 1] == ']' && j == q + 2
  {
    var t := s[i..j];
    assert t[0] == s[i] && t[1] == s[i + 1];
    assert !IsBareKey(t);
    assert t != WildcardText;
    assert IsQuotedLiteral(t);
    assert t[|t| - 2] == s[j - 2];
    assert forall k :: i + 2 <= k < j - 2 ==> s[k] == t[k - i];
    assert QuoteFrom(s, i + 2) == j - 2;
    assert t[|t| - 1] == s[j - 1];
  }

  /** `[x]` is a token, and no longer text from i is one. */
  lemma WildcardIsLongestToken(s: string, i: nat)
    requires i + 3 <= |s| && s[i..i + 3] == WildcardText
    ensures IsToken(s[i..i + 3])
    ensures forall j :: i + 3 < j <= |s| ==> !IsToken(s[i..j])
  {
    forall j | i + 3 < j <= |s| ensures !IsToken(s[i..j]) {
      var t := s[i..j];
      assert t[0] == s[i..i + 3][0] == '[' && t[1] == s[i..i + 3][1] == 'x';
      assert !IsBareKey(t);
    }
  }

  /** Where no alternative applies, no text starting at i is a token. */
  lemma NoTokenStartsAt(s: string, i: nat)
    requires i < |s| && !IsKeyChar(s[i])
    requires !(s[i] == '[' && i + 1 < |s| && s[i + 1] == Quote)
    requires !(i + 3 <= |s| && s[i..i + 3] == WildcardText)
    ensures forall j :: i < j <= |s| ==> !IsToken(s[i..j])
  {
    forall j | i < j <= |s| ensures !IsToken(s[i..j]) {
      var t := s[i..j];
      assert t[0] == s[i];
      assert |t| >= 2 ==> t[1] == s[i + 1];
      assert |t| == 3 ==> s[i..i + 3] == t;
    }
  }

  /** Every token the scan returns is text the pattern accepts. */
  lemma {:induction false} TokenizeFromYieldsTokens(s: string, i: nat)
    requires i <= |s|
    ensures forall t :: t in TokenizeFrom(s, i) ==> IsToken(t)
    decreases |s| - i
  {
    if i < |s| {
      MatchAtIsLongestToken(s, i);
      match MatchAt(s, i)
      case None => TokenizeFromYieldsTokens(s, i + 1);
      case Some(j) => TokenizeFromYieldsTokens(s, j);
    }
  }

  lemma TokenizeYieldsTokens(path: string)
    ensures forall t :: t in Tokenize(path) ==> IsToken(t)
  {
    TokenizeFromYieldsTokens(path, 0);
  }

  /** The scan may only resume where a bare-key run cannot be split: at an end of the path or next to a non-key character. */
  predicate AtRunBoundary(s: string, i: nat)
    requires i <= |s|
  {
    i == 0 || i == |s| || !IsKeyChar(s[i - 1]) || !IsKeyChar(s[i])
  }

  /** A bare-key token occupies a maximal run of key characters of the path. */
  ghost predicate IsMaximalRunIn(s: string, t: string)
  {
    exists p: nat :: IsMaximalRunAt(s, t, p)
  }

  /** `t` occurs at position p of `s`, with no key character right before or right after it. */
  predicate IsMaximalRunAt(s: string, t: string, p: nat)
  {
    p + |t| <= |s| && s[p..p + |t|] == t &&
    (p == 0 || !IsKeyChar(s[p - 1])) &&
    (p + |t| == |s| || !IsKeyChar(s[p + |t|]))
  }

  lemma {:induction false} TokenizeFromBareKeysAreMaximal(s: string, i: nat)
    requires i <= |s| && AtRunBoundary(s, i)
    ensures forall t :: t in TokenizeFrom(s, i) && IsBareKey(t) ==> IsMaximalRunIn(s, t)
    decreases |s| - i
  {
    if i < |s| {
      match MatchAt(s, i)
      case None =>
        TokenizeFromBareKeysAreMaximal(s, i + 1);
      case Some(j) =>
        assert s[j - 1] == ']' || j == |s| || !IsKeyChar(s[j]);
        TokenizeFromBareKeysAreMaximal(s, j);
        if IsKeyChar(s[i]) {
          var t := s[i..j];
          assert s[i..i + |t|] == t;
          assert IsMaximalRunAt(s, t, i);
        } else {
          assert !IsBareKey(s[i..j]) by { assert s[i..j][0] == s[i]; }
        }
    }
  }

  /**
   * Every bare-key token is a maximal run of `[A-Za-z0-9_-]` in the path:
   * the scan never splits a run and never starts one in its middle.
   */
  lemma TokenizeBareKeysAreMaximal(path: string)
    ensures forall t :: t in Tokenize(path) && IsBareKey(t) ==> IsMaximalRunIn(path, t)
  {
    TokenizeFromBareKeysAreMaximal(path, 0);
  }

  /** `a` can be obtained from `b` by deleting characters. */
  predicate IsSubsequence(a: string, b: string)
    decreases |b|
  {
    a == [] || (b != [] && ((a[0] == b[0] && IsSubsequence(a[1..], b[1..])) || IsSubsequence(a, b[1..])))
  }

  /** The tokens written one after another. */
  function Concat(ts: seq<string>): string
  {
    if ts == [] then [] else ts[0] + Concat(ts[1..])
  }

  lemma {:induction false} SubsequenceUnderCommonPrefix(x: string, a: string, b: string)
    requires IsSubsequence(a, b)
    ensures IsSubsequence(x + a, x + b)
    decreases |x|
  {
    if x == [] {
      assert x + a == a && x + b == b;
    } else {
      SubsequenceUnderCommonPrefix(x[1..], a, b);
      assert (x + a)[0] == (x + b)[0];
      assert (x + a)[1..] == x[1..] + a;
      assert (x + b)[1..] == x[1..] + b;
    }
  }

  lemma {:induction false} TokenizeFromIsSubsequence(s: string, i: nat)
    requires i <= |s|
    ensures IsSubsequence(Concat(TokenizeFrom(s, i)), s[i..])
    decreases |s| - i
  {
    if i < |s| {
      match MatchAt(s, i)
      case None =>
        TokenizeFromIsSubsequence(s, i + 1);
        assert s[i..][1..] == s[i + 1..];
      case Some(j) =>
        TokenizeFromIsSubsequence(s, j);
        var ts := TokenizeFrom(s, i);
        assert ts[1..] == TokenizeFrom(s, j);
        SubsequenceUnderCommonPrefix(s[i..j], Concat(TokenizeFrom(s, j)), s[j..]);
        assert s[i..] == s[i..j] + s[j..];
    }
  }

  /** The tokens, concatenated, are a subsequence of the path: nothing is invented or reordered. */
  lemma TokenizeIsSubsequence(path: string)
    ensures IsSubsequence(Concat(Tokenize(path)), path)
  {
    TokenizeFromIsSubsequence(path, 0);
    assert path[0..] == path;
  }

  /** No text between two positions of the path is a token. */
  predicate NoTokenIn(s: string)
  {
    forall i, j :: 0 <= i < j <= |s| ==> !IsToken(s[i..j])
  }

  lemma {:induction false} TokenizeFromEmptyWhenNoToken(s: string, i: nat)
    requires i <= |s| && NoTokenIn(s)
    ensures TokenizeFrom(s, i) == []
    decreases |s| - i
  {
    if i < |s| {
      MatchAtIsLongestToken(s, i);
      TokenizeFromEmptyWhenNoToken(s, i + 1);
    }
  }

  lemma {:induction false} TokenizeFromFindsToken(s: string, k: nat, i: nat, j: nat)
    requires k <= i < j <= |s| && IsToken(s[i..j])
    ensures TokenizeFrom(s, k) != []
    decreases i - k
  {
    MatchAtIsLongestToken(s, k);
    if MatchAt(s, k).None? {
      if k < i {
        TokenizeFromFindsToken(s, k + 1, i, j);
      }
    }
  }

  /** The scan yields nothing exactly when no part of the path is a token. */
  lemma TokenizeEmptyIff(path: string)
    ensures Tokenize(path) == [] <==> NoTokenIn(path)
  {
    if NoTokenIn(path) {
      TokenizeFromEmptyWhenNoToken(path, 0);
    } else {
      var i, j :| 0 <= i < j <= |path| && IsToken(path[i..j]);
      TokenizeFromFindsToken(path, 0, i, j);
    }
  }

  /** No text starting at a position in [i, p) is a token. */
  predicate NoTokenStartsIn(s: string, i: nat, p: nat)
    requires i <= p <= |s|
  {
    forall q, j :: i <= q < p && q < j <= |s| ==> !IsToken(s[q..j])
  }

  /**
   * `s[p..e]` is the leftmost-longest token from i on: no token starts
   * between i and p, and no longer text starting at p is a token.
   */
  predicate LeftmostLongestAt(s: string, i: nat, p: nat, e: nat)
  {
    i <= p < e <= |s| && IsToken(s[p..e]) && NoTokenStartsIn(s, i, p) &&
    forall j :: e < j <= |s| ==> !IsToken(s[p..j])
  }

  /**
   * The scan from i, position by position: it yields nothing exactly when
   * no token starts at or after i; otherwise its first token is the
   * leftmost-longest token `s[p..e]`, and the scan resumes at e. Applied
   * from 0 onwards, this fixes every token's span in the path.
   */
  lemma {:induction false} TokenizeFromLeftmostLongest(s: string, i: nat)
    requires i <= |s|
    ensures TokenizeFrom(s, i) == [] <==> NoTokenStartsIn(s, i, |s|)
    ensures TokenizeFrom(s, i) != [] ==>
              exists p: nat, e: nat :: LeftmostLongestAt(s, i, p, e) && TokenizeFrom(s, i) == [s[p..e]] + TokenizeFrom(s, e)
    decreases |s| - i
  {
    if i < |s| {
      MatchAtIsLongestToken(s, i);
      match MatchAt(s, i)
      case None =>
        TokenizeFromLeftmostLongest(s, i + 1);
        assert NoTokenStartsIn(s, i, |s|) <==> NoTokenStartsIn(s, i + 1, |s|);
        if TokenizeFrom(s, i) != [] {
          var p: nat, e: nat :| LeftmostLongestAt(s, i + 1, p, e) && TokenizeFrom(s, i + 1) == [s[p..e]] + TokenizeFrom(s, e);
          assert LeftmostLongestAt(s, i, p, e);
        }
      case Some(e) =>
        assert !NoTokenStartsIn(s, i, |s|) by { assert IsToken(s[i..e]); }
        assert LeftmostLongestAt(s, i, i, e);
    }
  }

  /** `[0]` is not an index: the brackets are dropped and `0` is a bare key. */
  lemma BracketedDigitIsBareKey()
    ensures Tokenize("[0]") == ["0"]
  {
    var z := "[0]";
    assert MatchAt(z, 0) == None && MatchAt(z, 1) == Some(2) && MatchAt(z, 2) == None;
    assert z[1..2] == "0";
  }

  /** A quote inside a quoted literal breaks it: `['a'b']` gives the bare keys `a` and `b`. */
  lemma InnerQuoteSplitsLiteral()
    ensures Tokenize("['a'b']") == ["a", "b"]
  {
    var s := "['a'b']";
    assert QuoteFrom(s, 2) == 3;
    assert MatchAt(s, 0) == None;
    assert MatchAt(s, 1) == None;
    assert MatchAt(s, 2) == Some(3);
    assert MatchAt(s, 3) == None;
    assert MatchAt(s, 4) == Some(5);
    assert MatchAt(s, 5) == None;
    assert MatchAt(s, 6) == None;
    assert TokenizeFrom(s, 5) == [];
    assert s[4..5] == "b";
    assert TokenizeFrom(s, 3) == ["b"];
    assert s[2..3] == "a";
  }

  /** Empty quotes `['']` match nothing at all. */
  lemma EmptyQuotesYieldNothing()
    ensures Tokenize("['']") == []
  {
  }

  /** The scan drops a character that starts no alternative. */
  lemma ScanSkips(s: string, i: nat)
    requires i < |s| && !IsKeyChar(s[i]) && s[i] != '['
    ensures TokenizeFrom(s, i) == TokenizeFrom(s, i + 1)
  {
    assert MatchAt(s, i) == None;
  }

  /** The scan takes a whole run of key characters as one bare key. */
  lemma ScanBareKey(s: string, i: nat, j: nat)
    requires i < j <= |s|
    requires forall k :: i <= k < j ==> IsKeyChar(s[k])
    requires j == |s| || !IsKeyChar(s[j])
    ensures TokenizeFrom(s, i) == [s[i..j]] + TokenizeFrom(s, j)
  {
    assert BareEnd(s, i) == j;
  }

  /** The scan takes `['c']` with non-empty, quote-free c as one token. */
  lemma ScanQuoted(s: string, i: nat, q: nat)
    requires i + 2 < q && q + 1 < |s|
    requires s[i] == '[' && s[i + 1] == Quote && s[q] == Quote && s[q + 1] == ']'
    requires forall k :: i + 2 <= k < q ==> s[k] != Quote
    ensures TokenizeFrom(s, i) == [s[i..q + 2]] + TokenizeFrom(s, q + 2)
  {
    assert QuoteFrom(s, i + 2) == q;
    assert MatchAt(s, i) == Some(q + 2);
  }

  /** The scan takes `[x]` as one token. */
  lemma ScanWildcard(s: string, i: nat)
    requires i + 3 <= |s| && s[i] == '[' && s[i + 1] == 'x' && s[i + 2] == ']'
    ensures TokenizeFrom(s, i) == [WildcardText] + TokenizeFrom(s, i + 3)
  {
    assert s[i..i + 3] == WildcardText;
  }

  /** `['c']` as a string, for non-empty quote-free c. */
  function Quoted(c: string): (t: string)
    ensures |t| == |c| + 4
  {
    "['" + c + "']"
  }

  /** `['c']` character by character: the brackets and quotes around c. */
  lemma QuotedLayout(c: string)
    ensures var t := Quoted(c);
            t[0] == '[' && t[1] == Quote && t[|c| + 2] == Quote && t[|c| + 3] == ']' &&
            forall k :: 0 <= k < |c| ==> t[k + 2] == c[k]
  {
  }

  /** Where the path holds the bare key `a` at i, ended by a non-key character or the end, the scan takes it. */
  lemma ScanBareText(s: string, i: nat, a: string)
    requires IsBareKey(a) && i + |a| <= |s| && s[i..i + |a|] == a
    requires i + |a| == |s| || !IsKeyChar(s[i + |a|])
    ensures TokenizeFrom(s, i) == [a] + TokenizeFrom(s, i + |a|)
  {
    assert forall k :: i <= k < i + |a| ==> s[k] == a[k - i];
    ScanBareKey(s, i, i + |a|);
  }

  /** Where the path holds `['c']` at i, the scan takes it. */
  lemma ScanQuotedText(s: string, i: nat, c: string)
    requires |c| > 0 && forall k :: 0 <= k < |c| ==> c[k] != Quote
    requires i + |c| + 4 <= |s| && s[i..i + |c| + 4] == Quoted(c)
    ensures TokenizeFrom(s, i) == [Quoted(c)] + TokenizeFrom(s, i + |c| + 4)
  {
    var q := i + |c| + 2;
    var t := s[i..q + 2];
    QuotedLayout(c);
    assert s[i] == t[0] && s[i + 1] == t[1] && s[q] == t[|c| + 2] && s[q + 1] == t[|c| + 3];
    forall k | i + 2 <= k < q ensures s[k] != Quote {
      assert s[k] == t[(k - i - 2) + 2];
    }
    ScanQuoted(s, i, q);
  }

  /**
   * A bare key, a dot and a quoted key: the scan yields exactly the key and
   * the whole quoted text, so the quoted content (spaces included) stays one
   * token.
   */
  lemma TokenizeKeyThenQuoted(a: string, c: string)
    requires IsBareKey(a)
    requires |c| > 0 && forall k :: 0 <= k < |c| ==> c[k] != Quote
    ensures Tokenize(a + "." + Quoted(c)) == [a, Quoted(c)]
  {
    var s := a + "." + Quoted(c);
    var n := |a|;
    assert s[0..n] == a;
    assert s[n] == '.';
    assert s[n + 1..n + 1 + |c| + 4] == Quoted(c);
    ScanBareText(s, 0, a);
    ScanSkips(s, n);
    ScanQuotedText(s, n + 1, c);
    assert TokenizeFrom(s, |s|) == [];
  }

  /**
   * A bare key, the wildcard and a quoted key, dot-separated: the scan
   * yields exactly those three tokens.
   */
  lemma TokenizeFanOutPath(a: string, c: string)
    requires IsBareKey(a)
    requires |c| > 0 && forall k :: 0 <= k < |c| ==> c[k] != Quote
    ensures Tokenize(a + ".[x]." + Quoted(c)) == [a, WildcardText, Quoted(c)]
  {
    var s := a + ".[x]." + Quoted(c);
    var n := |a|;
    assert s[n + 5..n + 5 + |c| + 4] == Quoted(c);
    ScanQuotedText(s, n + 5, c);
    assert TokenizeFrom(s, |s|) == [];
    var tail := TokenizeFrom(s, n + 5);
    assert tail == [Quoted(c)];
    assert s[n + 4] == '.';
    ScanSkips(s, n + 4);
    assert s[n + 1] == '[' && s[n + 2] == 'x' && s[n + 3] == ']';
    ScanWildcard(s, n + 1);
    assert TokenizeFrom(s, n + 1) == [WildcardText, Quoted(c)];
    assert s[n] == '.';
    ScanSkips(s, n);
    assert s[0..n] == a;
    ScanBareText(s, 0, a);
  }

  /**
   * A dotted path whose quoted key holds a space keeps that key whole.
   * The path is a parameter equal to the literal rather than the literal
   * itself: a literal argument makes the verifier unfold the recursive scan
   * over every character eagerly, so the proof goes through the general
   * lemma instead.
   */
  lemma QuotedKeyWithSpace(s: string)
    requires s == "contact.['Email Address']"
    ensures Tokenize(s) == ["contact", "['Email Address']"]
  {
    assert Quoted("Email Address") == "['Email Address']";
    assert s == "contact" + "." + Quoted("Email Address");
    TokenizeKeyThenQuoted("contact", "Email Address");
  }

  /**
   * A fan-out path: a bare key, the wildcard and a quoted key. The path is
   * a parameter equal to the literal, for the reason given above.
   */
  lemma WildcardPath(s: string)
    requires s == "Items.[x].['Name']"
    ensures Tokenize(s) == ["Items", "[x]", "['Name']"]
  {
    assert Quoted("Name") == "['Name']";
    assert s == "Items" + ".[x]." + Quoted("Name");
    TokenizeFanOutPath("Items", "Name");
  }
}
