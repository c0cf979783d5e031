/**
 * `normalizeStructure`: read one record into its normalized form. For each
 * field of the entity map, in declaration order, the path of the requested
 * side is resolved against the raw data and the value is stored under the
 * field's normalized name. Fields without a path on that side are skipped.
 */
module Normalizer {
  import opened Wrappers
  import opened PhpValue
  import opened PathTokenizer
  import opened PathReader

  /**
   * One field mapping. A path is None when the key is missing from the
   * configuration or holds null: both fail `isset`.
   */
  datatype Field = Field(normName: string, sourcePath: Option<string>, targetPath: Option<string>)

  /** An entity map; only its `fields` are read here. */
  datatype EntityMap = EntityMap(fields: seq<Field>)

  /** The normalized record: a PHP array keyed by normalized name. */
  type Record = seq<(string, Value)>

  /** The path read for `system`: the source path for "source", the target path for anything else. */
  function SelectedPath(f: Field, system: string): Option<string>
  {
    if system == "source" then f.sourcePath else f.targetPath
  }

  /** `str_contains($path, '[x]')`: a purely textual test. */
  predicate ContainsWildcardText(path: string)
  {
    exists i | 0 <= i <= |path| - 3 :: WildcardTextAt(path, i)
  }

  predicate WildcardTextAt(path: string, i: int)
  {
    0 <= i && i + 3 <= |path| && path[i..i + 3] == WildcardText
  }

  /** The value stored for a field whose selected path is `path`. */
  function FieldValue(raw: Value, path: string): (v: Value)
  {
    var value := ResolvePath(raw, Some(path));
    if ContainsWildcardText(path) && value.Null? then Arr([]) else value
  }

  /** A field whose path text mentions `[x]` never stores null; any other field stores the resolved value as is. */
  lemma FieldValueCoercion(raw: Value, path: string)
    ensures ContainsWildcardText(path) ==> !FieldValue(raw, path).Null?
    ensures ContainsWildcardText(path) && FieldValue(raw, path) != ResolvePath(raw, Some(path)) ==>
              FieldValue(raw, path) == Arr([]) && ResolvePath(raw, Some(path)) == Null
    ensures !ContainsWildcardText(path) ==> FieldValue(raw, path) == ResolvePath(raw, Some(path))
  {
  }

  /** One iteration of the loop: skip the field, or store its value under its name. */
  function Step(norm: Record, raw: Value, f: Field, system: string): Record
  {
    match SelectedPath(f, system)
    case None => norm
    case Some(path) => Put(norm, f.normName, FieldValue(raw, path))
  }

  /** The record after the loop has visited `fields`, left to right. */
  function Normalized(raw: Value, fields: seq<Field>, system: string): Record
    decreases |fields|
  {
    if fields == [] then []
    else Step(Normalized(raw, fields[..|fields| - 1], system), raw, fields[|fields| - 1], system)
  }

  /** One more field visited is one more step of the fold. */
  lemma NormalizedExtends(raw: Value, fields: seq<Field>, i: nat, system: string)
    requires i < |fields|
    ensures Normalized(raw, fields[..i + 1], system) == Step(Normalized(raw, fields[..i], system), raw, fields[i], system)
  {
    assert fields[..i + 1][..i] == fields[..i];
  }

  /** `normalizeStructure($rawData, $entityMap, $system)`. */
  method NormalizeStructure(raw: Value, entityMap: EntityMap, system: string) returns (norm: Record)
    ensures norm == Normalized(raw, entityMap.fields, system)
    ensures DistinctKeys(norm)
  {
    var fields := entityMap.fields;
    norm := [];
    var i := 0;
    while i < |fields|
      invariant 0 <= i <= |fields|
      invariant norm == Normalized(raw, fields[..i], system)
    {
      var field := fields[i];
      NormalizedExtends(raw, fields, i, system);
      var path := if system == "source" then field.sourcePath else field.targetPath;
      if path.Some? {
        var value := ResolvePath(raw, path);
        if ContainsWildcardText(path.value) && value.Null? {
          value := Arr([]);
        }
        norm := Put(norm, field.normName, value);
      }
      i := i + 1;
    }
    assert fields[..i] == fields;
    NormalizedDistinctKeys(raw, fields, system);
  }

  /** A field that writes `name` on this side. */
  predicate Writes(f: Field, system: string, name: string)
  {
    f.normName == name && SelectedPath(f, system).Some?
  }

  /** The record never holds a name twice: a repeated name reuses its entry. */
  lemma {:induction false} NormalizedDistinctKeys(raw: Value, fields: seq<Field>, system: string)
    ensures DistinctKeys(Normalized(raw, fields, system))
    decreases |fields|
  {
    if fields != [] {
      var init, last := fields[..|fields| - 1], fields[|fields| - 1];
      NormalizedDistinctKeys(raw, init, system);
      match SelectedPath(last, system)
      case None =>
      case Some(path) => PutKeepsDistinct(Normalized(raw, init, system), last.normName, FieldValue(raw, path));
    }
  }

  /**
   * The record's keys are exactly the names of the fields that have a path
   * on the requested side (the source path iff `system` is "source");
   * skipped fields are absent, not null.
   */
  lemma {:induction false} NormalizedKeys(raw: Value, fields: seq<Field>, system: string, name: string)
    ensures HasKey(Normalized(raw, fields, system), name) <==>
              exists i :: 0 <= i < |fields| && fields[i].normName == name &&
                          (if system == "source" then fields[i].sourcePath else fields[i].targetPath).Some?
    decreases |fields|
  {
    if fields != [] {
      var init := fields[..|fields| - 1];
      var last := fields[|fields| - 1];
      NormalizedKeys(raw, init, system, name);
      assert forall i :: 0 <= i < |init| ==> init[i] == fields[i];
      match SelectedPath(last, system)
      case None =>
      case Some(path) =>
        var before := Normalized(raw, init, system);
        if name == last.normName {
          PutStores(before, name, FieldValue(raw, path));
        } else {
          PutKeepsOthers(before, last.normName, FieldValue(raw, path), name);
        }
    }
  }

  /**
   * Last write wins: the value stored under a name is the value of the
   * last field that writes that name on the requested side.
   */
  lemma {:induction false} NormalizedLastWriteWins(raw: Value, fields: seq<Field>, system: string, j: nat)
    requires j < |fields| && SelectedPath(fields[j], system).Some?
    requires forall i :: j < i < |fields| ==> !Writes(fields[i], system, fields[j].normName)
    ensures Get(Normalized(raw, fields, system), fields[j].normName) ==
              Some(FieldValue(raw, SelectedPath(fields[j], system).value))
    decreases |fields|
  {
    var init, last := fields[..|fields| - 1], fields[|fields| - 1];
    var before := Normalized(raw, init, system);
    if j < |fields| - 1 {
      assert forall i :: 0 <= i < |init| ==> init[i] == fields[i];
      NormalizedLastWriteWins(raw, init, system, j);
      assert !Writes(last, system, fields[j].normName);
      match SelectedPath(last, system)
      case None =>
      case Some(path) => PutKeepsOthers(before, last.normName, FieldValue(raw, path), fields[j].normName);
    } else {
      PutStores(before, last.normName, FieldValue(raw, SelectedPath(last, system).value));
    }
  }

  /**
   * A name whose last writer's path text contains `[x]` is never null in
   * the record: a null resolution has become the empty array.
   */
  lemma WildcardFieldNeverNull(raw: Value, fields: seq<Field>, system: string, j: nat)
    requires j < |fields| && SelectedPath(fields[j], system).Some?
    requires ContainsWildcardText(SelectedPath(fields[j], system).value)
    requires forall i :: j < i < |fields| ==> !Writes(fields[i], system, fields[j].normName)
    ensures var v := Get(Normalized(raw, fields, system), fields[j].normName);
            v.Some? && !v.value.Null?
  {
    NormalizedLastWriteWins(raw, fields, system, j);
    FieldValueCoercion(raw, SelectedPath(fields[j], system).value);
  }

  /**
   * Names enter the record in declaration order: a name whose first writer
   * comes later sits after every name written before it. A repeated name
   * keeps the place of its first writer.
   */
  lemma {:induction false} NormalizedFollowsDeclarationOrder(raw: Value, fields: seq<Field>, system: string, i: nat, j: nat)
    requires i < j < |fields|
    requires Writes(fields[i], system, fields[i].normName) && Writes(fields[j], system, fields[j].normName)
    requires forall k :: 0 <= k < j ==> !Writes(fields[k], system, fields[j].normName)
    ensures var norm := Normalized(raw, fields, system);
            IndexOf(norm, fields[i].normName).Some? && IndexOf(norm, fields[j].normName).Some? &&
            IndexOf(norm, fields[i].normName).value < IndexOf(norm, fields[j].normName).value
    decreases |fields|
  {
    var init := fields[..|fields| - 1];
    var last := fields[|fields| - 1];
    var a, b := fields[i].normName, fields[j].normName;
    var before := Normalized(raw, init, system);
    var norm := Normalized(raw, fields, system);
    assert forall k :: 0 <= k < |init| ==> init[k] == fields[k];
    NormalizedKeys(raw, init, system, a);
    assert HasKey(before, a) by { assert init[i] == fields[i]; }
    if j == |fields| - 1 {
      NormalizedKeys(raw, init, system, b);
      assert !HasKey(before, b);
      assert norm == Put(before, b, FieldValue(raw, SelectedPath(last, system).value));
      IndexOfStable(before, norm, a);
      assert norm[|before|].0 == b;
      assert HasKey(norm, b);
      var q := IndexOf(norm, b).value;
      assert q == |before|;
    } else {
      NormalizedFollowsDeclarationOrder(raw, init, system, i, j);
      NormalizedKeys(raw, init, system, b);
      assert HasKey(before, b) by { assert init[j] == fields[j]; }
      match SelectedPath(last, system)
      case None =>
      case Some(path) =>
        IndexOfStable(before, norm, a);
        IndexOfStable(before, norm, b);
    }
  }

  /**
   * A field whose path is `a.['[x]']` names the literal key `[x]`, yet its
   * text contains `[x]`: it reads the member `[x]` when that member is
   * present and not null, and stores `[]` where a plain path would store
   * null.
   */
  lemma QuotedWildcardKeyField(a: string, v: Value)
    requires IsBareKey(a) && !v.Null?
    ensures FieldValue(Arr([(a, Arr([(WildcardText, v)]))]), a + "." + Quoted(WildcardText)) == v
    ensures ResolvePath(Arr([(a, Arr([]))]), Some(a + "." + Quoted(WildcardText))) == Null
    ensures FieldValue(Arr([(a, Arr([]))]), a + "." + Quoted(WildcardText)) == Arr([])
  {
    var path := a + "." + Quoted(WildcardText);
    assert forall k :: 0 <= k < |WildcardText| ==> WildcardText[k] != Quote;
    assert NoNewline(WildcardText);
    ResolveKeyThenQuoted(a, WildcardText, v);
    TokenizeKeyThenQuoted(a, WildcardText);
    ClassifyTokenizerOutput(a);
    QuotedClassifiesAsLiteral(WildcardText);
    var toks := [a, Quoted(WildcardText)];
    assert Lookup(Arr([(a, Arr([]))]), a) == Arr([]);
    assert toks[1..] == [Quoted(WildcardText)] && toks[1..][1..] == [];
    assert WalkTokens(Arr([]), toks[1..]) == Null;
    var n := |a|;
    assert path[n + 3..n + 6] == WildcardText;
    assert WildcardTextAt(path, n + 3);
  }

  /**
   * A record with a single field whose path holds no `[x]` is that one
   * entry, holding the value the path resolves to.
   */
  lemma NormalizeSingleField(raw: Value, f: Field, system: string)
    requires SelectedPath(f, system).Some? && !ContainsWildcardText(SelectedPath(f, system).value)
    ensures Normalized(raw, [f], system) == [(f.normName, ResolvePath(raw, SelectedPath(f, system)))]
  {
    assert [f][..0] == [];
  }

  /** Text without the letter x cannot contain `[x]`. */
  lemma NoWildcardWithoutX(path: string)
    requires forall k :: 0 <= k < |path| ==> path[k] != 'x'
    ensures !ContainsWildcardText(path)
  {
    forall i | 0 <= i <= |path| - 3 ensures !WildcardTextAt(path, i) {
      assert path[i..i + 3][1] == path[i + 1];
    }
  }

  /**
   * `contact.['Email Address']` does not contain `[x]`.
   * The path is a parameter equal to the literal rather than the literal
   * itself: a literal argument makes the verifier unfold the checks
   * over every character eagerly, so the proof goes through the general
   * lemma instead.
   */
  lemma EmailPathHasNoWildcard(path: string)
    requires path == "contact.['Email Address']"
    ensures !ContainsWildcardText(path)
  {
    NoWildcardWithoutX(path);
  }

  /**
   * An email field read from the source side: the quoted key with a space
   * is read verbatim, and the record holds the single entry `email`. The
   * path is a parameter equal to the literal, for the reason given above.
   */
  lemma NormalizeEmailScenario(raw: Value, path: string, fields: seq<Field>)
    requires raw == Arr([("contact", Arr([("Email Address", Str("a@b.com"))]))])
    requires path == "contact.['Email Address']"
    requires fields == [Field("email", Some(path), Some("fields.['Email']"))]
    ensures Normalized(raw, fields, "source") == [("email", Str("a@b.com"))]
  {
    ResolveQuotedKeyWithSpace(raw, path);
    EmailPathHasNoWildcard(path);
    NormalizeSingleField(raw, fields[0], "source");
  }
}
