# Path-mapping read engine

This project models the read half of a data-synchronisation proxy's
path-mapping engine, from `public/data-cache/helpers.php`. A field is read out
of a decoded JSON record with a small path language. The language has bare
keys (`contact`), quoted keys (`['Email Address']`) and the wildcard `[x]`,
which fans the rest of the path out over every element of an array. The
engine has three parts:

- **Tokenizer** (`PathTokenizer`). One left-to-right regular-expression
  scan, `[A-Za-z0-9_-]+|\['[^']+'\]|\[x\]`, collects the text of each match.
  Characters that match nothing are dropped, so the scan never fails. The
  model is a pure recursive scan: `MatchAt` gives the end of the match at
  one position, trying the three alternatives in order, and `TokenizeFrom`
  resumes after each match.
- **Reader** (`PathReader`). `WalkTokens` follows `walkTokens` token by
  token. A null node stays null. An empty token list returns the node.
  - The exact text `[x]` maps the rest of the path over an array and keeps
    the non-null results, reindexed as a fresh list.
  - On a node that is not an array, `[x]` gives the empty array.
  - Text matching `^\['(.+)'\]$` looks up the captured key.
  - Any other text looks up itself.

  `ResolvePath` returns null for a null or empty path. Otherwise it
  tokenizes the path and walks the data.
- **Normalizer** (`Normalizer`). `NormalizeStructure` is the loop of
  `normalizeStructure`. For each field it picks the `source_path` when the
  system is `"source"` and the `target_path` otherwise. It skips a field
  whose path is unset or null. It resolves the path and turns a null result
  into `[]` when the path text contains `[x]`. It then stores the value
  under the field's `norm_name` with PHP array assignment. The method is
  proved equal to the left fold `Normalized`, and the lemmas state what
  that fold's result is.

Data (`PhpValue`) is what `json_decode(..., true)` yields. It is null, a
boolean, a number, a string, or a PHP array. JSON objects and JSON lists
are both PHP arrays, written `Arr` as ordered key/value entries. PHP stores
integer-like keys as integers. The model writes every key as text and keeps
integer keys in canonical decimal form, so a lookup of the key text `0`
finds list element 0, as it does in PHP. A list made by the wildcard is
keyed `"0"`, `"1"`, … (`ListOf`).

Three behaviours of the code are modelled as written:

- The walker's literal pattern uses `.`, which does not match a line
  feed. A quoted token whose content holds a line feed is therefore looked
  up by its whole text, brackets and quotes included
  (`ClassifyTokenizerOutput`).
- The read side has no index token. `[0]` is read as the bare key `0`
  (`BracketedDigitIsBareKey`), which finds list element 0 of a decoded
  JSON list.
- `normalizeStructure` does not require `norm_name` to be unique. A repeated
  name keeps the position of its first writer and takes the value of its
  last writer (`NormalizedFollowsDeclarationOrder`, `NormalizedLastWriteWins`).

## Model

| member | source | states |
|---|---|---|
| PhpValue.Lookup | public/data-cache/helpers.php:95-99 | `$current[$key] ?? null`: a non-array node, a missing key or a null member all give null; otherwise the value stored under exactly that key |
| PhpValue.Put | public/data-cache/helpers.php:125 | `$norm[$name] = $value`: an existing name is overwritten in place, so the length is kept; a new name is appended last as `(name, value)`. No key moves, and every entry under another key keeps its value |
| PhpValue.PutStores | public/data-cache/helpers.php:125 | after the assignment the name is present and reads back as the assigned value |
| PhpValue.PutKeepsOthers | public/data-cache/helpers.php:125 | after the assignment every other key is present exactly when it was before and reads back the same value |
| PhpValue.PutKeepsDistinct | public/data-cache/helpers.php:125 | the assignment keeps the keys of the array distinct |
| PhpValue.IndexOfStable | public/data-cache/helpers.php:125 | an assignment that does not move keys leaves the position of every present key unchanged |
| PhpValue.DecimalStringInjective | public/data-cache/helpers.php:86 | the list keys `$out[]` assigns to different positions are different |
| PhpValue.ListOf | public/data-cache/helpers.php:82-90 | the list `$out[] = $val` builds: its keys are exactly `"0"` … `"n-1"`, each once, and key `"i"` reads back element i |
| PhpValue.ListOfWellFormed | public/data-cache/helpers.php:82-90 | a list built from well-formed values is well formed: its keys, and the keys at every level below them, are distinct |
| PathTokenizer.MatchAtIsLongestToken | public/data-cache/helpers.php:57 | at each position the scan takes the longest text the pattern accepts; when it finds no match, no text starting there is a token |
| PathTokenizer.BareRunIsLongestToken | public/data-cache/helpers.php:57 | from a key character, the whole run of key characters is a token and no longer text is |
| PathTokenizer.QuotedIsOnlyToken | public/data-cache/helpers.php:57 | from `['`, the only token ends right after the first quote that follows non-empty content and is itself followed by `]` |
| PathTokenizer.WildcardIsLongestToken | public/data-cache/helpers.php:57 | from `[x]`, that text is a token and no longer text is |
| PathTokenizer.NoTokenStartsAt | public/data-cache/helpers.php:57 | where no alternative starts, no text starting there is a token |
| PathTokenizer.TokenizeYieldsTokens | public/data-cache/helpers.php:57-59 | every token is a `[A-Za-z0-9_-]+` run, a `['c']` with non-empty quote-free `c`, or exactly `[x]` |
| PathTokenizer.TokenizeBareKeysAreMaximal | public/data-cache/helpers.php:57-59 | every bare-key token occupies a maximal run of key characters of the path |
| PathTokenizer.TokenizeIsSubsequence | public/data-cache/helpers.php:57-59 | the tokens, concatenated in order, are a subsequence of the path |
| PathTokenizer.TokenizeEmptyIff | public/data-cache/helpers.php:57-59 | the scan yields no token if and only if no text of the path is a token |
| PathTokenizer.TokenizeFromLeftmostLongest | public/data-cache/helpers.php:57-59 | the scan from position i yields nothing exactly when no token starts at or after i. Otherwise its first token is `s[p..e]`, where p is the leftmost position at which a token starts and e is the end of the longest token there, and the scan resumes at e. This fixes the span of every token |
| PathTokenizer.BracketedDigitIsBareKey | public/data-cache/helpers.php:57-59 | `[0]` yields the single bare key `0` |
| PathTokenizer.InnerQuoteSplitsLiteral | public/data-cache/helpers.php:57-59 | `['a'b']` yields the bare keys `a` and `b` |
| PathTokenizer.EmptyQuotesYieldNothing | public/data-cache/helpers.php:57-59 | `['']` yields no token |
| PathTokenizer.ScanSkips | public/data-cache/helpers.php:57-59 | a character that is neither a key character nor `[` is dropped by the scan |
| PathTokenizer.ScanBareKey | public/data-cache/helpers.php:57-59 | a maximal run of key characters becomes one token and the scan resumes after it |
| PathTokenizer.ScanQuoted | public/data-cache/helpers.php:57-59 | `[` `'` quote-free content `'` `]` becomes one token and the scan resumes after it |
| PathTokenizer.ScanWildcard | public/data-cache/helpers.php:57-59 | `[x]` becomes one token and the scan resumes after it |
| PathTokenizer.TokenizeKeyThenQuoted | public/data-cache/helpers.php:57-59 | `a.['c']`, with bare key `a` and non-empty quote-free `c`, yields exactly `a` and `['c']`: spaces and other characters in `c` stay in one token |
| PathTokenizer.TokenizeFanOutPath | public/data-cache/helpers.php:57-59 | `a.[x].['c']` yields exactly `a`, `[x]` and `['c']` |
| PathTokenizer.QuotedKeyWithSpace | public/data-cache/helpers.php:57-59 | `contact.['Email Address']` yields `contact` and the whole quoted key |
| PathTokenizer.WildcardPath | public/data-cache/helpers.php:57-59 | `Items.[x].['Name']` yields a bare key, the wildcard and a quoted key |
| PathReader.LiteralCapture | public/data-cache/helpers.php:94 | `^\['(.+)'\]$` matches exactly the texts `['c']` and `['c']` plus one final line feed, with c non-empty and free of line feeds, and captures that c |
| PathReader.ClassifyTokenizerOutput | public/data-cache/helpers.php:77-99 | each token the scan emits is dispatched as the source does: a bare key as itself, `[x]` as the wildcard, and `['c']` as key `c` when `c` has no line feed (otherwise as its whole text) |
| PathReader.LiteralAndBareKeyAgree | public/data-cache/helpers.php:94-99 | `['K']` and bare `K` perform the same lookup of the verbatim key K (spaces included) and continue identically |
| PathReader.QuotedClassifiesAsLiteral | public/data-cache/helpers.php:77-95 | `['k']`, with k non-empty and free of line feeds, is read as a lookup of the literal key k; `['[x]']` is a lookup of the key `[x]`, not the wildcard |
| PathReader.NullAbsorbsEveryPath | public/data-cache/helpers.php:66-68 | a null node gives null for every token list |
| PathReader.MissingKeyGivesNull | public/data-cache/helpers.php:94-99 | a missing key, or a key holding null, continues as null |
| PathReader.AbsentPrefixGivesNull | public/data-cache/helpers.php:64-100 | once a wildcard-free prefix of the path reaches nothing, the whole path gives null |
| PathReader.WildcardOnNonArray | public/data-cache/helpers.php:77-80 | the wildcard on a non-null node that is not an array gives `[]` |
| PathReader.CollectNonNull | public/data-cache/helpers.php:82-90 | the wildcard loop keeps at most one value per element and never keeps null |
| PathReader.WildcardCollectsNonNullResults | public/data-cache/helpers.php:77-91 | the wildcard on an array gives a fresh list keyed `0..n-1`. It holds exactly the non-null results of walking each element with the remaining tokens, in element order. It is no longer than the array and holds no null |
| PathReader.WalkComposes | public/data-cache/helpers.php:64-100 | for a wildcard-free `t1`, walking `t1 + t2` equals walking `t2` from the result of walking `t1` |
| PathReader.WildcardBreaksComposition | public/data-cache/helpers.php:77-91 | with a wildcard in `t1` that equation fails, because of reindexing (a concrete array shows it) |
| PathReader.WalkPreservesWellFormed | public/data-cache/helpers.php:64-100 | walking well-formed data (distinct keys everywhere) gives well-formed data |
| PathReader.ResolveWithoutPath | public/data-cache/helpers.php:52-54 | a null path and the empty path resolve to null |
| PathReader.ResolveUnmatchedPathIsIdentity | public/data-cache/helpers.php:57-61 | a non-empty path in which no text is a token gives zero tokens and returns the data unchanged |
| PathReader.ResolveKeyThenQuoted | public/data-cache/helpers.php:50-99 | `a.['c']` on `{a: {c: v}}` resolves to `v`, for every bare key `a`, value `v` and non-empty `c` free of quotes and line feeds |
| PathReader.ResolveFanOutOverQuotedMember | public/data-cache/helpers.php:50-99 | `a.[x].['c']` on `{a: [{c: v1}, {c: v2}]}`, with non-null `v1` and `v2`, resolves to the fresh list `[v1, v2]` |
| PathReader.ResolveQuotedKeyWithSpace | public/data-cache/helpers.php:50-99 | `contact.['Email Address']` reads the member named `Email Address` verbatim |
| PathReader.ResolveFanOut | public/data-cache/helpers.php:77-91 | `Items.[x].['Name']` over two records gives the list of their names, in order |
| Normalizer.FieldValueCoercion | public/data-cache/helpers.php:118-123 | a path whose text contains `[x]` never yields null, because a null resolution becomes `[]`; any other path yields the resolved value unchanged |
| Normalizer.NormalizeStructure | public/data-cache/helpers.php:108-129 | the loop's record equals the fold `Normalized` over all fields and has distinct keys |
| Normalizer.NormalizedDistinctKeys | public/data-cache/helpers.php:125 | a repeated `norm_name` reuses its entry; no name appears twice |
| Normalizer.NormalizedKeys | public/data-cache/helpers.php:112-116 | a name is a key of the record if and only if some field with that name has a path on the selected side (`source_path` iff the system is `"source"`, `target_path` otherwise). Skipped fields are absent, not null |
| Normalizer.NormalizedLastWriteWins | public/data-cache/helpers.php:125 | the value under a name is the value of the last field that writes it |
| Normalizer.NormalizedFollowsDeclarationOrder | public/data-cache/helpers.php:112-125 | names appear in the order of their first writers |
| Normalizer.WildcardFieldNeverNull | public/data-cache/helpers.php:118-125 | a name whose last writer's path text contains `[x]` is never null in the record. The test is on the text, so `['[x]']` triggers it too |
| Normalizer.NormalizedExtends | public/data-cache/helpers.php:112-126 | one more iteration of the loop is one more step of the fold |
| Normalizer.QuotedWildcardKeyField | public/data-cache/helpers.php:118-125 | a field with path `a.['[x]']` reads the literal member `[x]`: on `{a: {"[x]": v}}` with non-null v it stores v. On `{a: {}}` the path resolves to null, and because its text contains `[x]` the field stores `[]` |
| Normalizer.NormalizeSingleField | public/data-cache/helpers.php:108-129 | a map with one field whose path holds no `[x]` gives a record with that single entry, holding the resolved value |
| Normalizer.NoWildcardWithoutX | public/data-cache/helpers.php:121 | text without the letter `x` does not contain `[x]` |
| Normalizer.NormalizeEmailScenario | public/data-cache/helpers.php:108-129 | field `email` with source path `contact.['Email Address']` over `{"contact":{"Email Address":"a@b.com"}}` gives `{"email":"a@b.com"}` |

## Left out

- `readConfig` and `buildFilePath` (public/data-cache/helpers.php:3-42) are not modelled. They read the file system, parse URLs, create directories and hash with SHA-256.
- `public/data-acceptance/index.php` is not modelled: HTTP routing, CORS headers, config and environment loading, the HTTP client, response codes, and the first-match entity lookup that is tied to those responses.
- The write side (`buildTargetPayloadFromNorm`, the path writer and the payload builder) is not part of this model. Its definition is not in the source files this model covers.
- PHP string offsets are not modelled. When the current node is a string, `$current[$token] ?? null` with a numeric token returns one character of the string. `PhpValue.Lookup` returns null on every non-array node.
- JSON numbers are opaque integers. Floats and number formats are not modelled, since the engine does no arithmetic with them.
- A path or `norm_name` that is not a string in the configuration (a number, say) is not modelled. Both are strings here.
- An entity map without a `fields` member is not modelled; `EntityMap` always has a field list.
- The regular expressions run on bytes in PHP; the model scans characters. None of the pattern's special characters is part of a multi-byte character, so the two scans split a path the same way.
