/**
 * The data the path engine walks: what `json_decode($raw, true)` produces.
 * JSON objects and JSON lists both become PHP arrays, that is ordered
 * key/value entries. PHP stores an integer-like key as an integer, so a list
 * element 0 and an object member "0" are the same key; the model keeps every
 * key as text and writes integer keys in canonical decimal form, which makes
 * a lookup by the key text `0` find list element 0 exactly as PHP does.
 */
module PhpValue {
  import opened Wrappers

  datatype Value =
    | Null
    | Bool(b: bool)
    | Num(n: int)        // JSON numbers are never computed with, so an int stands for any of them
    | Str(s: string)
    | Arr(entries: seq<(string, Value)>)

  /** No key occurs twice: every PHP array satisfies this. */
  predicate DistinctKeys(entries: seq<(string, Value)>)
  {
    forall i, j :: 0 <= i < j < |entries| ==> entries[i].0 != entries[j].0
  }

  /** Distinct keys at every level of a value. */
  predicate WellFormed(v: Value)
    decreases v
  {
    match v
    case Arr(entries) =>
      DistinctKeys(entries) &&
      forall e | e in entries :: WellFormed(e.1)
    case _ => true
  }

  /** True when some entry has key k. */
  predicate HasKey(entries: seq<(string, Value)>, k: string)
  {
    exists i :: 0 <= i < |entries| && entries[i].0 == k
  }

  /** The position of the first entry whose key is k. */
  function IndexOf(entries: seq<(string, Value)>, k: string): (r: Option<nat>)
    ensures r.Some? ==> r.value < |entries| && entries[r.value].0 == k
    ensures r.Some? ==> forall i :: 0 <= i < r.value ==> entries[i].0 != k
    ensures r.None? <==> !HasKey(entries, k)
    decreases |entries|
  {
    if entries == [] then None
    else if entries[0].0 == k then Some(0)
    else
      match IndexOf(entries[1..], k)
      case None =>
        assert forall i :: 1 <= i < |entries| ==> entries[i] == entries[1..][i - 1];
        None
      case Some(i) => Some(i + 1)
  }

  /** The value stored under key k, if any (`isset`-free array read). */
  function Get(entries: seq<(string, Value)>, k: string): (r: Option<Value>)
    ensures r.None? <==> !HasKey(entries, k)
    ensures DistinctKeys(entries) ==>
              forall i :: 0 <= i < |entries| && entries[i].0 == k ==> r == Some(entries[i].1)
  {
    match IndexOf(entries, k)
    case None => None
    case Some(i) => Some(entries[i].1)
  }

  /**
   * `$current[$key] ?? null`: the value under key k when the current node is
   * an array holding k, otherwise null. A non-array node yields null (see
   * README for PHP's string-offset behaviour, which this leaves out).
   */
  function Lookup(cur: Value, k: string): (r: Value)
    ensures !cur.Arr? ==> r == Null
    ensures cur.Arr? && !HasKey(cur.entries, k) ==> r == Null
    ensures cur.Arr? && DistinctKeys(cur.entries) ==>
              forall i :: 0 <= i < |cur.entries| && cur.entries[i].0 == k ==> r == cur.entries[i].1
  {
    if cur.Arr? then
      match Get(cur.entries, k)
      case None => Null
      case Some(v) => v
    else Null
  }

  /**
   * `$array[$k] = $v`: overwrite the value in place when k is already a key
   * (its position is kept), otherwise append a new entry at the end. No key
   * moves and no other value changes.
   */
  function Put(entries: seq<(string, Value)>, k: string, v: Value): (r: seq<(string, Value)>)
    ensures HasKey(entries, k) ==> |r| == |entries|
    ensures !HasKey(entries, k) ==> |r| == |entries| + 1 && r[|entries|] == (k, v)
    ensures forall i :: 0 <= i < |entries| ==> r[i].0 == entries[i].0
    ensures forall i :: 0 <= i < |entries| && entries[i].0 != k ==> r[i].1 == entries[i].1
  {
    match IndexOf(entries, k)
    case None => entries + [(k, v)]
    case Some(i) => entries[i := (k, v)]
  }

  /** After `$array[$k] = $v`, reading k gives v. */
  lemma PutStores(entries: seq<(string, Value)>, k: string, v: Value)
    ensures HasKey(Put(entries, k, v), k)
    ensures Get(Put(entries, k, v), k) == Some(v)
  {
    var r := Put(entries, k, v);
    match IndexOf(entries, k)
    case None =>
      assert r[|entries|].0 == k;
      var q := IndexOf(r, k).value;
      assert q == |entries|;
    case Some(i) =>
      assert r[i] == (k, v);
      var q := IndexOf(r, k).value;
      assert q == i;
  }

  /** After `$array[$k] = $v`, reading any other key gives what it gave before. */
  lemma PutKeepsOthers(entries: seq<(string, Value)>, k: string, v: Value, other: string)
    requires other != k
    ensures HasKey(Put(entries, k, v), other) == HasKey(entries, other)
    ensures Get(Put(entries, k, v), other) == Get(entries, other)
  {
    var r := Put(entries, k, v);
    if HasKey(entries, other) {
      IndexOfStable(entries, r, other);
      var p := IndexOf(entries, other).value;
      assert r[p] == entries[p];
    } else {
      assert !HasKey(r, other);
    }
  }

  /** `$array[$k] = $v` keeps keys distinct. */
  lemma PutKeepsDistinct(entries: seq<(string, Value)>, k: string, v: Value)
    requires DistinctKeys(entries)
    ensures DistinctKeys(Put(entries, k, v))
  {
    var r := Put(entries, k, v);
    if !HasKey(entries, k) {
      forall i, j | 0 <= i < j < |r| ensures r[i].0 != r[j].0 {
        if j == |entries| {
          assert r[i].0 == entries[i].0;
        }
      }
    }
  }

  /**
   * Extending or overwriting values without moving keys (as Put does) keeps
   * the position of every key already present.
   */
  lemma IndexOfStable(entries: seq<(string, Value)>, r: seq<(string, Value)>, a: string)
    requires HasKey(entries, a)
    requires |entries| <= |r| && forall i :: 0 <= i < |entries| ==> r[i].0 == entries[i].0
    ensures IndexOf(r, a) == IndexOf(entries, a)
  {
    var p := IndexOf(entries, a).value;
    assert r[p].0 == a;
    var q := IndexOf(r, a).value;
    assert q <= p;
    assert entries[q].0 == r[q].0;
  }

  /** The character of decimal digit d. */
  function Digit(d: nat): (c: char)
    requires d < 10
    ensures '0' <= c <= '9'
  {
    ('0' as int + d) as char
  }

  /** The canonical decimal text of n: the key PHP gives list element n. */
  function DecimalString(n: nat): (s: string)
    ensures |s| >= 1
    ensures forall i :: 0 <= i < |s| ==> '0' <= s[i] <= '9'
    ensures n >= 10 <==> |s| >= 2
    decreases n
  {
    if n < 10 then [Digit(n)] else DecimalString(n / 10) + [Digit(n % 10)]
  }

  /** Different list positions get different keys. */
  lemma {:induction false} DecimalStringInjective(a: nat, b: nat)
    requires DecimalString(a) == DecimalString(b)
    ensures a == b
    decreases a
  {
    var s := DecimalString(a);
    if a >= 10 {
      assert b >= 10;
      assert s[..|s| - 1] == DecimalString(a / 10) == DecimalString(b / 10);
      DecimalStringInjective(a / 10, b / 10);
      assert Digit(a % 10) == s[|s| - 1] == Digit(b % 10);
    } else {
      assert b < 10;
      assert Digit(a) == s[0] == Digit(b);
    }
  }

  /** The entries of a fresh list: element i under the key `DecimalString(i)`. */
  function ListEntries(vs: seq<Value>): seq<(string, Value)>
  {
    seq(|vs|, i requires 0 <= i < |vs| => (DecimalString(i), vs[i]))
  }

  lemma ListEntriesDistinct(vs: seq<Value>)
    ensures DistinctKeys(ListEntries(vs))
  {
    var es := ListEntries(vs);
    forall i, j | 0 <= i < j < |es| ensures es[i].0 != es[j].0 {
      if es[i].0 == es[j].0 {
        DecimalStringInjective(i, j);
      }
    }
  }

  /**
   * A fresh PHP list `[v0, v1, ...]`, as `$out[] = $v` builds it: its keys
   * are exactly "0", "1", ..., each once, and key `DecimalString(i)` reads
   * back element i.
   */
  function ListOf(vs: seq<Value>): (r: Value)
    ensures r.Arr? && |r.entries| == |vs|
    ensures DistinctKeys(r.entries)
    ensures forall i :: 0 <= i < |vs| ==> Get(r.entries, DecimalString(i)) == Some(vs[i])
    ensures forall k :: HasKey(r.entries, k) <==> exists i :: 0 <= i < |vs| && k == DecimalString(i)
  {
    ListEntriesDistinct(vs);
    var es := ListEntries(vs);
    assert forall i :: 0 <= i < |vs| ==> es[i].0 == DecimalString(i) && es[i].1 == vs[i];
    Arr(es)
  }

  /** A list built from well-formed values is well formed. */
  lemma ListOfWellFormed(vs: seq<Value>)
    requires forall i :: 0 <= i < |vs| ==> WellFormed(vs[i])
    ensures WellFormed(ListOf(vs))
  {
    var r := ListOf(vs);
    forall e | e in r.entries
      ensures WellFormed(e.1)
    {
      var i :| 0 <= i < |r.entries| && r.entries[i] == e;
      assert e.1 == vs[i];
    }
  }
}
