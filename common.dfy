/**
 * Helpers shared by the client and the server parts of the quiz application:
 * an Option type, the string operations the JavaScript code relies on
 * (String.prototype.trim, toLowerCase, toUpperCase, startsWith, includes)
 * restricted to ASCII, and the sequence operations behind Array.prototype.filter,
 * primary-key uniqueness and SQL's ORDER BY ... DESC.
 */
module Common {

  datatype Option<T> = None | Some(value: T)

  // ---------------------------------------------------------------------------
  // Whitespace and trim
  // ---------------------------------------------------------------------------

  /** The whitespace set the model gives to `trim`: ASCII space, tab, line feed,
      vertical tab, form feed and carriage return. */
  predicate IsSpace(c: char) {
    c == ' ' || c == '\t' || c == '\n' || c == '\r' || c == 11 as char || c == 12 as char
  }

  predicate AllSpace(s: string) {
    forall i :: 0 <= i < |s| ==> IsSpace(s[i])
  }

  /** Drops the leading whitespace. */
  function TrimStart(s: string): string {
    if |s| > 0 && IsSpace(s[0]) then TrimStart(s[1..]) else s
  }

  /** Drops the trailing whitespace. */
  function TrimEnd(s: string): string {
    if |s| > 0 && IsSpace(s[|s| - 1]) then TrimEnd(s[..|s| - 1]) else s
  }

  /** JavaScript's `s.trim()`. */
  function Trim(s: string): string {
    TrimEnd(TrimStart(s))
  }

  /** `!s.trim()`: the string is empty once trimmed. */
  predicate IsBlank(s: string) {
    Trim(s) == ""
  }

  lemma {:induction false} TrimStartAllSpace(s: string)
    ensures AllSpace(TrimStart(s)) <==> AllSpace(s)
  {
    if |s| > 0 && IsSpace(s[0]) {
      TrimStartAllSpace(s[1..]);
      assert AllSpace(s) <==> AllSpace(s[1..]) by {
        assert forall i :: 0 < i < |s| ==> s[i] == s[1..][i - 1];
      }
    }
  }

  lemma {:induction false} TrimEndEmpty(s: string)
    ensures TrimEnd(s) == [] <==> AllSpace(s)
  {
    if |s| > 0 && IsSpace(s[|s| - 1]) {
      TrimEndEmpty(s[..|s| - 1]);
      assert AllSpace(s) <==> AllSpace(s[..|s| - 1]) by {
        assert forall i :: 0 <= i < |s| - 1 ==> s[i] == s[..|s| - 1][i];
      }
    } else if |s| > 0 {
      assert !IsSpace(s[|s| - 1]);
    }
  }

  /** A string is blank exactly when every character in it is whitespace. */
  lemma BlankIffAllSpace(s: string)
    ensures IsBlank(s) <==> AllSpace(s)
  {
    TrimStartAllSpace(s);
    TrimEndEmpty(TrimStart(s));
  }

  // ---------------------------------------------------------------------------
  // ASCII case mapping
  // ---------------------------------------------------------------------------

  function LowerChar(c: char): char {
    if 'A' <= c <= 'Z' then (c as int + 32) as char else c
  }

  function UpperChar(c: char): char {
    if 'a' <= c <= 'z' then (c as int - 32) as char else c
  }

  /** `s.toLowerCase()` on ASCII letters. */
  function Lower(s: string): (r: string)
    ensures |r| == |s|
    ensures forall i :: 0 <= i < |s| ==> r[i] == LowerChar(s[i])
  {
    seq(|s|, i requires 0 <= i < |s| => LowerChar(s[i]))
  }

  /** `s.toUpperCase()` on ASCII letters. */
  function Upper(s: string): (r: string)
    ensures |r| == |s|
    ensures forall i :: 0 <= i < |s| ==> r[i] == UpperChar(s[i])
  {
    seq(|s|, i requires 0 <= i < |s| => UpperChar(s[i]))
  }

  /** Lower-casing forgets any earlier upper-casing. */
  lemma LowerOfUpper(s: string)
    ensures Lower(Upper(s)) == Lower(s)
  {
    forall i | 0 <= i < |s| ensures Lower(Upper(s))[i] == Lower(s)[i] {
      var c := s[i];
      assert Upper(s)[i] == UpperChar(c);
      if 'a' <= c <= 'z' {
        assert LowerChar(UpperChar(c)) == c == LowerChar(c);
      }
    }
  }

  // ---------------------------------------------------------------------------
  // Prefix and substring
  // ---------------------------------------------------------------------------

  /** `s.startsWith(prefix)`. */
  predicate StartsWith(s: string, prefix: string) {
    |prefix| <= |s| && s[..|prefix|] == prefix
  }

  /** `t` occurs in `s` starting at position `i`. */
  predicate OccursAt(s: string, t: string, i: int) {
    0 <= i <= |s| - |t| && s[i..i + |t|] == t
  }

  /** `s.includes(t)`, by scanning the start positions of `s` one by one. */
  function Contains(s: string, t: string): (r: bool)
    ensures r <==> exists i :: OccursAt(s, t, i)
  {
    if StartsWith(s, t) then
      assert OccursAt(s, t, 0);
      true
    else if |s| == 0 then
      assert forall i :: !OccursAt(s, t, i);
      false
    else
      var r := Contains(s[1..], t);
      if r then
        var i :| OccursAt(s[1..], t, i);
        assert s[1..][i..i + |t|] == s[i + 1..i + 1 + |t|];
        assert OccursAt(s, t, i + 1);
        true
      else
        assert |t| <= |s| ==> s[..|t|] == s[0..|t|];
        assert forall i :: 0 < i && OccursAt(s, t, i) ==> OccursAt(s[1..], t, i - 1) by {
          forall i | 0 < i && OccursAt(s, t, i) ensures OccursAt(s[1..], t, i - 1) {
            assert s[1..][i - 1..i - 1 + |t|] == s[i..i + |t|];
          }
        }
        false
  }

  /** Every string includes the empty string. */
  lemma ContainsEmpty(s: string)
    ensures Contains(s, "")
  {
    assert OccursAt(s, "", 0);
  }

  // ---------------------------------------------------------------------------
  // Array.prototype.filter
  // ---------------------------------------------------------------------------

  /** The elements of `s` that satisfy `p`, in their original order. */
  function Filter<T>(s: seq<T>, p: T -> bool): (r: seq<T>)
    ensures |r| <= |s|
    ensures forall i :: 0 <= i < |r| ==> r[i] in s && p(r[i])
    ensures forall i :: 0 <= i < |s| && p(s[i]) ==> s[i] in r
  {
    if s == [] then []
    else
      assert s == [s[0]] + s[1..];
      (if p(s[0]) then [s[0]] else []) + Filter(s[1..], p)
  }

  /** Filtering distributes over concatenation: the order of the input is kept. */
  lemma {:induction false} FilterAppend<T>(a: seq<T>, b: seq<T>, p: T -> bool)
    ensures Filter(a + b, p) == Filter(a, p) + Filter(b, p)
  {
    if a == [] {
      assert a + b == b;
    } else {
      assert (a + b)[0] == a[0];
      assert (a + b)[1..] == a[1..] + b;
      FilterAppend(a[1..], b, p);
    }
  }

  /** Each value occurs in the result as often as in the input when it passes, never otherwise. */
  lemma {:induction false} FilterCount<T>(s: seq<T>, p: T -> bool, x: T)
    ensures multiset(Filter(s, p))[x] == if p(x) then multiset(s)[x] else 0
  {
    if s != [] {
      assert s == [s[0]] + s[1..];
      FilterCount(s[1..], p, x);
    }
  }

  /** A sequence whose every element passes is returned whole. */
  lemma {:induction false} FilterAll<T>(s: seq<T>, p: T -> bool)
    requires forall i :: 0 <= i < |s| ==> p(s[i])
    ensures Filter(s, p) == s
  {
    if s != [] {
      FilterAll(s[1..], p);
    }
  }

  /** A sequence whose every element fails is filtered to nothing. */
  lemma {:induction false} FilterNone<T>(s: seq<T>, p: T -> bool)
    requires forall i :: 0 <= i < |s| ==> !p(s[i])
    ensures Filter(s, p) == []
  {
    if s != [] {
      FilterNone(s[1..], p);
    }
  }

  /** Filtering by a weaker test first changes nothing about a second, stronger filter. */
  lemma {:induction false} FilterFilter<T>(s: seq<T>, weaker: T -> bool, stronger: T -> bool)
    requires forall i :: 0 <= i < |s| && stronger(s[i]) ==> weaker(s[i])
    ensures Filter(Filter(s, weaker), stronger) == Filter(s, stronger)
  {
    if s != [] {
      FilterFilter(s[1..], weaker, stronger);
      var rest := Filter(s[1..], weaker);
      if weaker(s[0]) {
        var w := [s[0]] + rest;
        assert w[0] == s[0] && w[1..] == rest;
      } else {
        assert !stronger(s[0]);
        assert Filter(s, weaker) == rest;
        assert Filter(s, stronger) == Filter(s[1..], stronger);
      }
    }
  }

  // ---------------------------------------------------------------------------
  // Primary keys
  // ---------------------------------------------------------------------------

  /** No two rows share a key. */
  predicate UniqueKeys<T, K(==)>(s: seq<T>, key: T -> K) {
    forall i, j :: 0 <= i < j < |s| ==> key(s[i]) != key(s[j])
  }

  predicate HasKey<T, K(==)>(s: seq<T>, key: T -> K, k: K) {
    exists i :: 0 <= i < |s| && key(s[i]) == k
  }

  /** Appending a row whose key is new keeps the keys unique. */
  lemma UniqueAppend<T, K>(s: seq<T>, key: T -> K, x: T)
    requires UniqueKeys(s, key) && !HasKey(s, key, key(x))
    ensures UniqueKeys(s + [x], key)
  {
    var t := s + [x];
    forall i, j | 0 <= i < j < |t| ensures key(t[i]) != key(t[j]) {
      if j == |s| {
        assert t[i] == s[i];
      } else {
        assert t[i] == s[i] && t[j] == s[j];
      }
    }
  }

  /** Filtering keeps the keys unique. */
  lemma {:induction false} UniqueFilter<T, K>(s: seq<T>, key: T -> K, p: T -> bool)
    requires UniqueKeys(s, key)
    ensures UniqueKeys(Filter(s, p), key)
  {
    if s != [] {
      var rest := Filter(s[1..], p);
      UniqueFilter(s[1..], key, p);
      if p(s[0]) {
        var r := [s[0]] + rest;
        forall i, j | 0 <= i < j < |r| ensures key(r[i]) != key(r[j]) {
          if i == 0 {
            assert r[j] == rest[j - 1] && rest[j - 1] in s[1..];
            var k :| 0 <= k < |s[1..]| && s[1..][k] == r[j];
            assert s[k + 1] == r[j];
          } else {
            assert r[i] == rest[i - 1] && r[j] == rest[j - 1];
          }
        }
      }
    }
  }

  /** The test "this row's key is `k`" (a `WHERE key = ?` clause). */
  function KeyIs<T, K(==)>(key: T -> K, k: K): T -> bool {
    (x: T) => key(x) == k
  }

  /** Position `i` holds the first element of `s` that satisfies `p`. */
  predicate IsFirst<T>(s: seq<T>, p: T -> bool, i: int) {
    0 <= i < |s| && p(s[i]) && forall j :: 0 <= j < i ==> !p(s[j])
  }

  /** The first element satisfying `p`, if any: `rows[0]` of a SELECT, or Array.prototype.find. */
  function Find<T(==)>(s: seq<T>, p: T -> bool): (r: Option<T>)
    ensures r.None? <==> forall i :: 0 <= i < |s| ==> !p(s[i])
    ensures r.Some? ==> r.value in s && p(r.value)
    ensures r.Some? ==> exists i :: IsFirst(s, p, i) && s[i] == r.value
  {
    if s == [] then None
    else if p(s[0]) then
      assert IsFirst(s, p, 0);
      Some(s[0])
    else
      var r := Find(s[1..], p);
      if r.Some? then
        var i :| IsFirst(s[1..], p, i) && s[1..][i] == r.value;
        assert IsFirst(s, p, i + 1);
        r
      else
        r
  }

  /** In a uniquely keyed table, looking a key up finds the one row carrying it. */
  lemma FindByKey<T, K>(s: seq<T>, key: T -> K, k: K, i: int)
    requires UniqueKeys(s, key)
    requires 0 <= i < |s| && key(s[i]) == k
    ensures Find(s, KeyIs(key, k)) == Some(s[i])
  {
    var r := Find(s, KeyIs(key, k));
    assert KeyIs(key, k)(s[i]);
    var j :| IsFirst(s, KeyIs(key, k), j) && s[j] == r.value;
    assert KeyIs(key, k)(s[j]);
    UniqueKeyIndex(s, key, i, j);
  }

  /** Two rows of a uniquely keyed table with the same key are the same row. */
  lemma UniqueKeyIndex<T, K>(s: seq<T>, key: T -> K, i: int, j: int)
    requires UniqueKeys(s, key)
    requires 0 <= i < |s| && 0 <= j < |s| && key(s[i]) == key(s[j])
    ensures i == j
  {
  }

  // ---------------------------------------------------------------------------
  // ORDER BY key DESC
  // ---------------------------------------------------------------------------

  predicate SortedDesc<T>(s: seq<T>, key: T -> int) {
    forall i, j :: 0 <= i < j < |s| ==> key(s[i]) >= key(s[j])
  }

  /** Places `x` before the first element whose key is not larger than its own. */
  function InsertDesc<T>(x: T, s: seq<T>, key: T -> int): (r: seq<T>)
    requires SortedDesc(s, key)
    ensures SortedDesc(r, key)
    ensures multiset(r) == multiset(s) + multiset{x}
    ensures forall i :: 0 <= i < |r| ==> r[i] == x || r[i] in s
  {
    if s == [] || key(x) >= key(s[0]) then
      var r := [x] + s;
      assert forall j :: 0 < j < |r| ==> r[j] == s[j - 1];
      r
    else
      var t := InsertDesc(x, s[1..], key);
      assert s == [s[0]] + s[1..];
      InsertDescHead(x, s, t, key);
      [s[0]] + t
  }

  /** Putting the head of a sorted `s` before a sorted `t` made of `x` and the rest of `s`
      keeps the order when `x` comes after the head. */
  lemma InsertDescHead<T>(x: T, s: seq<T>, t: seq<T>, key: T -> int)
    requires s != [] && SortedDesc(s, key) && SortedDesc(t, key) && key(x) < key(s[0])
    requires forall i :: 0 <= i < |t| ==> t[i] == x || t[i] in s[1..]
    ensures SortedDesc([s[0]] + t, key)
  {
    forall k | 0 <= k < |t| ensures key(s[0]) >= key(t[k]) {
      if t[k] != x {
        var m :| 0 <= m < |s[1..]| && s[1..][m] == t[k];
        assert s[m + 1] == t[k];
      }
    }
    var r := [s[0]] + t;
    forall i, j | 0 <= i < j < |r| ensures key(r[i]) >= key(r[j]) {
      assert r[j] == t[j - 1];
      if i > 0 {
        assert r[i] == t[i - 1];
      }
    }
  }

  /** Insertion sort: newest (largest key) first; rows with equal keys keep their order. */
  function SortDesc<T>(s: seq<T>, key: T -> int): (r: seq<T>)
    ensures SortedDesc(r, key)
    ensures multiset(r) == multiset(s)
  {
    if s == [] then []
    else
      assert s == [s[0]] + s[1..];
      InsertDesc(s[0], SortDesc(s[1..], key), key)
  }

  /** Sorting a filtered sequence keeps exactly the elements that pass the filter. */
  lemma SortedFilterMembers<T>(s: seq<T>, p: T -> bool, key: T -> int, x: T)
    ensures x in SortDesc(Filter(s, p), key) <==> x in s && p(x)
  {
    var filtered := Filter(s, p);
    var rows := SortDesc(filtered, key);
    assert x in rows <==> x in multiset(rows);
    assert x in filtered <==> x in multiset(filtered);
    if x in s && p(x) {
      var k :| 0 <= k < |s| && s[k] == x;
    }
    if x in filtered {
      var k :| 0 <= k < |filtered| && filtered[k] == x;
    }
  }
}
