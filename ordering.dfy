/** `ORDER BY ... DESC` over TEXT columns. SQLite's default BINARY
    collation compares two strings character by character, and a string
    sorts before every longer string it is a prefix of. */
module Ordering {
  import opened Query

  /** `a` sorts no later than `b` under the BINARY collation: a prefix
      sorts first, otherwise the first differing character decides. */
  predicate TextLe(a: string, b: string): (r: bool)
    ensures |a| <= |b| && a == b[..|a|] ==> r
    ensures r && |a| > 0 ==> |b| > 0 && a[0] <= b[0]
    decreases |a|
  {
    if |a| == 0 then true
    else if |b| == 0 then false
    else if a[0] < b[0] then true
    else if a[0] != b[0] then false
    else
      assert |a| <= |b| && a == b[..|a|] ==> a[1..] == b[1..][..|a| - 1];
      TextLe(a[1..], b[1..])
  }

  /** Two strings that each sort no later than the other are equal. */
  lemma {:induction false} TextLeAntisymmetric(a: string, b: string)
    requires TextLe(a, b) && TextLe(b, a)
    ensures a == b
    decreases |a|
  {
    if |a| > 0 {
      TextLeAntisymmetric(a[1..], b[1..]);
      assert a == [a[0]] + a[1..] && b == [b[0]] + b[1..];
    }
  }

  lemma {:induction false} TextLeTotal(a: string, b: string)
    ensures TextLe(a, b) || TextLe(b, a)
    decreases |a|
  {
    if |a| > 0 && |b| > 0 && a[0] == b[0] {
      TextLeTotal(a[1..], b[1..]);
    }
  }

  lemma {:induction false} TextLeTransitive(a: string, b: string, c: string)
    requires TextLe(a, b) && TextLe(b, c)
    ensures TextLe(a, c)
    decreases |a|
  {
    if |a| > 0 && a[0] == b[0] && b[0] == c[0] {
      TextLeTransitive(a[1..], b[1..], c[1..]);
    }
  }

  /** Each row's key is no greater than the key of the row before it. */
  ghost predicate SortedDesc<T>(s: seq<T>, key: T -> string) {
    forall i :: 0 < i < |s| ==> TextLe(key(s[i]), key(s[i - 1]))
  }

  /** Inserts `x` into the descending sequence `s` after every row whose
      key is greater. */
  function InsertDesc<T(!new)>(x: T, s: seq<T>, key: T -> string): (r: seq<T>)
    requires SortedDesc(s, key)
    ensures SortedDesc(r, key)
    ensures multiset(r) == multiset(s) + multiset{x}
    ensures forall y :: y in r <==> y == x || y in s
    ensures |r| == |s| + 1 && (r[0] == x || (|s| > 0 && r[0] == s[0]))
  {
    if s == [] || TextLe(key(s[0]), key(x)) then
      [x] + s
    else
      TextLeTotal(key(s[0]), key(x));
      assert SortedDesc(s[1..], key);
      var rest := InsertDesc(x, s[1..], key);
      assert s == [s[0]] + s[1..];
      [s[0]] + rest
  }

  /** The rows of `s` in descending order of `key`; rows with equal keys
      come in some order, as SQL leaves it unspecified. */
  function SortDesc<T(!new)>(s: seq<T>, key: T -> string): (r: seq<T>)
    ensures SortedDesc(r, key)
    ensures multiset(r) == multiset(s)
    ensures forall x :: x in r <==> x in s
  {
    if s == [] then []
    else
      assert s == [s[0]] + s[1..];
      InsertDesc(s[0], SortDesc(s[1..], key), key)
  }

  /** Sorting keeps a key constraint: rows with distinct keys stay
      distinct. */
  lemma {:induction false} DistinctInsert<T(!new), K>(x: T, s: seq<T>, skey: T -> string, key: T -> K)
    requires SortedDesc(s, skey) && Distinct(s, key)
    requires forall y :: y in s ==> key(y) != key(x)
    ensures Distinct(InsertDesc(x, s, skey), key)
    decreases |s|
  {
    if s == [] || TextLe(skey(s[0]), skey(x)) {
      DistinctConcat([x], s, key);
    } else {
      var tl := s[1..];
      assert SortedDesc(tl, skey);
      assert Distinct(tl, key) by {
        forall i, j | 0 <= i < j < |tl| ensures key(tl[i]) != key(tl[j]) {
          assert tl[i] == s[i + 1] && tl[j] == s[j + 1];
        }
      }
      DistinctInsert(x, tl, skey, key);
      var rest := InsertDesc(x, tl, skey);
      forall y | y in rest ensures key(s[0]) != key(y) {
        if y != x {
          var k :| 0 <= k < |tl| && tl[k] == y;
          assert s[k + 1] == y;
        }
      }
      DistinctConcat([s[0]], rest, key);
    }
  }

  lemma {:induction false} DistinctSort<T(!new), K>(s: seq<T>, skey: T -> string, key: T -> K)
    requires Distinct(s, key)
    ensures Distinct(SortDesc(s, skey), key)
  {
    if s != [] {
      var tl := s[1..];
      assert Distinct(tl, key) by {
        forall i, j | 0 <= i < j < |tl| ensures key(tl[i]) != key(tl[j]) {
          assert tl[i] == s[i + 1] && tl[j] == s[j + 1];
        }
      }
      DistinctSort(tl, skey, key);
      forall y | y in SortDesc(tl, skey) ensures key(y) != key(s[0]) {
        var k :| 0 <= k < |tl| && tl[k] == y;
        assert s[k + 1] == y;
      }
      DistinctInsert(s[0], SortDesc(tl, skey), skey, key);
    }
  }

  /** In a descending sequence every row's key is no greater than the key
      of any row before it, not only the one just before. */
  lemma {:induction false} SortedDescAll<T>(s: seq<T>, key: T -> string, i: int, j: int)
    requires SortedDesc(s, key) && 0 <= i <= j < |s|
    ensures TextLe(key(s[j]), key(s[i]))
    decreases j - i
  {
    if i == j {
      TextLeReflexive(key(s[i]));
    } else {
      SortedDescAll(s, key, i, j - 1);
      TextLeTransitive(key(s[j]), key(s[j - 1]), key(s[i]));
    }
  }

  /** The first row of a descending sequence carries its greatest key:
      every row sorts no later, and one that sorts no earlier has that key. */
  lemma FirstIsGreatest<T>(s: seq<T>, key: T -> string, x: T)
    requires SortedDesc(s, key) && x in s
    ensures TextLe(key(x), key(s[0]))
    ensures TextLe(key(s[0]), key(x)) ==> key(x) == key(s[0])
  {
    var k :| 0 <= k < |s| && s[k] == x;
    SortedDescAll(s, key, 0, k);
    if TextLe(key(s[0]), key(x)) {
      TextLeAntisymmetric(key(x), key(s[0]));
    }
  }

  lemma {:induction false} TextLeReflexive(a: string)
    ensures TextLe(a, a)
    decreases |a|
  {
    if |a| > 0 {
      TextLeReflexive(a[1..]);
    }
  }
}
