/** Relational building blocks over tables held as sequences of rows:
    selection (a WHERE clause), selection through a join that matches at
    most once, a row-wise UPDATE, and the key constraints of a table. */
module Query {
  import opened Wrappers

  /** The rows of `s` that satisfy `keep`, in table order. */
  function Where<T(!new)>(s: seq<T>, keep: T -> bool): (r: seq<T>)
    ensures |r| <= |s|
    ensures forall x :: x in r <==> x in s && keep(x)
  {
    if s == [] then []
    else
      var init, last := s[..|s| - 1], s[|s| - 1];
      assert s == init + [last];
      Where(init, keep) + (if keep(last) then [last] else [])
  }

  /** One output row for every row of `s` that `f` maps to a value; `f`
      stands for the join and the projection of a SELECT. */
  function Select<T(!new), U(!new)>(s: seq<T>, f: T -> Option<U>): (r: seq<U>)
    ensures |r| <= |s|
    ensures forall x :: x in s && f(x).Some? ==> f(x).value in r
    ensures forall y :: y in r ==> exists x :: x in s && f(x) == Some(y)
  {
    if s == [] then []
    else
      var init, last := s[..|s| - 1], s[|s| - 1];
      assert s == init + [last];
      Select(init, f) + (if f(last).Some? then [f(last).value] else [])
  }

  /** `UPDATE ... SET change WHERE hit`: every row that `hit` selects is
      replaced by `change` of it and every other row stays as it was. */
  function Update<T>(s: seq<T>, hit: T -> bool, change: T -> T): (r: seq<T>)
    ensures |r| == |s|
    ensures forall i :: 0 <= i < |s| ==> r[i] == if hit(s[i]) then change(s[i]) else s[i]
  {
    if s == [] then []
    else
      var init, last := s[..|s| - 1], s[|s| - 1];
      Update(init, hit, change) + [if hit(last) then change(last) else last]
  }

  /** No two rows of `s` share a `key` (a PRIMARY KEY or UNIQUE column). */
  ghost predicate Distinct<T, K>(s: seq<T>, key: T -> K) {
    forall i, j :: 0 <= i < j < |s| ==> key(s[i]) != key(s[j])
  }

  /** Every row's integer key lies strictly between 0 and `bound`, the next
      value an AUTOINCREMENT column hands out. */
  ghost predicate Below<T>(s: seq<T>, key: T -> int, bound: int) {
    forall x :: x in s ==> 0 < key(x) < bound
  }

  lemma {:induction false} WhereAppend<T(!new)>(a: seq<T>, b: seq<T>, keep: T -> bool)
    ensures Where(a + b, keep) == Where(a, keep) + Where(b, keep)
  {
    if b == [] {
      assert a + b == a;
    } else {
      var init, last := b[..|b| - 1], b[|b| - 1];
      var tail := if keep(last) then [last] else [];
      assert (a + b)[..|a + b| - 1] == a + init;
      assert (a + b)[|a + b| - 1] == last;
      assert Where(a + b, keep) == Where(a + init, keep) + tail;
      WhereAppend(a, init, keep);
      assert Where(b, keep) == Where(init, keep) + tail;
    }
  }

  lemma WhereAll<T(!new)>(s: seq<T>, keep: T -> bool)
    requires forall x :: x in s ==> keep(x)
    ensures Where(s, keep) == s
  {
    if s != [] {
      assert s[..|s| - 1] + [s[|s| - 1]] == s;
      WhereAll(s[..|s| - 1], keep);
    }
  }

  lemma WhereNone<T(!new)>(s: seq<T>, keep: T -> bool)
    requires forall x :: x in s ==> !keep(x)
    ensures Where(s, keep) == []
  {
  }

  /** Selecting with `q` after `p` is selecting with `q` alone when `q`
      implies `p`. */
  lemma {:induction false} WhereNarrow<T(!new)>(s: seq<T>, p: T -> bool, q: T -> bool)
    requires forall x :: q(x) ==> p(x)
    ensures Where(Where(s, p), q) == Where(s, q)
  {
    if s != [] {
      var init, last := s[..|s| - 1], s[|s| - 1];
      var tail := if p(last) then [last] else [];
      WhereNarrow(init, p, q);
      WhereAppend(Where(init, p), tail, q);
      if p(last) {
        assert Where(tail, q) == Where([] + [last], q);
      }
    }
  }

  lemma DistinctConcat<T, K>(a: seq<T>, b: seq<T>, key: T -> K)
    requires Distinct(a, key) && Distinct(b, key)
    requires forall x, y :: x in a && y in b ==> key(x) != key(y)
    ensures Distinct(a + b, key)
  {
    var c := a + b;
    forall i, j | 0 <= i < j < |c| ensures key(c[i]) != key(c[j]) {
      if j < |a| {
        assert c[i] == a[i] && c[j] == a[j];
      } else if i >= |a| {
        assert c[i] == b[i - |a|] && c[j] == b[j - |a|];
      } else {
        assert c[i] in a && c[j] in b;
      }
    }
  }

  lemma {:induction false} DistinctWhere<T(!new), K>(s: seq<T>, keep: T -> bool, key: T -> K)
    requires Distinct(s, key)
    ensures Distinct(Where(s, keep), key)
  {
    if s != [] {
      var init, last := s[..|s| - 1], s[|s| - 1];
      assert Distinct(init, key);
      DistinctWhere(init, keep, key);
      forall x | x in Where(init, keep) ensures key(x) != key(last) {
        var k :| 0 <= k < |init| && init[k] == x;
        assert s[k] == x;
      }
      DistinctConcat(Where(init, keep), if keep(last) then [last] else [], key);
    }
  }

  /** A join that keeps the key of each row it maps keeps the rows' keys
      distinct: one output row per input row. */
  lemma {:induction false} DistinctSelect<T(!new), U(!new), K>(s: seq<T>, f: T -> Option<U>, key: T -> K, rkey: U -> K)
    requires Distinct(s, key)
    requires forall x :: f(x).Some? ==> rkey(f(x).value) == key(x)
    ensures Distinct(Select(s, f), rkey)
  {
    if s != [] {
      var init, last := s[..|s| - 1], s[|s| - 1];
      assert s == init + [last];
      assert Distinct(init, key) by {
        forall i, j | 0 <= i < j < |init| ensures key(init[i]) != key(init[j]) {
          assert init[i] == s[i] && init[j] == s[j];
        }
      }
      DistinctSelect(init, f, key, rkey);
      var rest := Select(init, f);
      var tail := if f(last).Some? then [f(last).value] else [];
      forall y, z | y in rest && z in tail ensures rkey(y) != rkey(z) {
        var x :| x in init && f(x) == Some(y);
        var k :| 0 <= k < |init| && init[k] == x;
        assert key(s[k]) != key(s[|s| - 1]);
      }
      DistinctConcat(rest, tail, rkey);
    }
  }

  lemma SelectAppend<T(!new), U(!new)>(s: seq<T>, x: T, f: T -> Option<U>)
    ensures Select(s + [x], f) == Select(s, f) + (if f(x).Some? then [f(x).value] else [])
  {
    assert (s + [x])[..|s + [x]| - 1] == s;
  }

  /** The rows that `f` maps to `y`. */
  function MapsTo<T, U(==)>(f: T -> Option<U>, y: U): T -> bool {
    (x: T) => f(x) == Some(y)
  }

  /** A value occurs in a join's output once for every input row that
      maps to it. */
  lemma {:induction false} SelectCount<T(!new), U(!new)>(s: seq<T>, f: T -> Option<U>, y: U)
    ensures multiset(Select(s, f))[y] == |Where(s, MapsTo(f, y))|
  {
    if s != [] {
      var init, last := s[..|s| - 1], s[|s| - 1];
      assert s == init + [last];
      SelectCount(init, f, y);
    }
  }

  /** Two selections that agree on every row select the same rows. */
  lemma {:induction false} WhereSame<T(!new)>(s: seq<T>, p: T -> bool, q: T -> bool)
    requires forall x :: x in s ==> p(x) == q(x)
    ensures Where(s, p) == Where(s, q)
  {
    if s != [] {
      var init, last := s[..|s| - 1], s[|s| - 1];
      assert s == init + [last];
      WhereSame(init, p, q);
    }
  }

  /** Appending a row whose key is the bound keeps the key constraints,
      with the bound moved one further. */
  lemma KeyedAppend<T>(s: seq<T>, x: T, key: T -> int, bound: int)
    requires Distinct(s, key) && Below(s, key, bound) && key(x) == bound && bound > 0
    ensures Distinct(s + [x], key) && Below(s + [x], key, bound + 1)
  {
    DistinctConcat(s, [x], key);
  }

  /** A change of rows that keeps every row's key keeps the key constraints. */
  lemma SameKeys<T, K>(s: seq<T>, r: seq<T>, key: T -> K)
    requires |r| == |s|
    requires forall i :: 0 <= i < |s| ==> key(r[i]) == key(s[i])
    ensures Distinct(s, key) ==> Distinct(r, key)
    ensures forall x :: x in r ==> exists y :: y in s && key(y) == key(x)
  {
    forall x | x in r ensures exists y :: y in s && key(y) == key(x) {
      var k :| 0 <= k < |r| && r[k] == x;
      assert s[k] in s;
    }
  }
}
