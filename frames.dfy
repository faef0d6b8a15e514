/** The DataFrame operations the three scripts rely on, stated over rows held
    in sequences: nullable cells, Python's str.strip, row filtering, pandas'
    merge(how="left") and sort_values with missing values placed last. */
module Frames {

  /** A table cell that may hold pandas' missing value (NaN). */
  datatype Option<+T> = None | Some(value: T)

  /** A value, or the exception a pandas call raises instead. */
  datatype Result<+T, +E> = Ok(value: T) | Err(error: E)

  // ---------------------------------------------------------------------------
  // str.strip

  /** Python's str.isspace for one character. */
  predicate IsSpace(c: char)
  {
    var n := c as int;
    || 9 <= n <= 13 || 28 <= n <= 32 || n == 133 || n == 160 || n == 5760
    || 8192 <= n <= 8202 || n == 8232 || n == 8233 || n == 8239 || n == 8287 || n == 12288
  }

  /** True when s neither starts nor ends with whitespace. */
  predicate Trimmed(s: string)
  {
    s == [] || (!IsSpace(s[0]) && !IsSpace(s[|s| - 1]))
  }

  /** The first index at or after i that is not whitespace (|s| if none):
      lstrip's cut. */
  function SkipSpaces(s: string, i: nat): (j: nat)
    requires i <= |s|
    ensures i <= j <= |s|
    ensures forall k :: i <= k < j ==> IsSpace(s[k])
    ensures j == |s| || !IsSpace(s[j])
    decreases |s| - i
  {
    if i < |s| && IsSpace(s[i]) then SkipSpaces(s, i + 1) else i
  }

  /** The end, no lower than lo, of s[..j] with trailing whitespace removed:
      rstrip's cut. */
  function BackSpaces(s: string, lo: nat, j: nat): (e: nat)
    requires lo <= j <= |s|
    ensures lo <= e <= j
    ensures forall k :: e <= k < j ==> IsSpace(s[k])
    ensures e == lo || !IsSpace(s[e - 1])
    decreases j
  {
    if lo < j && IsSpace(s[j - 1]) then BackSpaces(s, lo, j - 1) else j
  }

  /** Python's str.strip(): the longest middle slice of s with no whitespace at
      either end; everything cut off is whitespace. */
  function Strip(s: string): (r: string)
    ensures Trimmed(r)
    ensures var i := SkipSpaces(s, 0);
            && i + |r| <= |s| && r == s[i..i + |r|]
            && (forall k :: 0 <= k < i ==> IsSpace(s[k]))
            && (forall k :: i + |r| <= k < |s| ==> IsSpace(s[k]))
  {
    var i := SkipSpaces(s, 0);
    var e := BackSpaces(s, i, |s|);
    assert i < e ==> !IsSpace(s[i]);
    s[i..e]
  }

  /** Stripping leaves a string without outer whitespace unchanged. */
  lemma StripKeepsTrimmed(s: string)
    requires Trimmed(s)
    ensures Strip(s) == s
  {
  }

  /** Stripping twice is stripping once. */
  lemma StripIdempotent(s: string)
    ensures Strip(Strip(s)) == Strip(s)
  {
    StripKeepsTrimmed(Strip(s));
  }

  /** Series.str.strip() over a column or a header: element-wise strip. */
  function StripAll(names: seq<string>): (r: seq<string>)
    ensures |r| == |names|
    ensures forall i :: 0 <= i < |r| ==> r[i] == Strip(names[i])
  {
    seq(|names|, i requires 0 <= i < |names| => Strip(names[i]))
  }

  // ---------------------------------------------------------------------------
  // Boolean-mask selection: df[mask]

  /** The rows of s satisfying p, in their order in s. */
  function Keep<T>(s: seq<T>, p: T -> bool): (r: seq<T>)
    ensures |r| <= |s|
    ensures forall x :: x in r ==> x in s && p(x)
    ensures forall x :: x in s && p(x) ==> x in r
  {
    if s == [] then []
    else
      var rest := Keep(s[..|s| - 1], p);
      assert s == s[..|s| - 1] + [s[|s| - 1]];
      if p(s[|s| - 1]) then rest + [s[|s| - 1]] else rest
  }

  /** Selection keeps every selected row as often as it occurs, and no other. */
  lemma {:induction false} KeepCount<T>(s: seq<T>, p: T -> bool, x: T)
    ensures multiset(Keep(s, p))[x] == if p(x) then multiset(s)[x] else 0
    decreases |s|
  {
    if s != [] {
      var s' := s[..|s| - 1];
      assert s == s' + [s[|s| - 1]];
      KeepCount(s', p, x);
    }
  }

  /** Selection keeps row order: selecting from a concatenation is the
      concatenation of the selections. */
  lemma {:induction false} KeepConcat<T>(a: seq<T>, b: seq<T>, p: T -> bool)
    ensures Keep(a + b, p) == Keep(a, p) + Keep(b, p)
    decreases |b|
  {
    if b == [] {
      assert a + b == a;
    } else {
      var ab := a + b;
      var b' := b[..|b| - 1];
      assert ab[..|ab| - 1] == a + b';
      assert ab[|ab| - 1] == b[|b| - 1];
      KeepConcat(a, b', p);
      assert Keep(ab, p) == Keep(a + b', p) + (if p(b[|b| - 1]) then [b[|b| - 1]] else []);
      assert Keep(b, p) == Keep(b', p) + (if p(b[|b| - 1]) then [b[|b| - 1]] else []);
    }
  }

  /** Selecting from rows in key order leaves them in key order. */
  lemma {:induction false} KeepOrdered<T>(s: seq<T>, p: T -> bool, key: T -> SortKey)
    requires Ordered(s, key)
    ensures Ordered(Keep(s, p), key)
    decreases |s|
  {
    if s != [] {
      var s', last := s[..|s| - 1], s[|s| - 1];
      assert Ordered(s', key) by {
        forall i, j | 0 <= i < j < |s'| ensures KeyLe(key(s'[i]), key(s'[j])) {
          assert s'[i] == s[i] && s'[j] == s[j];
        }
      }
      KeepOrdered(s', p, key);
      var r := Keep(s', p);
      if p(last) {
        forall i | 0 <= i < |r| ensures KeyLe(key(r[i]), key(last)) {
          assert r[i] in s';
          var k :| 0 <= k < |s'| && s'[k] == r[i];
          assert s[k] == r[i];
        }
        var t := r + [last];
        forall i, j | 0 <= i < j < |t| ensures KeyLe(key(t[i]), key(t[j])) {
          if j < |r| {
            assert t[i] == r[i] && t[j] == r[j];
          }
        }
      }
    }
  }

  // ---------------------------------------------------------------------------
  // merge(how="left")

  /** The right rows whose key is k, in right order. */
  function Matching<R, K(==)>(right: seq<R>, rkey: R -> K, k: K): (m: seq<R>)
    ensures |m| <= |right|
    ensures forall r :: r in m ==> r in right && rkey(r) == k
    ensures forall r :: r in right && rkey(r) == k ==> r in m
  {
    if right == [] then []
    else (if rkey(right[0]) == k then [right[0]] else []) + Matching(right[1..], rkey, k)
  }

  /** The first right row whose key is k. */
  function Lookup<R, K(==)>(right: seq<R>, rkey: R -> K, k: K): (o: Option<R>)
    ensures o.None? <==> forall r :: r in right ==> rkey(r) != k
    ensures o.Some? ==> o.value in right && rkey(o.value) == k
    ensures o.Some? ==> exists i :: FirstWithKey(right, rkey, k, i) && right[i] == o.value
  {
    if right == [] then None
    else if rkey(right[0]) == k then
      assert FirstWithKey(right, rkey, k, 0);
      Some(right[0])
    else
      var o := Lookup(right[1..], rkey, k);
      assert o.Some? ==> exists i :: FirstWithKey(right, rkey, k, i) && right[i] == o.value by {
        if o.Some? {
          var i :| FirstWithKey(right[1..], rkey, k, i) && right[1..][i] == o.value;
          assert FirstWithKey(right, rkey, k, i + 1);
        }
      }
      o
  }

  /** right[i] is the first right row whose key is k. */
  predicate FirstWithKey<R, K(==)>(right: seq<R>, rkey: R -> K, k: K, i: int)
  {
    0 <= i < |right| && rkey(right[i]) == k && forall j :: 0 <= j < i ==> rkey(right[j]) != k
  }

  /** Under unique keys looking up the key of a right row finds that row. */
  lemma LookupUnique<R, K>(right: seq<R>, rkey: R -> K, r: R)
    requires UniqueKeys(right, rkey) && r in right
    ensures Lookup(right, rkey, rkey(r)) == Some(r)
  {
    var k := rkey(r);
    var o := Lookup(right, rkey, k);
    assert o.Some?;
    var i :| FirstWithKey(right, rkey, k, i) && right[i] == o.value;
    var j :| 0 <= j < |right| && right[j] == r;
    assert rkey(right[j]) == k && rkey(right[i]) == k;
    assert j >= i;
    assert i == j;
  }

  /** No two rows of s share a key. */
  predicate UniqueKeys<R, K(==)>(s: seq<R>, key: R -> K)
  {
    forall i, j :: 0 <= i < j < |s| ==> key(s[i]) != key(s[j])
  }

  /** A value at two positions occurs at least twice. */
  lemma {:induction false} TwiceCounted<T>(r: seq<T>, i: nat, j: nat)
    requires i < j < |r| && r[i] == r[j]
    ensures multiset(r)[r[i]] >= 2
  {
    assert r == r[..j] + [r[j]] + r[j + 1..];
    assert r[..j][i] == r[i];
    assert multiset(r) == multiset(r[..j]) + multiset{r[j]} + multiset(r[j + 1..]);
  }

  /** A value occurring at least twice sits at two positions. */
  lemma {:induction false} TwoPositions<T>(s: seq<T>, x: T)
    requires multiset(s)[x] >= 2
    ensures exists a, b :: 0 <= a < b < |s| && s[a] == x && s[b] == x
  {
    assert x in multiset(s);
    var a :| 0 <= a < |s| && s[a] == x;
    assert s == s[..a] + [s[a]] + s[a + 1..];
    assert multiset(s) == multiset(s[..a]) + multiset{x} + multiset(s[a + 1..]);
    if x in s[..a] {
      var b :| 0 <= b < a && s[..a][b] == x;
      assert s[b] == x;
    } else {
      assert x in multiset(s[a + 1..]);
      var b :| 0 <= b < |s[a + 1..]| && s[a + 1..][b] == x;
      assert s[a + 1 + b] == x;
    }
  }

  /** Reordering rows keeps keys unique. */
  lemma {:induction false} UniqueKeysPermutation<R, K>(s: seq<R>, r: seq<R>, key: R -> K)
    requires multiset(s) == multiset(r) && UniqueKeys(s, key)
    ensures UniqueKeys(r, key)
  {
    forall i, j | 0 <= i < j < |r| ensures key(r[i]) != key(r[j]) {
      if r[i] == r[j] {
        TwiceCounted(r, i, j);
        TwoPositions(s, r[i]);
      } else {
        assert r[i] in multiset(s) && r[j] in multiset(s);
        var a :| 0 <= a < |s| && s[a] == r[i];
        var b :| 0 <= b < |s| && s[b] == r[j];
        assert a != b;
      }
    }
  }

  /** What one left row contributes to a left merge: a row per matching right
      row, in right order, or a single row whose right side is null. */
  function JoinOne<L, R, K(==), O>(l: L, right: seq<R>, lkey: L -> K, rkey: R -> K,
                                   hit: (L, R) -> O, miss: L -> O): seq<O>
  {
    var m := Matching(right, rkey, lkey(l));
    if m == [] then [miss(l)] else seq(|m|, i requires 0 <= i < |m| => hit(l, m[i]))
  }

  /** pandas' left.merge(right, how="left", on=key): each left row in left
      order, expanded by JoinOne. */
  function LeftJoin<L, R, K(==), O>(left: seq<L>, right: seq<R>, lkey: L -> K, rkey: R -> K,
                                    hit: (L, R) -> O, miss: L -> O): (r: seq<O>)
    ensures |r| >= |left|
  {
    if left == [] then []
    else JoinOne(left[0], right, lkey, rkey, hit, miss) + LeftJoin(left[1..], right, lkey, rkey, hit, miss)
  }

  /** The rows one left row contributes: the null row exactly when nothing on
      the right matches, otherwise the combination with each matching row. */
  lemma JoinOneRows<L, R, K, O>(l: L, right: seq<R>, lkey: L -> K, rkey: R -> K,
                                    hit: (L, R) -> O, miss: L -> O, o: O)
    ensures o in JoinOne(l, right, lkey, rkey, hit, miss) <==>
            ((forall r :: r in right ==> rkey(r) != lkey(l)) && o == miss(l))
            || (exists r :: r in right && rkey(r) == lkey(l) && o == hit(l, r))
  {
    var m := Matching(right, rkey, lkey(l));
    if m != [] {
      var rows := JoinOne(l, right, lkey, rkey, hit, miss);
      assert m[0] in right && rkey(m[0]) == lkey(l);
      if o in rows {
        var i :| 0 <= i < |rows| && rows[i] == o;
        assert m[i] in m;
        assert m[i] in right && rkey(m[i]) == lkey(l) && o == hit(l, m[i]);
      }
      if exists r :: r in right && rkey(r) == lkey(l) && o == hit(l, r) {
        var r :| r in right && rkey(r) == lkey(l) && o == hit(l, r);
        assert r in m;
        var i :| 0 <= i < |m| && m[i] == r;
        assert rows[i] == o;
      }
    }
  }

  /** Every row of a left merge comes from some left row, as JoinOne says. */
  lemma {:induction false} LeftJoinRows<L, R, K, O>(left: seq<L>, right: seq<R>, lkey: L -> K, rkey: R -> K,
                                                       hit: (L, R) -> O, miss: L -> O, o: O)
    ensures o in LeftJoin(left, right, lkey, rkey, hit, miss) <==>
            exists i :: 0 <= i < |left| && o in JoinOne(left[i], right, lkey, rkey, hit, miss)
  {
    if left != [] {
      LeftJoinRows(left[1..], right, lkey, rkey, hit, miss, o);
      if exists i :: 0 <= i < |left| && o in JoinOne(left[i], right, lkey, rkey, hit, miss) {
        var i :| 0 <= i < |left| && o in JoinOne(left[i], right, lkey, rkey, hit, miss);
        if i > 0 {
          assert left[1..][i - 1] == left[i];
        }
      }
      if o in LeftJoin(left[1..], right, lkey, rkey, hit, miss) {
        var i :| 0 <= i < |left| - 1 && o in JoinOne(left[1..][i], right, lkey, rkey, hit, miss);
        assert left[1..][i] == left[i + 1];
      }
    }
  }

  /** The rows of a left merge by value: each comes from a left row, combined
      with a right row of the same key, or alone when no right row has it. */
  lemma {:induction false} LeftJoinMembers<L, R, K, O>(left: seq<L>, right: seq<R>, lkey: L -> K, rkey: R -> K,
                                                          hit: (L, R) -> O, miss: L -> O, o: O)
    ensures o in LeftJoin(left, right, lkey, rkey, hit, miss) <==>
            exists l :: l in left &&
              (((forall r :: r in right ==> rkey(r) != lkey(l)) && o == miss(l))
               || (exists r :: r in right && rkey(r) == lkey(l) && o == hit(l, r)))
  {
    LeftJoinRows(left, right, lkey, rkey, hit, miss, o);
    if o in LeftJoin(left, right, lkey, rkey, hit, miss) {
      var i :| 0 <= i < |left| && o in JoinOne(left[i], right, lkey, rkey, hit, miss);
      JoinOneRows(left[i], right, lkey, rkey, hit, miss, o);
      assert left[i] in left;
    } else {
      forall l | l in left
        ensures !(((forall r :: r in right ==> rkey(r) != lkey(l)) && o == miss(l))
                  || (exists r :: r in right && rkey(r) == lkey(l) && o == hit(l, r)))
      {
        var i :| 0 <= i < |left| && left[i] == l;
        JoinOneRows(l, right, lkey, rkey, hit, miss, o);
      }
    }
  }

  /** The row a left row becomes when at most one right row matches it:
      combined with its match, or with nulls when it has none. */
  function MergeRow<L, R, K(==), O>(l: L, right: seq<R>, lkey: L -> K, rkey: R -> K,
                                    hit: (L, R) -> O, miss: L -> O): O
  {
    match Lookup(right, rkey, lkey(l))
    case Some(r) => hit(l, r)
    case None => miss(l)
  }

  /** With unique right keys a left row contributes exactly one row. */
  lemma {:induction false} JoinOneUnique<L, R, K, O>(l: L, right: seq<R>, lkey: L -> K, rkey: R -> K,
                                                        hit: (L, R) -> O, miss: L -> O)
    requires UniqueKeys(right, rkey)
    ensures JoinOne(l, right, lkey, rkey, hit, miss) == [MergeRow(l, right, lkey, rkey, hit, miss)]
  {
    var o := Lookup(right, rkey, lkey(l));
    if o.Some? {
      MatchingUnique(right, rkey, lkey(l));
    } else {
      MatchingNone(right, rkey, lkey(l));
    }
  }

  /** With unique right keys a left merge keeps the left row count and row i
      is left row i combined with its match, or with nulls when it has none. */
  lemma {:induction false} LeftJoinUnique<L, R, K, O>(left: seq<L>, right: seq<R>, lkey: L -> K, rkey: R -> K,
                                                         hit: (L, R) -> O, miss: L -> O)
    requires UniqueKeys(right, rkey)
    ensures |LeftJoin(left, right, lkey, rkey, hit, miss)| == |left|
    ensures forall i :: 0 <= i < |left| ==>
              LeftJoin(left, right, lkey, rkey, hit, miss)[i] == MergeRow(left[i], right, lkey, rkey, hit, miss)
  {
    if left != [] {
      JoinOneUnique(left[0], right, lkey, rkey, hit, miss);
      LeftJoinUnique(left[1..], right, lkey, rkey, hit, miss);
      var rest := LeftJoin(left[1..], right, lkey, rkey, hit, miss);
      var r := LeftJoin(left, right, lkey, rkey, hit, miss);
      assert r == [MergeRow(left[0], right, lkey, rkey, hit, miss)] + rest;
      forall i | 0 < i < |left| ensures r[i] == MergeRow(left[i], right, lkey, rkey, hit, miss) {
        assert r[i] == rest[i - 1];
        assert left[1..][i - 1] == left[i];
      }
    }
  }

  lemma {:induction false} MatchingNone<R, K>(right: seq<R>, rkey: R -> K, k: K)
    requires forall r :: r in right ==> rkey(r) != k
    ensures Matching(right, rkey, k) == []
  {
    if right != [] {
      assert right[0] in right;
      MatchingNone(right[1..], rkey, k);
    }
  }

  /** Under unique keys the matching rows are exactly the looked-up row. */
  lemma {:induction false} MatchingUnique<R, K>(right: seq<R>, rkey: R -> K, k: K)
    requires UniqueKeys(right, rkey)
    requires Lookup(right, rkey, k).Some?
    ensures Matching(right, rkey, k) == [Lookup(right, rkey, k).value]
  {
    if rkey(right[0]) == k {
      forall r | r in right[1..] ensures rkey(r) != k {
        var j :| 0 <= j < |right[1..]| && right[1..][j] == r;
        assert right[j + 1] == r;
      }
      MatchingNone(right[1..], rkey, k);
    } else {
      MatchingUnique(right[1..], rkey, k);
    }
  }

  // ---------------------------------------------------------------------------
  // sort_values: ascending, missing values last

  /** The order sort_values uses on one nullable column: numbers ascending,
      NaN after every number. */
  predicate CellLe(a: Option<int>, b: Option<int>)
  {
    match a
    case None => b.None?
    case Some(i) => b.None? || i <= b.value
  }

  /** Sort key of several columns, compared column by column. */
  type SortKey = seq<Option<int>>

  predicate KeyLe(a: SortKey, b: SortKey)
    decreases |a|
  {
    if a == [] then true
    else if b == [] then false
    else if a[0] == b[0] then KeyLe(a[1..], b[1..])
    else CellLe(a[0], b[0])
  }

  lemma {:induction false} KeyLeTotal(a: SortKey, b: SortKey)
    ensures KeyLe(a, b) || KeyLe(b, a)
    decreases |a|
  {
    if a != [] && b != [] && a[0] == b[0] {
      KeyLeTotal(a[1..], b[1..]);
    }
  }

  lemma {:induction false} KeyLeTransitive(a: SortKey, b: SortKey, c: SortKey)
    requires KeyLe(a, b) && KeyLe(b, c)
    ensures KeyLe(a, c)
    decreases |a|
  {
    if a != [] && b != [] && c != [] && a[0] == b[0] && b[0] == c[0] {
      KeyLeTransitive(a[1..], b[1..], c[1..]);
    }
  }

  /** s is in ascending key order. */
  predicate Ordered<T>(s: seq<T>, key: T -> SortKey)
  {
    forall i, j :: 0 <= i < j < |s| ==> KeyLe(key(s[i]), key(s[j]))
  }

  function Insert<T>(x: T, s: seq<T>, key: T -> SortKey): (r: seq<T>)
    requires Ordered(s, key)
    ensures multiset(r) == multiset(s) + multiset{x}
    ensures Ordered(r, key)
  {
    if s == [] then [x]
    else if KeyLe(key(x), key(s[0])) then
      forall j | 0 <= j < |s| ensures KeyLe(key(x), key(s[j])) {
        if j > 0 { KeyLeTransitive(key(x), key(s[0]), key(s[j])); }
      }
      [x] + s
    else
      assert s == [s[0]] + s[1..];
      var t := Insert(x, s[1..], key);
      KeyLeTotal(key(x), key(s[0]));
      forall j | 0 <= j < |t| ensures KeyLe(key(s[0]), key(t[j])) {
        assert t[j] in multiset(t);
        if t[j] != x {
          assert t[j] in multiset(s[1..]);
          var k :| 0 <= k < |s[1..]| && s[1..][k] == t[j];
          assert s[k + 1] == t[j];
        }
      }
      [s[0]] + t
  }

  /** sort_values: the same rows, in ascending key order. Rows with equal
      keys may come out in any order in pandas; this is one such order. */
  function SortBy<T>(s: seq<T>, key: T -> SortKey): (r: seq<T>)
    ensures multiset(r) == multiset(s)
    ensures Ordered(r, key)
  {
    if s == [] then []
    else
      assert s == [s[0]] + s[1..];
      Insert(s[0], SortBy(s[1..], key), key)
  }
}
