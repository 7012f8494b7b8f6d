/** The stable sort both source files rely on (`slice::sort_by` and
    `slice::sort_by_key`), on string keys compared the way Rust compares
    `String`s: lexicographically, character by character. */
module StableSort {

  /** `a <= b` in Rust's `Ord for str`. */
  predicate LexLe(a: string, b: string)
    decreases |a|
  {
    a == [] || (b != [] && (a[0] < b[0] || (a[0] == b[0] && LexLe(a[1..], b[1..]))))
  }

  lemma {:induction false} LexLeRefl(a: string)
    ensures LexLe(a, a)
    decreases |a|
  {
    if a != [] {
      LexLeRefl(a[1..]);
    }
  }

  lemma {:induction false} LexLeTotal(a: string, b: string)
    ensures LexLe(a, b) || LexLe(b, a)
    decreases |a|
  {
    if a != [] && b != [] && a[0] == b[0] {
      LexLeTotal(a[1..], b[1..]);
    }
  }

  lemma {:induction false} LexLeTrans(a: string, b: string, c: string)
    requires LexLe(a, b) && LexLe(b, c)
    ensures LexLe(a, c)
    decreases |a|
  {
    if a != [] && b != [] && c != [] && a[0] == b[0] == c[0] {
      LexLeTrans(a[1..], b[1..], c[1..]);
    }
  }

  lemma {:induction false} LexLeAntisym(a: string, b: string)
    requires LexLe(a, b) && LexLe(b, a)
    ensures a == b
    decreases |a|
  {
    if a != [] {
      LexLeAntisym(a[1..], b[1..]);
      assert a == [a[0]] + a[1..];
      assert b == [b[0]] + b[1..];
    }
  }

  /** `x` may stand before `y` in the result: the comparator `na.cmp(&nb)`
      when ascending, `nb.cmp(&na)` when not. */
  predicate Precedes<T>(key: T -> string, ascending: bool, x: T, y: T)
  {
    if ascending then LexLe(key(x), key(y)) else LexLe(key(y), key(x))
  }

  lemma PrecedesTotal<T>(key: T -> string, ascending: bool, x: T, y: T)
    ensures Precedes(key, ascending, x, y) || Precedes(key, ascending, y, x)
  {
    LexLeTotal(key(x), key(y));
  }

  lemma PrecedesTrans<T>(key: T -> string, ascending: bool, x: T, y: T, z: T)
    requires Precedes(key, ascending, x, y) && Precedes(key, ascending, y, z)
    ensures Precedes(key, ascending, x, z)
  {
    if ascending {
      LexLeTrans(key(x), key(y), key(z));
    } else {
      LexLeTrans(key(z), key(y), key(x));
    }
  }

  /** Equal keys never force a swap. */
  lemma PrecedesEqualKeys<T>(key: T -> string, ascending: bool, x: T, y: T)
    requires key(x) == key(y)
    ensures Precedes(key, ascending, x, y)
  {
    LexLeRefl(key(x));
  }

  ghost predicate Sorted<T>(s: seq<T>, key: T -> string, ascending: bool)
  {
    forall i, j :: 0 <= i < j < |s| ==> Precedes(key, ascending, s[i], s[j])
  }

  /** The elements of `s` whose key is `k`, in order. */
  function WithKey<T>(s: seq<T>, key: T -> string, k: string): seq<T>
    decreases |s|
  {
    if s == [] then [] else (if key(s[0]) == k then [s[0]] else []) + WithKey(s[1..], key, k)
  }

  lemma {:induction false} WithKeyConcat<T>(a: seq<T>, b: seq<T>, key: T -> string, k: string)
    ensures WithKey(a + b, key, k) == WithKey(a, key, k) + WithKey(b, key, k)
    decreases |a|
  {
    if a == [] {
      assert a + b == b;
    } else {
      var h := if key(a[0]) == k then [a[0]] else [];
      var x, y := WithKey(a[1..], key, k), WithKey(b, key, k);
      assert (a + b)[0] == a[0] && (a + b)[1..] == a[1..] + b;
      assert WithKey(a + b, key, k) == h + WithKey(a[1..] + b, key, k);
      WithKeyConcat(a[1..], b, key, k);
      assert WithKey(a, key, k) == h + x;
      assert h + (x + y) == (h + x) + y;
    }
  }

  lemma WithKeySingle<T>(x: T, key: T -> string, k: string)
    ensures WithKey([x], key, k) == if key(x) == k then [x] else []
  {
    assert [x][1..] == [];
  }

  /** Insert `x`, which came before every element of `s`, in front of the
      first element it may precede. */
  function Insert<T>(x: T, s: seq<T>, key: T -> string, ascending: bool): (r: seq<T>)
    ensures |r| == |s| + 1
    decreases |s|
  {
    if s == [] || Precedes(key, ascending, x, s[0]) then [x] + s
    else [s[0]] + Insert(x, s[1..], key, ascending)
  }

  /** The stable sort, as insertion sort from the back. */
  function SortBy<T>(xs: seq<T>, key: T -> string, ascending: bool): (r: seq<T>)
    ensures |r| == |xs|
    decreases |xs|
  {
    if xs == [] then [] else Insert(xs[0], SortBy(xs[1..], key, ascending), key, ascending)
  }

  lemma {:induction false} InsertPerm<T>(x: T, s: seq<T>, key: T -> string, ascending: bool)
    ensures multiset(Insert(x, s, key, ascending)) == multiset([x] + s)
    decreases |s|
  {
    if s != [] && !Precedes(key, ascending, x, s[0]) {
      InsertPerm(x, s[1..], key, ascending);
      assert s == [s[0]] + s[1..];
    }
  }

  /** The result is a permutation of the input. */
  lemma {:induction false} SortByPerm<T>(xs: seq<T>, key: T -> string, ascending: bool)
    ensures multiset(SortBy(xs, key, ascending)) == multiset(xs)
    decreases |xs|
  {
    if xs != [] {
      SortByPerm(xs[1..], key, ascending);
      InsertPerm(xs[0], SortBy(xs[1..], key, ascending), key, ascending);
      assert xs == [xs[0]] + xs[1..];
    }
  }

  lemma {:induction false} InsertSorted<T>(x: T, s: seq<T>, key: T -> string, ascending: bool)
    requires Sorted(s, key, ascending)
    ensures Sorted(Insert(x, s, key, ascending), key, ascending)
    decreases |s|
  {
    var r := Insert(x, s, key, ascending);
    if s == [] {
    } else if Precedes(key, ascending, x, s[0]) {
      forall i, j | 0 <= i < j < |r| ensures Precedes(key, ascending, r[i], r[j]) {
        if i == 0 && j > 1 {
          PrecedesTrans(key, ascending, x, s[0], s[j - 1]);
        }
      }
    } else {
      PrecedesTotal(key, ascending, x, s[0]);
      var t := Insert(x, s[1..], key, ascending);
      InsertSorted(x, s[1..], key, ascending);
      InsertPerm(x, s[1..], key, ascending);
      forall j | 0 <= j < |t| ensures Precedes(key, ascending, s[0], t[j]) {
        assert t[j] in multiset(t);
        assert t[j] == x || t[j] in s[1..];
      }
    }
  }

  /** The result is ordered by the comparator. */
  lemma {:induction false} SortBySorted<T>(xs: seq<T>, key: T -> string, ascending: bool)
    ensures Sorted(SortBy(xs, key, ascending), key, ascending)
    decreases |xs|
  {
    if xs != [] {
      SortBySorted(xs[1..], key, ascending);
      InsertSorted(xs[0], SortBy(xs[1..], key, ascending), key, ascending);
    }
  }

  lemma SwapEmpty<T>(a: seq<T>, b: seq<T>, c: seq<T>)
    requires a == [] || b == []
    ensures a + (b + c) == b + (a + c)
  {
  }

  lemma {:induction false} InsertStable<T>(x: T, s: seq<T>, key: T -> string, ascending: bool, k: string)
    ensures WithKey(Insert(x, s, key, ascending), key, k) == WithKey([x] + s, key, k)
    decreases |s|
  {
    if s == [] || Precedes(key, ascending, x, s[0]) {
    } else {
      if key(s[0]) == key(x) {
        PrecedesEqualKeys(key, ascending, x, s[0]);
      }
      var t := Insert(x, s[1..], key, ascending);
      assert Insert(x, s, key, ascending) == [s[0]] + t;
      var a, b, c := WithKey([s[0]], key, k), WithKey([x], key, k), WithKey(s[1..], key, k);
      WithKeySingle(s[0], key, k);
      WithKeySingle(x, key, k);
      WithKeyConcat([s[0]], t, key, k);
      InsertStable(x, s[1..], key, ascending, k);
      WithKeyConcat([x], s[1..], key, k);
      assert s == [s[0]] + s[1..];
      WithKeyConcat([s[0]], s[1..], key, k);
      WithKeyConcat([x], s, key, k);
      SwapEmpty(a, b, c);
    }
  }

  /** Stability: for every key, the elements carrying it keep their
      original relative order. */
  lemma {:induction false} SortByStable<T>(xs: seq<T>, key: T -> string, ascending: bool, k: string)
    ensures WithKey(SortBy(xs, key, ascending), key, k) == WithKey(xs, key, k)
    decreases |xs|
  {
    if xs != [] {
      var rest := SortBy(xs[1..], key, ascending);
      InsertStable(xs[0], rest, key, ascending, k);
      WithKeyConcat([xs[0]], rest, key, k);
      SortByStable(xs[1..], key, ascending, k);
      WithKeyConcat([xs[0]], xs[1..], key, k);
      assert xs == [xs[0]] + xs[1..];
    }
  }

  /** Every element may precede the next one. */
  predicate Chained<T>(s: seq<T>, key: T -> string, ascending: bool)
    decreases |s|
  {
    |s| <= 1 || (Precedes(key, ascending, s[0], s[1]) && Chained(s[1..], key, ascending))
  }

  lemma {:induction false} SortedChained<T>(s: seq<T>, key: T -> string, ascending: bool)
    requires Sorted(s, key, ascending)
    ensures Chained(s, key, ascending)
    decreases |s|
  {
    if |s| > 1 {
      var rest := s[1..];
      forall i, j | 0 <= i < j < |rest| ensures Precedes(key, ascending, rest[i], rest[j]) {
        assert rest[i] == s[i + 1] && rest[j] == s[j + 1];
      }
      SortedChained(rest, key, ascending);
    }
  }

  /** Inserting in front of an element it may precede puts it first. */
  lemma InsertFront<T>(x: T, s: seq<T>, key: T -> string, ascending: bool)
    requires s == [] || Precedes(key, ascending, x, s[0])
    ensures Insert(x, s, key, ascending) == [x] + s
  {
  }

  lemma {:induction false} SortByOfChained<T>(xs: seq<T>, key: T -> string, ascending: bool)
    requires Chained(xs, key, ascending)
    ensures SortBy(xs, key, ascending) == xs
    decreases |xs|
  {
    if xs != [] {
      var rest := xs[1..];
      SortByOfChained(rest, key, ascending);
      InsertFront(xs[0], rest, key, ascending);
      assert xs == [xs[0]] + rest;
    }
  }

  /** An already ordered sequence is left as it is. */
  lemma SortByOfSorted<T>(xs: seq<T>, key: T -> string, ascending: bool)
    requires Sorted(xs, key, ascending)
    ensures SortBy(xs, key, ascending) == xs
  {
    SortedChained(xs, key, ascending);
    SortByOfChained(xs, key, ascending);
  }

  /** Sorting twice gives the same result as sorting once. */
  lemma SortByIdempotent<T>(xs: seq<T>, key: T -> string, ascending: bool)
    ensures SortBy(SortBy(xs, key, ascending), key, ascending) == SortBy(xs, key, ascending)
  {
    SortBySorted(xs, key, ascending);
    SortByOfSorted(SortBy(xs, key, ascending), key, ascending);
  }
}
