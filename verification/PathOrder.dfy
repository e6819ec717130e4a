/** The canonical order of archive members: raw path bytes, as slices compare; and stable
    sorting by it. */
module PathOrder {
  import opened Multisets

  type Bytes = seq<bv8>

  predicate PathLe(a: Bytes, b: Bytes)
    decreases |a|
  {
    a == [] || (b != [] && (a[0] < b[0] || (a[0] == b[0] && PathLe(a[1..], b[1..]))))
  }

  lemma {:induction false} PathLeReflexive(a: Bytes)
    ensures PathLe(a, a)
    decreases |a|
  {
    if a == [] {
    } else {
      PathLeReflexive(a[1..]);
    }
  }

  lemma {:induction false} PathLeTotal(a: Bytes, b: Bytes)
    ensures PathLe(a, b) || PathLe(b, a)
    decreases |a|
  {
    if a != [] && b != [] && a[0] == b[0] { PathLeTotal(a[1..], b[1..]); }
  }

  lemma {:induction false} PathLeAntisymmetric(a: Bytes, b: Bytes)
    requires PathLe(a, b) && PathLe(b, a)
    ensures a == b
    decreases |a|
  {
    if a != [] && b != [] {
      PathLeAntisymmetric(a[1..], b[1..]);
      assert a == [a[0]] + a[1..] && b == [b[0]] + b[1..];
    }
  }

  lemma {:induction false} PathLeTransitive(a: Bytes, b: Bytes, c: Bytes)
    requires PathLe(a, b) && PathLe(b, c)
    ensures PathLe(a, c)
    decreases |a|
  {
    if a != [] && a[0] == b[0] == c[0] { PathLeTransitive(a[1..], b[1..], c[1..]); }
  }

  // ----- stable insertion of keyed items -----

  predicate Ordered<T>(key: T -> Bytes, s: seq<T>) {
    forall i, j :: 0 <= i < j < |s| ==> PathLe(key(s[i]), key(s[j]))
  }

  /** `x` goes behind every item whose key is not greater. */
  function Insert<T>(key: T -> Bytes, s: seq<T>, x: T): seq<T>
    decreases |s|
  {
    if s == [] || PathLe(key(s[|s| - 1]), key(x)) then s + [x]
    else Insert(key, s[..|s| - 1], x) + [s[|s| - 1]]
  }

  function Sort<T>(key: T -> Bytes, s: seq<T>): seq<T>
    decreases |s|
  {
    if s == [] then [] else Insert(key, Sort(key, s[..|s| - 1]), s[|s| - 1])
  }

  lemma {:induction false} InsertMultiset<T>(key: T -> Bytes, s: seq<T>, x: T)
    ensures multiset(Insert(key, s, x)) == multiset(s) + multiset{x}
    decreases |s|
  {
    if s != [] && !PathLe(key(s[|s| - 1]), key(x)) {
      InsertMultiset(key, s[..|s| - 1], x);
      assert s == s[..|s| - 1] + [s[|s| - 1]];
    }
  }

  lemma {:induction false} InsertOrdered<T>(key: T -> Bytes, s: seq<T>, x: T)
    requires Ordered(key, s)
    ensures Ordered(key, Insert(key, s, x))
    decreases |s|
  {
    if s == [] {
    } else {
      var init, last := s[..|s| - 1], s[|s| - 1];
      if PathLe(key(last), key(x)) {
        forall y | y in s ensures PathLe(key(y), key(x)) {
          PathLeReflexive(key(last));
          PathLeTransitive(key(y), key(last), key(x));
        }
      } else {
        PathLeTotal(key(last), key(x));
        InsertOrdered(key, init, x);
        InsertMultiset(key, init, x);
        forall y | y in Insert(key, init, x) ensures PathLe(key(y), key(last)) {
          assert y in multiset(Insert(key, init, x));
          assert y in multiset(init) || y == x;
        }
      }
    }
  }

  lemma {:induction false} SortIsPermutation<T>(key: T -> Bytes, s: seq<T>)
    ensures multiset(Sort(key, s)) == multiset(s) && |Sort(key, s)| == |s|
    decreases |s|
  {
    if s == [] {
    } else {
      SortIsPermutation(key, s[..|s| - 1]);
      InsertMultiset(key, Sort(key, s[..|s| - 1]), s[|s| - 1]);
      assert s == s[..|s| - 1] + [s[|s| - 1]];
    }
    assert |multiset(Sort(key, s))| == |Sort(key, s)|;
  }

  lemma {:induction false} SortIsOrdered<T>(key: T -> Bytes, s: seq<T>)
    ensures Ordered(key, Sort(key, s))
    decreases |s|
  {
    if s == [] {
    } else {
      SortIsOrdered(key, s[..|s| - 1]);
      InsertOrdered(key, Sort(key, s[..|s| - 1]), s[|s| - 1]);
    }
  }

  // ----- stability -----

  function WithKey<T>(key: T -> Bytes, k: Bytes, s: seq<T>): seq<T>
    decreases |s|
  {
    if s == [] then []
    else WithKey(key, k, s[..|s| - 1]) + (if key(s[|s| - 1]) == k then [s[|s| - 1]] else [])
  }

  lemma {:induction false} InsertStable<T>(key: T -> Bytes, k: Bytes, s: seq<T>, x: T)
    ensures WithKey(key, k, Insert(key, s, x)) == WithKey(key, k, s) + (if key(x) == k then [x] else [])
    decreases |s|
  {
    if s == [] || PathLe(key(s[|s| - 1]), key(x)) {
      assert (s + [x])[..|s|] == s;
    } else {
      var init, last := s[..|s| - 1], s[|s| - 1];
      InsertStable(key, k, init, x);
      assert (Insert(key, init, x) + [last])[..|Insert(key, init, x)|] == Insert(key, init, x);
      PathLeReflexive(key(x));
    }
  }

  lemma {:induction false} SortStable<T>(key: T -> Bytes, k: Bytes, s: seq<T>)
    ensures WithKey(key, k, Sort(key, s)) == WithKey(key, k, s)
    decreases |s|
  {
    if s == [] {
    } else {
      SortStable(key, k, s[..|s| - 1]);
      InsertStable(key, k, Sort(key, s[..|s| - 1]), s[|s| - 1]);
    }
  }

  lemma {:induction false} WithKeyConcat<T>(key: T -> Bytes, k: Bytes, s: seq<T>, t: seq<T>)
    ensures WithKey(key, k, s + t) == WithKey(key, k, s) + WithKey(key, k, t)
    decreases |t|
  {
    if t == [] {
      assert s + t == s;
    } else {
      assert (s + t)[..|s + t| - 1] == s + t[..|t| - 1];
      WithKeyConcat(key, k, s, t[..|t| - 1]);
    }
  }

  // ----- uniqueness -----

  /** Items with the same key are the same item. */
  ghost predicate Consistent<T>(key: T -> Bytes, s: seq<T>) {
    forall x, y :: x in s && y in s && key(x) == key(y) ==> x == y
  }

  lemma LastIsGreatest<T>(key: T -> Bytes, s: seq<T>, x: T)
    requires Ordered(key, s) && x in s
    ensures PathLe(key(x), key(s[|s| - 1]))
  {
    PathLeReflexive(key(x));
    var i :| 0 <= i < |s| && s[i] == x;
    assert i < |s| - 1 ==> PathLe(key(s[i]), key(s[|s| - 1]));
  }

  lemma SameLast<T>(key: T -> Bytes, s: seq<T>, t: seq<T>)
    requires Ordered(key, s) && Ordered(key, t) && multiset(s) == multiset(t) && Consistent(key, s) && s != []
    ensures t != [] && s[|s| - 1] == t[|t| - 1]
  {
    SameElements(s, t);
    var x, y := s[|s| - 1], t[|t| - 1];
    assert y in s && x in t;
    LastIsGreatest(key, s, y);
    LastIsGreatest(key, t, x);
    PathLeAntisymmetric(key(x), key(y));
  }

  /** A consistent collection has only one ordered arrangement. */
  lemma {:induction false} OrderedUnique<T>(key: T -> Bytes, s: seq<T>, t: seq<T>)
    requires Ordered(key, s) && Ordered(key, t) && multiset(s) == multiset(t) && Consistent(key, s)
    ensures s == t
    decreases |s|
  {
    SameElements(s, t);
    if s == [] {
    } else {
      SameLast(key, s, t);
      var u, v := s[..|s| - 1], t[..|t| - 1];
      DropLast(s);
      DropLast(t);
      assert Consistent(key, u) by { forall x | x in u ensures x in s {} }
      OrderedUnique(key, u, v);
    }
  }

  /** Order of insertion is irrelevant exactly for consistent collections. */
  lemma SortCanonical<T>(key: T -> Bytes, s: seq<T>)
    ensures (forall p :: multiset(p) == multiset(s) ==> Sort(key, p) == Sort(key, s)) <==> Consistent(key, s)
  {
    if Consistent(key, s) {
      forall p | multiset(p) == multiset(s) ensures Sort(key, p) == Sort(key, s) {
        SortOfPermutation(key, s, p);
      }
    } else {
      var x, y :| x in s && y in s && key(x) == key(y) && x != y;
      var p, q := OrderMatters(key, s, x, y);
    }
  }

  lemma SortOfPermutation<T>(key: T -> Bytes, s: seq<T>, p: seq<T>)
    requires Consistent(key, s) && multiset(p) == multiset(s)
    ensures Sort(key, p) == Sort(key, s)
  {
    var a, b := Sort(key, s), Sort(key, p);
    SortIsPermutation(key, s);
    SortIsPermutation(key, p);
    SortIsOrdered(key, s);
    SortIsOrdered(key, p);
    assert Consistent(key, a) by { SameElements(a, s); }
    OrderedUnique(key, a, b);
  }

  lemma WithoutTwo<T>(s: seq<T>, x: T, y: T) returns (rest: seq<T>)
    requires x in s && y in s && x != y
    ensures multiset(s) == multiset{x, y} + multiset(rest)
  {
    var i :| 0 <= i < |s| && s[i] == x;
    var t := s[..i] + s[i + 1..];
    assert s == s[..i] + [x] + s[i + 1..];
    assert multiset(s) == multiset(t) + multiset{x};
    assert y in multiset(s);
    assert y in multiset(t);
    var j :| 0 <= j < |t| && t[j] == y;
    rest := t[..j] + t[j + 1..];
    assert t == t[..j] + [y] + t[j + 1..];
  }

  lemma WithKeyPair<T>(key: T -> Bytes, k: Bytes, x: T, y: T, rest: seq<T>)
    requires key(x) == key(y) == k
    ensures WithKey(key, k, [x, y] + rest) == [x, y] + WithKey(key, k, rest)
  {
    assert [x, y] == [x] + [y];
    WithKeyConcat(key, k, [x], [y]);
    WithKeyConcat(key, k, [x, y], rest);
  }

  /** Two items under one key keep the order they were inserted in. */
  lemma PairKeepsOrder<T>(key: T -> Bytes, x: T, y: T, rest: seq<T>)
    requires key(x) == key(y) && Sort(key, [x, y] + rest) == Sort(key, [y, x] + rest)
    ensures x == y
  {
    var k := key(x);
    SortStable(key, k, [x, y] + rest);
    SortStable(key, k, [y, x] + rest);
    WithKeyPair(key, k, x, y, rest);
    WithKeyPair(key, k, y, x, rest);
    var r := WithKey(key, k, rest);
    assert ([x, y] + r)[0] == ([y, x] + r)[0];
  }

  /** Two different items under one key: two arrangements of the same collection sort
      differently. */
  lemma OrderMatters<T>(key: T -> Bytes, s: seq<T>, x: T, y: T) returns (p: seq<T>, q: seq<T>)
    requires x in s && y in s && key(x) == key(y) && x != y
    ensures multiset(p) == multiset(s) == multiset(q) && Sort(key, p) != Sort(key, q)
  {
    var rest := WithoutTwo(s, x, y);
    p, q := [x, y] + rest, [y, x] + rest;
    if Sort(key, p) == Sort(key, q) { PairKeepsOrder(key, x, y, rest); }
  }
}
