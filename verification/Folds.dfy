/** Left folds and iteration over an arbitrary step function, with the facts about them
    that do not depend on what one step does. */
module Folds {

  function Fold<S, T>(f: (S, T) -> S, c: S, s: seq<T>): S
    decreases |s|
  {
    if s == [] then c else Fold(f, f(c, s[0]), s[1..])
  }

  function Iterate<S>(f: S -> S, c: S, n: nat): S
    decreases n
  {
    if n == 0 then c else Iterate(f, f(c), n - 1)
  }

  lemma {:induction false} FoldConcat<S, T>(f: (S, T) -> S, c: S, s: seq<T>, t: seq<T>)
    ensures Fold(f, c, s + t) == Fold(f, Fold(f, c, s), t)
    decreases |s|
  {
    if s == [] {
      assert s + t == t;
    } else {
      assert (s + t)[1..] == s[1..] + t;
      FoldConcat(f, f(c, s[0]), s[1..], t);
    }
  }

  lemma FoldSnoc<S, T>(f: (S, T) -> S, c: S, s: seq<T>, i: nat)
    requires i < |s|
    ensures Fold(f, c, s[..i + 1]) == f(Fold(f, c, s[..i]), s[i])
  {
    assert s[..i + 1] == s[..i] + [s[i]];
    FoldConcat(f, c, s[..i], [s[i]]);
  }

  lemma {:induction false} IterateConcat<S>(f: S -> S, c: S, m: nat, n: nat)
    ensures Iterate(f, c, m + n) == Iterate(f, Iterate(f, c, m), n)
    decreases m
  {
    if m == 0 {
    } else {
      IterateConcat(f, f(c), m - 1, n);
    }
  }

  lemma {:induction false} IterateFixed<S>(f: S -> S, c: S, n: nat)
    requires f(c) == c
    ensures Iterate(f, c, n) == c
    decreases n
  {
    if n == 0 {
    } else {
      IterateFixed(f, c, n - 1);
    }
  }

  ghost predicate StepInjective<S(!new), T(!new)>(f: (S, T) -> S) {
    forall x, y, b :: f(x, b) == f(y, b) ==> x == y
  }

  /** The same continuation never makes two different states meet. */
  lemma {:induction false} FoldInjective<S(!new), T(!new)>(f: (S, T) -> S, x: S, y: S, s: seq<T>)
    requires StepInjective(f) && Fold(f, x, s) == Fold(f, y, s)
    ensures x == y
    decreases |s|
  {
    if s == [] {
    } else {
      FoldInjective(f, f(x, s[0]), f(y, s[0]), s[1..]);
    }
  }

  /** `close(x, y, k)`: `x` and `y` are close enough to meet after `k` more inputs. */
  ghost predicate Contracts<S(!new), T(!new)>(f: (S, T) -> S, close: (S, S, nat) -> bool, width: nat) {
    && (forall x :: close(x, x, 0))
    && (forall x, y, a, b, k: nat :: k < width && close(f(x, a), f(y, b), k) ==> close(x, y, k + 1))
  }

  /** Right after reading different inputs, states need `width` more inputs to meet. */
  ghost predicate Separates<S(!new), T(!new)>(f: (S, T) -> S, close: (S, S, nat) -> bool, width: nat) {
    forall x, a, b, k: nat :: a != b && k < width ==> !close(f(x, a), f(x, b), k)
  }

  lemma {:induction false} MeetingRunsWereClose<S(!new), T(!new)>(
      f: (S, T) -> S, close: (S, S, nat) -> bool, width: nat, x: S, y: S, s: seq<T>, t: seq<T>)
    requires Contracts(f, close, width) && |s| == |t| <= width && Fold(f, x, s) == Fold(f, y, t)
    ensures close(x, y, |s|)
    decreases |s|
  {
    if s == [] {
    } else {
      MeetingRunsWereClose(f, close, width, f(x, s[0]), f(y, t[0]), s[1..], t[1..]);
    }
  }

  /** From one state, different inputs of equal length up to `width` end differently. */
  lemma {:induction false} ShortInputsSeparate<S(!new), T(!new)>(
      f: (S, T) -> S, close: (S, S, nat) -> bool, width: nat, x: S, s: seq<T>, t: seq<T>)
    requires Contracts(f, close, width) && Separates(f, close, width)
    requires |s| == |t| <= width && Fold(f, x, s) == Fold(f, x, t)
    ensures s == t
    decreases |s|
  {
    if s == [] {
    } else {
      MeetingRunsWereClose(f, close, width, f(x, s[0]), f(x, t[0]), s[1..], t[1..]);
      assert s[0] == t[0];
      ShortInputsSeparate(f, close, width, f(x, s[0]), s[1..], t[1..]);
      assert s == [s[0]] + s[1..] && t == [t[0]] + t[1..];
    }
  }

  /** Runs that share their start and end agree in the middle if the middle is short. */
  lemma ShortMiddleAgrees<S(!new), T(!new)>(f: (S, T) -> S, close: (S, S, nat) -> bool, width: nat, x: S,
                                            s: seq<T>, t: seq<T>, rest: seq<T>)
    requires StepInjective(f) && Contracts(f, close, width) && Separates(f, close, width)
    requires |s| == |t| <= width && Fold(f, x, s + rest) == Fold(f, x, t + rest)
    ensures s == t
  {
    FoldConcat(f, x, s, rest);
    FoldConcat(f, x, t, rest);
    FoldInjective(f, Fold(f, x, s), Fold(f, x, t), rest);
    ShortInputsSeparate(f, close, width, x, s, t);
  }

  lemma SplitAround<T>(s: seq<T>, t: seq<T>, start: nat, width: nat)
      returns (init: seq<T>, u: seq<T>, v: seq<T>, rest: seq<T>)
    requires |s| == |t|
    requires forall i :: 0 <= i < |s| && !(start <= i < start + width) ==> s[i] == t[i]
    ensures |u| == |v| <= width && s == init + (u + rest) && t == init + (v + rest)
  {
    var k := if start <= |s| then start else |s|;
    var m := if k + width <= |s| then k + width else |s|;
    init, u, v, rest := s[..k], s[k..m], t[k..m], s[m..];
    assert t[..k] == init && t[m..] == rest;
  }

  /** A change confined to `width` consecutive inputs changes the final state. */
  lemma ChangeIsVisible<S(!new), T(!new)>(
      f: (S, T) -> S, close: (S, S, nat) -> bool, width: nat, x: S, s: seq<T>, t: seq<T>, start: nat)
    requires StepInjective(f) && Contracts(f, close, width) && Separates(f, close, width)
    requires |s| == |t| && Fold(f, x, s) == Fold(f, x, t)
    requires forall i :: 0 <= i < |s| && !(start <= i < start + width) ==> s[i] == t[i]
    ensures s == t
  {
    var init, u, v, rest := SplitAround(s, t, start, width);
    FoldConcat(f, x, init, u + rest);
    FoldConcat(f, x, init, v + rest);
    ShortMiddleAgrees(f, close, width, Fold(f, x, init), u, v, rest);
  }

  /** The `n` lowest digits of `b`, lowest first. */
  function Digits<B, T>(low: B -> T, shift: B -> B, b: B, n: nat): (r: seq<T>)
    ensures |r| == n
    decreases n
  {
    if n == 0 then [] else [low(b)] + Digits(low, shift, shift(b), n - 1)
  }

  lemma {:induction false} DigitsSnoc<B, T>(low: B -> T, shift: B -> B, b: B, n: nat)
    ensures Digits(low, shift, b, n + 1) == Digits(low, shift, b, n) + [low(Iterate(shift, b, n))]
    decreases n
  {
    if n == 0 {
      assert Digits(low, shift, shift(b), 0) == [];
    } else {
      DigitsSnoc(low, shift, shift(b), n - 1);
    }
  }

  lemma {:induction false} DigitsConcat<B, T>(low: B -> T, shift: B -> B, b: B, m: nat, n: nat)
    ensures Digits(low, shift, b, m + n) == Digits(low, shift, b, m) + Digits(low, shift, Iterate(shift, b, m), n)
    decreases m
  {
    if m == 0 {
      assert Digits(low, shift, b, 0) == [];
    } else {
      DigitsConcat(low, shift, shift(b), m - 1, n);
    }
  }

  lemma {:induction false} DigitsInjective<B(!new), T>(low: B -> T, shift: B -> B, a: B, b: B, n: nat)
    requires forall x, y :: low(x) == low(y) && shift(x) == shift(y) ==> x == y
    requires Iterate(shift, a, n) == Iterate(shift, b, n) && Digits(low, shift, a, n) == Digits(low, shift, b, n)
    ensures a == b
    decreases n
  {
    if n == 0 {
    } else {
      var d, e := Digits(low, shift, a, n), Digits(low, shift, b, n);
      assert d[0] == e[0] && d[1..] == e[1..];
      DigitsInjective(low, shift, shift(a), shift(b), n - 1);
    }
  }

  /** Mixing a word into the state at once, or digit by digit between the steps, ends the same.
      `lead(x, c, b)`: state `x` has the word `b` mixed in, state `c` not yet. */
  lemma {:induction false} MixAtOnceOrByDigits<S(!new), B(!new), T>(
      step: S -> S, feed: (S, T) -> S, low: B -> T, shift: B -> B, lead: (S, S, B) -> bool, zero: B,
      x: S, c: S, b: B, n: nat)
    requires forall x, c, b :: lead(x, c, b) ==> lead(step(x), feed(c, low(b)), shift(b))
    requires forall x, c :: lead(x, c, zero) ==> x == c
    requires lead(x, c, b) && Iterate(shift, b, n) == zero
    ensures Iterate(step, x, n) == Fold(feed, c, Digits(low, shift, b, n))
    decreases n
  {
    if n == 0 {
    } else {
      assert lead(step(x), feed(c, low(b)), shift(b));
      MixAtOnceOrByDigits(step, feed, low, shift, lead, zero, step(x), feed(c, low(b)), shift(b), n - 1);
      assert Digits(low, shift, b, n)[1..] == Digits(low, shift, shift(b), n - 1);
    }
  }

  /** Concatenated images of the elements. */
  function FlatMap<T, U>(g: T -> seq<U>, s: seq<T>): seq<U>
    decreases |s|
  {
    if s == [] then [] else g(s[0]) + FlatMap(g, s[1..])
  }

  /** Reading words, or the digits each word consists of, ends the same. */
  lemma {:induction false} FoldByDigits<S(!new), T(!new), U>(
      f: (S, T) -> S, feed: (S, U) -> S, g: T -> seq<U>, c: S, s: seq<T>)
    requires forall c, b :: f(c, b) == Fold(feed, c, g(b))
    ensures Fold(f, c, s) == Fold(feed, c, FlatMap(g, s))
    decreases |s|
  {
    if s == [] {
    } else {
      FoldConcat(feed, c, g(s[0]), FlatMap(g, s[1..]));
      FoldByDigits(f, feed, g, f(c, s[0]), s[1..]);
    }
  }

  lemma {:induction false} FlatMapLength<T(!new), U>(g: T -> seq<U>, s: seq<T>, width: nat)
    requires forall b :: |g(b)| == width
    ensures |FlatMap(g, s)| == |s| * width
    decreases |s|
  {
    if s == [] {
    } else {
      FlatMapLength(g, s[1..], width);
    }
  }

  lemma {:induction false} FlatMapAt<T(!new), U>(g: T -> seq<U>, s: seq<T>, width: nat, j: nat, r: nat)
    requires (forall b :: |g(b)| == width) && j < |s| && r < width
    ensures j * width + r < |FlatMap(g, s)| && FlatMap(g, s)[j * width + r] == g(s[j])[r]
    decreases |s|
  {
    if j == 0 {
    } else {
      FlatMapAt(g, s[1..], width, j - 1, r);
      assert (j - 1) * width + r == j * width + r - width;
    }
  }

  lemma {:induction false} FlatMapInjective<T(!new), U>(g: T -> seq<U>, s: seq<T>, t: seq<T>, width: nat)
    requires (forall b :: |g(b)| == width) && (forall a, b :: g(a) == g(b) ==> a == b)
    requires |s| == |t| && FlatMap(g, s) == FlatMap(g, t)
    ensures s == t
    decreases |s|
  {
    if s == [] {
    } else {
      assert g(s[0]) == FlatMap(g, s)[..width] == g(t[0]);
      assert FlatMap(g, s[1..]) == FlatMap(g, s)[width..] == FlatMap(g, t[1..]);
      FlatMapInjective(g, s[1..], t[1..], width);
      assert s == [s[0]] + s[1..] && t == [t[0]] + t[1..];
    }
  }
}
