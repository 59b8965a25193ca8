/** Iterating a map and folding a step over a sequence, for any type. */
module Folds {

  function Iterate<T>(f: T -> T, x: T, n: nat): T {
    if n == 0 then x else f(Iterate(f, x, n - 1))
  }

  function Fold<A, B>(step: (A, B) -> A, c: A, bs: seq<B>): A
    decreases bs
  {
    if bs == [] then c else Fold(step, step(c, bs[0]), bs[1..])
  }

  // ---- Linear and injective maps ------------------------------------------------------

  ghost predicate Linear<T(!new)>(f: T -> T, add: (T, T) -> T) {
    forall x, y :: f(add(x, y)) == add(f(x), f(y))
  }

  ghost predicate Injective<T(!new)>(f: T -> T) {
    forall x, y :: f(x) == f(y) ==> x == y
  }

  lemma {:induction false} IterateLinear<T(!new)>(f: T -> T, add: (T, T) -> T, x: T, y: T, n: nat)
    requires Linear(f, add)
    ensures Iterate(f, add(x, y), n) == add(Iterate(f, x, n), Iterate(f, y, n))
  {
    if n > 0 {
      IterateLinear(f, add, x, y, n - 1);
    }
  }

  lemma {:induction false} IterateInjective<T(!new)>(f: T -> T, x: T, y: T, n: nat)
    requires Injective(f)
    ensures Iterate(f, x, n) == Iterate(f, y, n) ==> x == y
  {
    if n > 0 {
      IterateInjective(f, x, y, n - 1);
    }
  }

  lemma {:induction false} IterateAdds<T>(f: T -> T, x: T, m: nat, n: nat)
    ensures Iterate(f, Iterate(f, x, m), n) == Iterate(f, x, m + n)
  {
    if n > 0 {
      IterateAdds(f, x, m, n - 1);
    }
  }

  lemma {:induction false} IterateSame<T>(f: T -> T, g: T -> T, x: T, n: nat)
    requires forall k :: 0 <= k < n ==> f(Iterate(g, x, k)) == g(Iterate(g, x, k))
    ensures Iterate(f, x, n) == Iterate(g, x, n)
  {
    if n > 0 {
      IterateSame(f, g, x, n - 1);
      assert f(Iterate(g, x, n - 1)) == g(Iterate(g, x, n - 1));
    }
  }

  // ---- Folds --------------------------------------------------------------------------

  lemma {:induction false} FoldConcat<A, B>(step: (A, B) -> A, c: A, a: seq<B>, b: seq<B>)
    ensures Fold(step, c, a + b) == Fold(step, Fold(step, c, a), b)
    decreases a
  {
    if a == [] {
      assert a + b == b;
    } else {
      assert (a + b)[1..] == a[1..] + b;
      FoldConcat(step, step(c, a[0]), a[1..], b);
    }
  }

  lemma {:induction false} FoldSame<A(!new), B>(g: (A, B) -> A, h: (A, B) -> A, c: A, bs: seq<B>)
    requires forall x, i :: 0 <= i < |bs| ==> g(x, bs[i]) == h(x, bs[i])
    ensures Fold(g, c, bs) == Fold(h, c, bs)
    decreases bs
  {
    if bs != [] {
      assert g(c, bs[0]) == h(c, bs[0]);
      FoldSame(g, h, g(c, bs[0]), bs[1..]);
    }
  }

  ghost predicate InjectiveIn<A(!new), B>(step: (A, B) -> A, b: B) {
    forall x, y :: step(x, b) == step(y, b) ==> x == y
  }

  ghost predicate AllInjective<A(!new), B>(step: (A, B) -> A, bs: seq<B>) {
    forall i :: 0 <= i < |bs| ==> InjectiveIn(step, bs[i])
  }

  lemma {:induction false} FoldInjective<A(!new), B>(step: (A, B) -> A, c: A, d: A, bs: seq<B>)
    requires AllInjective(step, bs)
    ensures Fold(step, c, bs) == Fold(step, d, bs) ==> c == d
    decreases bs
  {
    if bs != [] {
      FoldInjective(step, step(c, bs[0]), step(d, bs[0]), bs[1..]);
      assert InjectiveIn(step, bs[0]);
    }
  }

  // ---- Folding words --------------------------------------------------------------------

  /** The step adds an element to the register and moves the sum along by eight. */
  ghost predicate FeedsAt<T>(step: (T, T) -> T, f: T -> T, add: (T, T) -> T, x: T, y: T) {
    step(x, y) == Iterate(f, add(x, y), 8)
  }

  ghost predicate Feeds<T(!new)>(step: (T, T) -> T, f: T -> T, add: (T, T) -> T) {
    forall x, y :: FeedsAt(step, f, add, x, y)
  }

  ghost predicate Regroups<T>(add: (T, T) -> T, x: T, y: T, z: T) { add(add(x, y), z) == add(x, add(y, z)) }

  ghost predicate Associative<T(!new)>(add: (T, T) -> T) {
    forall x, y, z :: Regroups(add, x, y, z)
  }

  ghost predicate Neutral<T(!new)>(add: (T, T) -> T, zero: T) {
    forall x :: add(x, zero) == x
  }

  ghost predicate CancelsAt<T>(add: (T, T) -> T, x: T, y: T, z: T) { add(x, y) == add(x, z) ==> y == z }

  ghost predicate Cancels<T(!new)>(add: (T, T) -> T) {
    forall x, y, z :: CancelsAt(add, x, y, z)
  }

  /** The word of v has its first element below the word of the rest, and eight
      steps bring the rest down again. */
  ghost predicate IsWordOf<T>(f: T -> T, add: (T, T) -> T, up: T -> T, word: seq<T> -> T, v: seq<T>) {
    v != [] && word(v) == add(v[0], up(word(v[1..]))) && Iterate(f, up(word(v[1..])), 8) == word(v[1..])
  }

  ghost predicate WordsOf<T>(f: T -> T, add: (T, T) -> T, up: T -> T, word: seq<T> -> T, w: seq<T>) {
    forall k :: 0 <= k < |w| ==> IsWordOf(f, add, up, word, w[k..])
  }

  lemma WordsOfTail<T>(f: T -> T, add: (T, T) -> T, up: T -> T, word: seq<T> -> T, w: seq<T>)
    requires w != [] && WordsOf(f, add, up, word, w)
    ensures IsWordOf(f, add, up, word, w) && WordsOf(f, add, up, word, w[1..])
  {
    assert w[0..] == w;
    forall k | 0 <= k < |w[1..]| ensures IsWordOf(f, add, up, word, w[1..][k..]) {
      assert w[1..][k..] == w[k + 1..];
    }
  }

  /** Feeding the elements of a word one by one is adding the word and moving on. */
  lemma {:induction false} FoldIsWord<T(!new)>(f: T -> T, add: (T, T) -> T, up: T -> T, word: seq<T> -> T,
                                               step: (T, T) -> T, c: T, w: seq<T>)
    requires Linear(f, add) && Associative(add) && Feeds(step, f, add) && Neutral(add, word([]))
    requires WordsOf(f, add, up, word, w)
    ensures Fold(step, c, w) == Iterate(f, add(c, word(w)), 8 * |w|)
    decreases w
  {
    if w == [] {
      assert w == [];
    } else {
      var b, t := w[0], w[1..];
      WordsOfTail(f, add, up, word, w);
      FoldIsWord(f, add, up, word, step, step(c, b), t);
      assert FeedsAt(step, f, add, c, b);
      IterateLinear(f, add, add(c, b), up(word(t)), 8);
      assert Regroups(add, c, b, up(word(t)));
      assert add(step(c, b), word(t)) == Iterate(f, add(c, word(w)), 8);
      IterateAdds(f, add(c, word(w)), 8, 8 * |t|);
    }
  }

  /** Different words in the same place lead to different registers. */
  lemma WordsChangeFold<T(!new)>(f: T -> T, add: (T, T) -> T, up: T -> T, word: seq<T> -> T, step: (T, T) -> T, c: T,
                                 p: seq<T>, v: seq<T>, w: seq<T>, s: seq<T>)
    requires Linear(f, add) && Associative(add) && Feeds(step, f, add) && Neutral(add, word([]))
    requires Injective(f) && Cancels(add) && AllInjective(step, s)
    requires WordsOf(f, add, up, word, v) && WordsOf(f, add, up, word, w)
    requires |v| == |w| && word(v) != word(w)
    ensures Fold(step, c, p + v + s) != Fold(step, c, p + w + s)
  {
    var d := Fold(step, c, p);
    FoldConcat(step, c, p + v, s);
    FoldConcat(step, c, p + w, s);
    FoldConcat(step, c, p, v);
    FoldConcat(step, c, p, w);
    FoldInjective(step, Fold(step, d, v), Fold(step, d, w), s);
    WordsFoldApart(f, add, up, word, step, d, v, w);
  }

  lemma WordsFoldApart<T(!new)>(f: T -> T, add: (T, T) -> T, up: T -> T, word: seq<T> -> T, step: (T, T) -> T, d: T,
                                v: seq<T>, w: seq<T>)
    requires Linear(f, add) && Associative(add) && Feeds(step, f, add) && Neutral(add, word([]))
    requires Injective(f) && Cancels(add)
    requires WordsOf(f, add, up, word, v) && WordsOf(f, add, up, word, w)
    requires |v| == |w| && word(v) != word(w)
    ensures Fold(step, d, v) != Fold(step, d, w)
  {
    FoldIsWord(f, add, up, word, step, d, v);
    FoldIsWord(f, add, up, word, step, d, w);
    IterateInjective(f, add(d, word(v)), add(d, word(w)), 8 * |v|);
    assert CancelsAt(add, d, word(v), word(w));
  }
}
