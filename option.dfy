/** Python's None-or-value results, and the loop that keeps the values a function yields. */
module Options {
  datatype Option<T> = None | Some(value: T)

  /** The value, if any, as a list of at most one element. */
  function AsSeq<T>(o: Option<T>): seq<T> {
    match o case None => [] case Some(y) => [y]
  }

  /** The values f(x, a) yields for the elements x of xs that yield one, in order: the
      `for x in xs: r = f(x, a); if r: out.append(r)` loop. */
  function FilterMap<T, A, U>(xs: seq<T>, a: A, f: (T, A) -> Option<U>): seq<U> {
    if xs == [] then [] else FilterMap(xs[..|xs| - 1], a, f) + AsSeq(f(xs[|xs| - 1], a))
  }

  /** One more round of the loop keeps one more value, if the next element yields one. */
  lemma FilterMapSnoc<T, A, U>(xs: seq<T>, i: nat, a: A, f: (T, A) -> Option<U>)
    requires i < |xs|
    ensures FilterMap(xs[..i + 1], a, f) == FilterMap(xs[..i], a, f) + AsSeq(f(xs[i], a))
  {
    assert xs[..i + 1][..i] == xs[..i];
  }

  /** The loop body: append f's value for xs[i], if it yields one. */
  lemma FilterMapStep<T, A, U>(xs: seq<T>, i: nat, a: A, f: (T, A) -> Option<U>, acc: seq<U>, y: Option<U>)
    requires i < |xs| && acc == FilterMap(xs[..i], a, f) && y == f(xs[i], a)
    ensures y.Some? ==> FilterMap(xs[..i + 1], a, f) == acc + [y.value]
    ensures y.None? ==> FilterMap(xs[..i + 1], a, f) == acc
  {
    FilterMapSnoc(xs, i, a, f);
  }

  /** The loop keeps y exactly when some element of xs yields it. */
  lemma {:induction false} FilterMapIn<T, A, U>(xs: seq<T>, a: A, f: (T, A) -> Option<U>, y: U)
    ensures y in FilterMap(xs, a, f) <==> exists x :: x in xs && f(x, a) == Some(y)
  {
    if xs != [] {
      var init, last := xs[..|xs| - 1], xs[|xs| - 1];
      FilterMapIn(init, a, f, y);
      assert xs == init + [last];
    }
  }

  /** When every element yields itself, the loop keeps the whole list. */
  lemma {:induction false} FilterMapKeepsAll<T, A>(xs: seq<T>, a: A, f: (T, A) -> Option<T>)
    requires forall i :: 0 <= i < |xs| ==> f(xs[i], a) == Some(xs[i])
    ensures FilterMap(xs, a, f) == xs
  {
    if xs != [] {
      var init := xs[..|xs| - 1];
      FilterMapKeepsAll(init, a, f);
      assert xs == init + [xs[|xs| - 1]];
    }
  }

  /** What the loop keeps, as a multiset, does not depend on the order of xs. */
  lemma {:induction false} FilterMapPermutation<T, A, U>(xs: seq<T>, ys: seq<T>, a: A, f: (T, A) -> Option<U>)
    requires multiset(xs) == multiset(ys)
    ensures multiset(FilterMap(xs, a, f)) == multiset(FilterMap(ys, a, f))
    decreases |xs|
  {
    if xs != [] {
      var init, x := xs[..|xs| - 1], xs[|xs| - 1];
      assert xs == init + [x];
      assert x in multiset(ys);
      var k :| 0 <= k < |ys| && ys[k] == x;
      var rest := ys[..k] + ys[k + 1..];
      RemoveOne(ys, k);
      assert multiset(xs) == multiset(init) + multiset{x};
      assert multiset(init) == multiset(xs) - multiset{x};
      assert multiset(rest) == multiset(ys) - multiset{x};
      FilterMapPermutation(init, rest, a, f);
      FilterMapRemove(ys, k, a, f);
    }
  }

  /** Taking ys[k] out of ys takes one ys[k] out of its multiset. */
  lemma RemoveOne<T>(ys: seq<T>, k: nat)
    requires k < |ys|
    ensures multiset(ys) == multiset(ys[..k] + ys[k + 1..]) + multiset{ys[k]}
  {
    assert ys == ys[..k] + [ys[k]] + ys[k + 1..];
  }

  /** Removing ys[k] and then the last element is removing the last element and then ys[k]. */
  lemma RemoveThenDropLast<T>(ys: seq<T>, k: nat)
    requires k < |ys| - 1
    ensures var rest := ys[..k] + ys[k + 1..];
      rest[..|rest| - 1] == ys[..|ys| - 1][..k] + ys[..|ys| - 1][k + 1..] && rest[|rest| - 1] == ys[|ys| - 1]
  {
    var rest := ys[..k] + ys[k + 1..];
    var init := ys[..|ys| - 1];
    assert |rest| == |ys| - 1;
    forall i | 0 <= i < |rest| - 1 ensures rest[i] == (init[..k] + init[k + 1..])[i] {
      if i < k {
        assert rest[i] == ys[i];
      } else {
        assert rest[i] == ys[i + 1];
      }
    }
  }

  /** Taking ys[k] out of ys takes its value, if any, out of what the loop keeps. */
  lemma {:induction false} FilterMapRemove<T, A, U>(ys: seq<T>, k: nat, a: A, f: (T, A) -> Option<U>)
    requires k < |ys|
    ensures multiset(FilterMap(ys, a, f))
      == multiset(FilterMap(ys[..k] + ys[k + 1..], a, f)) + multiset(AsSeq(f(ys[k], a)))
    decreases |ys|
  {
    var init, last := ys[..|ys| - 1], ys[|ys| - 1];
    var rest := ys[..k] + ys[k + 1..];
    var dropped, kept := AsSeq(f(ys[k], a)), AsSeq(f(last, a));
    assert FilterMap(ys, a, f) == FilterMap(init, a, f) + kept;
    if k == |ys| - 1 {
      assert rest == init;
    } else {
      var shorter := init[..k] + init[k + 1..];
      FilterMapRemove(init, k, a, f);
      assert init[k] == ys[k];
      RemoveThenDropLast(ys, k);
      assert FilterMap(rest, a, f) == FilterMap(shorter, a, f) + kept;
      calc {
        multiset(FilterMap(ys, a, f));
        multiset(FilterMap(init, a, f)) + multiset(kept);
        multiset(FilterMap(shorter, a, f)) + multiset(dropped) + multiset(kept);
        multiset(FilterMap(rest, a, f)) + multiset(dropped);
      }
    }
  }

  lemma ConcatAssoc<T>(a: seq<T>, b: seq<T>, c: seq<T>)
    ensures a + (b + c) == (a + b) + c
  {
  }
}
