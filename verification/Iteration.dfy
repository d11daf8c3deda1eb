/** Repeating a function, over any type: what the CRC computation needs to know
    about shift registers without looking at their bits. */
module Iteration {

  function Iterate<A>(f: A -> A, a: A, n: nat): A
    decreases n, a
  {
    if n == 0 then a else Iterate(f, f(a), n - 1)
  }

  function Fold<A, B>(f: (A, B) -> A, a: A, s: seq<B>): A
    decreases |s|
  {
    if s == [] then a else Fold(f, f(a, s[0]), s[1..])
  }

  /** Feed a register the `n` lowest digits of `x`, one at a time. */
  function Drain<A>(feed: (A, bool) -> A, low: A -> bool, shift: A -> A, c: A, x: A, n: nat): A
    decreases n, c
  {
    if n == 0 then c else Drain(feed, low, shift, feed(c, low(x)), shift(x), n - 1)
  }

  lemma {:induction false} FoldConcat<A, B>(f: (A, B) -> A, a: A, s: seq<B>, t: seq<B>)
    ensures Fold(f, a, s + t) == Fold(f, Fold(f, a, s), t)
    decreases |s|
  {
    if s == [] {
      assert s + t == t;
    } else {
      assert (s + t)[0] == s[0] && (s + t)[1..] == s[1..] + t;
      FoldConcat(f, f(a, s[0]), s[1..], t);
    }
  }

  lemma {:induction false} FoldLast<A, B>(f: (A, B) -> A, a: A, s: seq<B>, b: B)
    ensures Fold(f, a, s + [b]) == f(Fold(f, a, s), b)
  {
    FoldConcat(f, a, s, [b]);
    assert [b][1..] == [];
  }

  lemma {:induction false} FoldFirst<A, B>(f: (A, B) -> A, a: A, b: B, s: seq<B>)
    ensures Fold(f, a, [b] + s) == Fold(f, f(a, b), s)
  {
    assert ([b] + s)[0] == b && ([b] + s)[1..] == s;
  }

  lemma {:induction false} FoldStep<A, B>(f: (A, B) -> A, a: A, b: A, s: seq<B>, n: nat)
    requires n < |s| && f(a, s[n]) == b
    ensures Fold(f, a, s[n..]) == Fold(f, b, s[n + 1..])
  {
    assert s[n..][1..] == s[n + 1..];
  }

  lemma {:induction false} FoldFour<A, B>(f: (A, B) -> A, a: A, s: seq<B>)
    requires |s| == 4
    ensures Fold(f, a, s) == f(f(f(f(a, s[0]), s[1]), s[2]), s[3])
  {
    FoldLast(f, a, [], s[0]);
    FoldLast(f, a, [s[0]], s[1]);
    FoldLast(f, a, [s[0], s[1]], s[2]);
    FoldLast(f, a, [s[0], s[1], s[2]], s[3]);
    assert [] + [s[0]] == [s[0]];
    assert [s[0]] + [s[1]] == [s[0], s[1]];
    assert [s[0], s[1]] + [s[2]] == [s[0], s[1], s[2]];
    assert s == [s[0], s[1], s[2]] + [s[3]];
  }

  /** A result may be continued from, even when it is encoded by `code`. */
  lemma {:induction false} FoldStreams<A(!new), B>(f: (A, B) -> A, code: A -> A, a: A, s: seq<B>, t: seq<B>)
    requires forall x :: code(code(x)) == x
    ensures code(Fold(f, code(code(Fold(f, code(a), s))), t)) == code(Fold(f, code(a), s + t))
  {
    FoldConcat(f, code(a), s, t);
  }

  ghost predicate Injective<A(!new), B(!new)>(f: (A, B) -> A) {
    forall x, y, b :: f(x, b) == f(y, b) ==> x == y
  }

  lemma {:induction false} FoldInjective<A(!new), B(!new)>(f: (A, B) -> A, x: A, y: A, s: seq<B>)
    requires Injective(f) && Fold(f, x, s) == Fold(f, y, s)
    ensures x == y
    decreases |s|
  {
    if s != [] {
      FoldInjective(f, f(x, s[0]), f(y, s[0]), s[1..]);
    }
  }

  /** When `f` is injective and `g` is on what differs, so is the whole buffer. */
  lemma {:induction false} FoldDiffers<A(!new), B(!new)>(
    f: (A, B) -> A, a: A, before: seq<B>, u: seq<B>, v: seq<B>, after: seq<B>)
    requires Injective(f)
    requires Fold(f, Fold(f, a, before), u) != Fold(f, Fold(f, a, before), v)
    ensures Fold(f, a, before + u + after) != Fold(f, a, before + v + after)
  {
    FoldConcat(f, a, before, u);
    FoldConcat(f, a, before, v);
    FoldConcat(f, a, before + u, after);
    FoldConcat(f, a, before + v, after);
    if Fold(f, a, before + u + after) == Fold(f, a, before + v + after) {
      FoldInjective(f, Fold(f, a, before + u), Fold(f, a, before + v), after);
    }
  }

  lemma {:induction false} IterateInjective<A(!new)>(f: A -> A, x: A, y: A, n: nat)
    requires forall a, b :: f(a) == f(b) ==> a == b
    requires Iterate(f, x, n) == Iterate(f, y, n)
    ensures x == y
    decreases n
  {
    if n > 0 {
      IterateInjective(f, f(x), f(y), n - 1);
    }
  }

  lemma {:induction false} IterateEight<A>(f: A -> A, a: A)
    ensures Iterate(f, a, 8) == f(f(f(f(f(f(f(f(a))))))))
  {
    var b := f(f(f(f(a))));
    assert Iterate(f, a, 8) == Iterate(f, f(f(a)), 6);
    assert Iterate(f, f(f(a)), 6) == Iterate(f, b, 4);
    assert Iterate(f, b, 4) == Iterate(f, f(f(b)), 2);
    assert Iterate(f, f(f(b)), 2) == Iterate(f, f(f(f(f(b)))), 0);
  }

  /** Feeding digits one by one is adding the word first and stepping, when a step
      takes the lowest digit in and shifts the others. */
  lemma {:induction false} DrainIsIterate<A(!new)>(
    step: A -> A, op: (A, A) -> A, feed: (A, bool) -> A, low: A -> bool, shift: A -> A, c: A, x: A, n: nat)
    requires forall a, b :: step(op(a, b)) == op(feed(a, low(b)), shift(b))
    ensures Iterate(step, op(c, x), n) == op(Drain(feed, low, shift, c, x, n), Iterate(shift, x, n))
    decreases n
  {
    if n > 0 {
      DrainIsIterate(step, op, feed, low, shift, feed(c, low(x)), shift(x), n - 1);
    }
  }

  /** The two ways of taking a digit in, before and after adding. */
  lemma TakesDigit<A>(op: (A, A) -> A, p: A, hc: A, hx: A, hcx: A, oc: bool, ox: bool, ocx: bool)
    requires hcx == op(hc, hx) && ocx == (oc != ox) && op(op(p, hc), hx) == op(p, op(hc, hx))
    ensures (if ocx then op(p, hcx) else hcx) == op(if oc != ox then op(p, hc) else hc, hx)
  {
  }

  lemma {:induction false} DrainOf<A(!new)>(
    step: A -> A, op: (A, A) -> A, feed: (A, bool) -> A, low: A -> bool, shift: A -> A,
    c: A, x: A, y: A, z: A, n: nat)
    requires forall a, b :: step(op(a, b)) == op(feed(a, low(b)), shift(b))
    requires Agree(low, shift, x, y, n) && Iterate(shift, x, n) == z
    ensures Iterate(step, op(c, x), n) == op(Drain(feed, low, shift, c, y, n), z)
  {
    DrainIsIterate(step, op, feed, low, shift, c, x, n);
    DrainAgrees(feed, low, shift, c, x, y, n);
  }

  /** The `n` lowest digits are the same. */
  predicate Agree<A>(low: A -> bool, shift: A -> A, x: A, y: A, n: nat)
    decreases n, x
  {
    n == 0 || (low(x) == low(y) && Agree(low, shift, shift(x), shift(y), n - 1))
  }

  lemma {:induction false} DrainAgrees<A>(
    feed: (A, bool) -> A, low: A -> bool, shift: A -> A, c: A, x: A, y: A, n: nat)
    requires Agree(low, shift, x, y, n)
    ensures Drain(feed, low, shift, c, x, n) == Drain(feed, low, shift, c, y, n)
    decreases n
  {
    if n > 0 {
      DrainAgrees(feed, low, shift, feed(c, low(x)), shift(x), shift(y), n - 1);
    }
  }

  lemma {:induction false} AgreeFour<A>(low: A -> bool, shift: A -> A, x: A, y: A, n: nat)
    requires low(x) == low(y) && low(shift(x)) == low(shift(y))
    requires low(shift(shift(x))) == low(shift(shift(y)))
    requires low(shift(shift(shift(x)))) == low(shift(shift(shift(y))))
    requires Agree(low, shift, shift(shift(shift(shift(x)))), shift(shift(shift(shift(y)))), n)
    ensures Agree(low, shift, x, y, n + 4)
  {
    assert Agree(low, shift, shift(shift(shift(x))), shift(shift(shift(y))), n + 1);
    assert Agree(low, shift, shift(shift(x)), shift(shift(y)), n + 2);
    assert Agree(low, shift, shift(x), shift(y), n + 3);
  }

  /** Four digits groups in a row. */
  lemma FourInARow<A, B>(
    eight: A -> A, feed: (A, B) -> A, op: (A, A) -> A, c: A, w0: A, w1: A, w2: A, w3: A, w4: A,
    b0: B, b1: B, b2: B, b3: B)
    requires eight(op(c, w0)) == op(feed(c, b0), w1)
    requires eight(op(feed(c, b0), w1)) == op(feed(feed(c, b0), b1), w2)
    requires eight(op(feed(feed(c, b0), b1), w2)) == op(feed(feed(feed(c, b0), b1), b2), w3)
    requires eight(op(feed(feed(feed(c, b0), b1), b2), w3)) == op(feed(feed(feed(feed(c, b0), b1), b2), b3), w4)
    ensures eight(eight(eight(eight(op(c, w0))))) == op(feed(feed(feed(feed(c, b0), b1), b2), b3), w4)
  {
  }
}
