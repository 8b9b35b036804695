/**
 uo_cb: a callback is a list of functions to run and a stack of data. Composition edits both; while a
 callback runs, its functions may put more functions in front of the list.
 */
module Callback {

  /** The value of a callback. */
  datatype Cb<F, X> = Cb(funcs: seq<F>, stack: seq<X>)

  /** uo_cb_append_cb: b's functions after a's, and b's data beneath a's. */
  function Append<F, X>(a: Cb<F, X>, b: Cb<F, X>): Cb<F, X> {
    Cb(a.funcs + b.funcs, b.stack + a.stack)
  }

  /** uo_cb_prepend_cb: b's functions before a's, and b's data on top of a's. */
  function Prepend<F, X>(a: Cb<F, X>, b: Cb<F, X>): Cb<F, X> {
    Cb(b.funcs + a.funcs, a.stack + b.stack)
  }

  lemma AppendAssociative<F, X>(a: Cb<F, X>, b: Cb<F, X>, c: Cb<F, X>)
    ensures Append(Append(a, b), c) == Append(a, Append(b, c))
  {
    assert a.funcs + b.funcs + c.funcs == a.funcs + (b.funcs + c.funcs);
    assert c.stack + (b.stack + a.stack) == c.stack + b.stack + a.stack;
  }

  lemma PrependAssociative<F, X>(a: Cb<F, X>, b: Cb<F, X>, c: Cb<F, X>)
    ensures Prepend(Prepend(a, b), c) == Prepend(a, Prepend(b, c))
  {
    assert c.funcs + (b.funcs + a.funcs) == c.funcs + b.funcs + a.funcs;
    assert a.stack + b.stack + c.stack == a.stack + (b.stack + c.stack);
  }

  /** uo_cb objects. */
  class Callback<F, X> {
    var funcs: seq<F>
    var stack: seq<X>

    ghost function Value(): Cb<F, X>
      reads this
    {
      Cb(funcs, stack)
    }

    constructor ()
      ensures Value() == Cb([], [])
    {
      funcs, stack := [], [];
    }

    static method Clone(cb: Callback<F, X>) returns (clone: Callback<F, X>)
      ensures fresh(clone) && clone.Value() == cb.Value()
    {
      clone := new Callback();
      clone.stack := clone.stack + cb.stack;
      var link := 0;
      while link < |cb.funcs|
        invariant link <= |cb.funcs| && clone.funcs == cb.funcs[..link] && clone.stack == cb.stack
      {
        clone.AppendFunc(cb.funcs[link]);
        link := link + 1;
      }
    }

    method PrependFunc(f: F)
      modifies this`funcs
      ensures funcs == [f] + old(funcs)
    {
      funcs := [f] + funcs;
    }

    method AppendFunc(f: F)
      modifies this`funcs
      ensures funcs == old(funcs) + [f]
    {
      funcs := funcs + [f];
    }

    /** Walk the other list backwards, putting each function in front. */
    method PrependCb(before: Callback<F, X>)
      requires before != this
      modifies this
      ensures Value() == Prepend(old(Value()), before.Value())
    {
      stack := stack + before.stack;
      var link := |before.funcs|;
      while link > 0
        invariant 0 <= link <= |before.funcs|
        invariant before.funcs[..link] + funcs == before.funcs + old(funcs)
        invariant stack == old(stack) + before.stack
      {
        link := link - 1;
        assert before.funcs[..link + 1] == before.funcs[..link] + [before.funcs[link]];
        PrependFunc(before.funcs[link]);
      }
      assert before.funcs[..0] == [];
    }

    /** Walk the other list forwards, putting each function at the end. */
    method AppendCb(after: Callback<F, X>)
      requires after != this
      modifies this
      ensures Value() == Append(old(Value()), after.Value())
    {
      stack := after.stack + stack;
      var link := 0;
      while link < |after.funcs|
        invariant link <= |after.funcs|
        invariant funcs == old(funcs) + after.funcs[..link]
        invariant stack == after.stack + old(stack)
      {
        AppendFunc(after.funcs[link]);
        link := link + 1;
      }
      assert after.funcs[..link] == after.funcs;
    }
  }

  /** Prepending b to a gives the same callback as appending a to a clone of b. */
  method PrependIsAppend<F, X>(a: Callback<F, X>, b: Callback<F, X>) returns (c: Callback<F, X>)
    requires a != b
    modifies a
    ensures fresh(c) && c.Value() == a.Value() == Prepend(old(a.Value()), b.Value())
    ensures b.Value() == old(b.Value())
  {
    c := Callback.Clone(b);
    c.AppendCb(a);
    a.PrependCb(b);
  }

  // ----- a callback and itself

  /** The loop of append_cb over the list it appends to: the list so far, and the place of the walk. */
  datatype Walk<F> = Walk(funcs: seq<F>, link: nat)

  /** Turns of that loop; the walk of prepend_cb is the same, with the list seen from its end. */
  function Turns<F>(w: Walk<F>, n: nat): Walk<F>
    decreases n
  {
    if n == 0 || w.link >= |w.funcs| then w
    else Turns(Walk(w.funcs + [w.funcs[w.link]], w.link + 1), n - 1)
  }

  /** Appending or prepending a callback to itself ends only if it has no functions: each turn adds one more to walk over. */
  lemma {:induction false} SelfNeverEnds<F>(w: Walk<F>, n: nat)
    requires w.link < |w.funcs|
    ensures var t := Turns(w, n); |t.funcs| == |w.funcs| + n && t.link == w.link + n && t.link < |t.funcs|
    decreases n
  {
    if n > 0 {
      SelfNeverEnds(Walk(w.funcs + [w.funcs[w.link]], w.link + 1), n - 1);
    }
  }

  // ----- running

  /**
   What a function does when invoked: new stack, new world, and functions put in front of the list. A
   function that appends to the list it runs from, as those of a connection do, is not such an effect: what
   it appends comes after everything appended before.
   */
  datatype Effect<F, X, W> = Underflow | Effect(stack: seq<X>, world: W, first: seq<F>)

  /**
   What functions do with enough data of their own is the same with this base beneath it. Underflow is a
   reach below the stack they were given.
   */
  ghost predicate TopDown<F(!new), X(!new), W(!new)>(sem: (F, seq<X>, W) -> Effect<F, X, W>, base: seq<X>) {
    forall f, stack, w ::
      !sem(f, stack, w).Underflow? ==>
        sem(f, base + stack, w) == sem(f, stack, w).(stack := base + sem(f, stack, w).stack)
  }

  /** A callback that carries no data can be appended to any other, even one whose functions index the bottom. */
  lemma NoDataBeneath<F(!new), X(!new), W(!new)>(sem: (F, seq<X>, W) -> Effect<F, X, W>)
    ensures TopDown(sem, [])
  {
    forall f, stack, w | !sem(f, stack, w).Underflow?
      ensures sem(f, [] + stack, w) == sem(f, stack, w).(stack := [] + sem(f, stack, w).stack)
    {
      assert [] + stack == stack && [] + sem(f, stack, w).stack == sem(f, stack, w).stack;
    }
  }

  datatype Config<F, X, W> = Config(cb: Cb<F, X>, world: W) | Stuck

  /** uo_cb_invoke: take the first function off the list and call it. */
  ghost function Invoke<F, X, W>(sem: (F, seq<X>, W) -> Effect<F, X, W>, c: Config<F, X, W>): Config<F, X, W> {
    if c.Stuck? || c.cb.funcs == [] then c
    else match sem(c.cb.funcs[0], c.cb.stack, c.world)
      case Underflow => Stuck
      case Effect(stack, world, first) => Config(Cb(first + c.cb.funcs[1..], stack), world)
  }

  ghost function Run<F, X, W>(sem: (F, seq<X>, W) -> Effect<F, X, W>, c: Config<F, X, W>, n: nat): Config<F, X, W>
    decreases n
  {
    if n == 0 then c else Run(sem, Invoke(sem, c), n - 1)
  }

  /** The first empty list is reached after exactly n invocations. */
  ghost predicate RunsOut<F, X, W>(sem: (F, seq<X>, W) -> Effect<F, X, W>, c: Config<F, X, W>, n: nat, end: Config<F, X, W>) {
    && Run(sem, c, n) == end && end.Config? && end.cb.funcs == []
    && forall k :: 0 <= k < n ==> Run(sem, c, k).Config? && Run(sem, c, k).cb.funcs != []
  }

  lemma RunsOutNext<F(!new), X(!new), W(!new)>(
      sem: (F, seq<X>, W) -> Effect<F, X, W>, c: Config<F, X, W>, n: nat, end: Config<F, X, W>)
    requires n > 0 && RunsOut(sem, c, n, end)
    ensures c.Config? && c.cb.funcs != []
    ensures Invoke(sem, c).Config? && RunsOut(sem, Invoke(sem, c), n - 1, end)
  {
    hide Invoke;
    assert Run(sem, c, 0) == c;
    var c' := Invoke(sem, c);
    forall k: nat
      ensures Run(sem, c, k + 1) == Run(sem, c', k)
    {
    }
    forall k | 0 <= k < n - 1
      ensures Run(sem, c', k).Config? && Run(sem, c', k).cb.funcs != []
    {
      assert Run(sem, c, k + 1) == Run(sem, c', k);
    }
    assert Run(sem, c', 0) == c';
    assert Run(sem, c, 1) == Run(sem, c', 0);
  }

  lemma InvokeFramed<F(!new), X(!new), W(!new)>(sem: (F, seq<X>, W) -> Effect<F, X, W>, c: Config<F, X, W>, b: Cb<F, X>)
    requires TopDown(sem, b.stack) && c.Config? && c.cb.funcs != [] && Invoke(sem, c).Config?
    ensures Invoke(sem, c.(cb := Append(c.cb, b))) == Invoke(sem, c).(cb := Append(Invoke(sem, c).cb, b))
  {
    var f, rest := c.cb.funcs[0], c.cb.funcs[1..];
    var e := sem(f, c.cb.stack, c.world);
    assert sem(f, b.stack + c.cb.stack, c.world) == e.(stack := b.stack + e.stack);
    assert (c.cb.funcs + b.funcs)[1..] == rest + b.funcs;
    assert e.first + (rest + b.funcs) == e.first + rest + b.funcs;
  }

  lemma {:induction false} Framed<F(!new), X(!new), W(!new)>(
      sem: (F, seq<X>, W) -> Effect<F, X, W>, c: Config<F, X, W>, b: Cb<F, X>, n: nat, end: Config<F, X, W>)
    requires TopDown(sem, b.stack) && c.Config? && RunsOut(sem, c, n, end)
    ensures Run(sem, c.(cb := Append(c.cb, b)), n) == end.(cb := Append(end.cb, b))
    decreases n
  {
    hide Invoke, TopDown, Append;
    if n == 0 {
      assert Run(sem, c, 0) == c;
    } else {
      RunsOutNext(sem, c, n, end);
      InvokeFramed(sem, c, b);
      hide RunsOut;
      Framed(sem, Invoke(sem, c), b, n - 1, end);
    }
  }

  /**
   Composition is sequential composition: if a, run alone, uses up exactly its own data, then running
   append(a, b) behaves as a and then reaches exactly b, with b's own data and the world a left.
   */
  lemma AppendRunsInSequence<F(!new), X(!new), W(!new)>(
      sem: (F, seq<X>, W) -> Effect<F, X, W>, a: Cb<F, X>, b: Cb<F, X>, w: W, n: nat, w': W)
    requires TopDown(sem, b.stack) && RunsOut(sem, Config(a, w), n, Config(Cb([], []), w'))
    ensures Run(sem, Config(Append(a, b), w), n) == Config(b, w')
  {
    Framed(sem, Config(a, w), b, n, Config(Cb([], []), w'));
    assert Append(Cb([], []), b) == b;
  }
}
