/**
 * Left-to-right scans over a sequence, in the shape of the extraction loops: each is defined
 * by what the scan holds after its last step, so a loop over xs[..i] keeps it as an invariant.
 * What each scan computes is stated by the lemma that follows it.
 */
module Scans {
  import opened Wrappers

  /** The elements that satisfy `p`, in order (a loop that appends the qualifying elements). */
  function Keep<T>(xs: seq<T>, p: T -> bool): seq<T> {
    if xs == [] then []
    else Keep(xs[..|xs| - 1], p) + (if p(xs[|xs| - 1]) then [xs[|xs| - 1]] else [])
  }

  lemma {:induction false} KeepSpec<T>(xs: seq<T>, p: T -> bool)
    ensures |Keep(xs, p)| <= |xs|
    ensures forall x :: x in Keep(xs, p) <==> x in xs && p(x)
  {
    if xs != [] {
      var init := xs[..|xs| - 1];
      KeepSpec(init, p);
      assert xs == init + [xs[|xs| - 1]];
    }
  }

  /** f of the elements that satisfy `p`, in order. */
  function KeepMap<T, U>(xs: seq<T>, p: T -> bool, f: T -> U): seq<U> {
    if xs == [] then []
    else KeepMap(xs[..|xs| - 1], p, f) + (if p(xs[|xs| - 1]) then [f(xs[|xs| - 1])] else [])
  }

  lemma {:induction false} KeepMapSpec<T, U>(xs: seq<T>, p: T -> bool, f: T -> U)
    ensures |KeepMap(xs, p, f)| <= |xs|
    ensures KeepMap(xs, p, f) == [] <==> forall k :: 0 <= k < |xs| ==> !p(xs[k])
  {
    if xs != [] {
      var init := xs[..|xs| - 1];
      KeepMapSpec(init, p, f);
      assert forall k :: 0 <= k < |init| ==> init[k] == xs[k];
    }
  }

  /** The concatenation of f(x) over the elements x that satisfy `p`, in order. */
  function Gather<T, U>(xs: seq<T>, p: T -> bool, f: T -> seq<U>): seq<U> {
    if xs == [] then []
    else Gather(xs[..|xs| - 1], p, f) + (if p(xs[|xs| - 1]) then f(xs[|xs| - 1]) else [])
  }

  /** xs[k] is the last element of xs that satisfies `p`. */
  predicate IsLast<T>(xs: seq<T>, p: T -> bool, k: int) {
    0 <= k < |xs| && p(xs[k]) && forall j :: k < j < |xs| ==> !p(xs[j])
  }

  /** A variable that starts at 0 and is overwritten with v(x) by every x that satisfies `p`. */
  function LastValue<T>(xs: seq<T>, p: T -> bool, v: T -> real): real {
    if xs == [] then 0.0
    else if p(xs[|xs| - 1]) then v(xs[|xs| - 1])
    else LastValue(xs[..|xs| - 1], p, v)
  }

  /** The last qualifying element decides the value; with none, it stays 0. */
  lemma {:induction false} LastValueSpec<T>(xs: seq<T>, p: T -> bool, v: T -> real)
    ensures (forall k :: 0 <= k < |xs| ==> !p(xs[k])) ==> LastValue(xs, p, v) == 0.0
    ensures forall k :: IsLast(xs, p, k) ==> LastValue(xs, p, v) == v(xs[k])
  {
    if xs != [] && !p(xs[|xs| - 1]) {
      var init := xs[..|xs| - 1];
      LastValueSpec(init, p, v);
      assert forall k :: 0 <= k < |init| ==> init[k] == xs[k];
      assert forall k :: IsLast(xs, p, k) ==> IsLast(init, p, k);
    }
  }

  /** A variable that starts empty and is overwritten by every x that satisfies `p`. */
  function LastOf<T>(xs: seq<T>, p: T -> bool): Option<T> {
    if xs == [] then None
    else if p(xs[|xs| - 1]) then Some(xs[|xs| - 1])
    else LastOf(xs[..|xs| - 1], p)
  }

  /** The variable ends empty exactly when nothing qualifies, and otherwise holds the last
      qualifying element. */
  lemma {:induction false} LastOfSpec<T>(xs: seq<T>, p: T -> bool)
    ensures LastOf(xs, p).None? <==> forall k :: 0 <= k < |xs| ==> !p(xs[k])
    ensures LastOf(xs, p).Some? ==> exists k :: IsLast(xs, p, k) && xs[k] == LastOf(xs, p).value
  {
    if xs != [] {
      if p(xs[|xs| - 1]) {
        assert IsLast(xs, p, |xs| - 1);
      } else {
        var init := xs[..|xs| - 1];
        LastOfSpec(init, p);
        assert forall k :: 0 <= k < |init| ==> init[k] == xs[k];
        if LastOf(init, p).Some? {
          var k :| IsLast(init, p, k) && init[k] == LastOf(init, p).value;
          assert IsLast(xs, p, k);
        }
      }
    }
  }

  /** f applied to each element in turn, stopping at the first failure. */
  function Collect<T, U, E>(xs: seq<T>, f: T -> Result<U, E>): Result<seq<U>, E> {
    if xs == [] then Success([])
    else
      match Collect(xs[..|xs| - 1], f)
      case Failure(e) => Failure(e)
      case Success(out) =>
        match f(xs[|xs| - 1])
        case Failure(e) => Failure(e)
        case Success(y) => Success(out + [y])
  }

  /** Collect succeeds exactly when every element does, with one result per element in
      order; otherwise it reports the error of the first failing element. */
  lemma {:induction false} CollectSpec<T, U, E>(xs: seq<T>, f: T -> Result<U, E>)
    ensures Collect(xs, f).Success? <==> forall k :: 0 <= k < |xs| ==> f(xs[k]).Success?
    ensures Collect(xs, f).Success? ==>
      |Collect(xs, f).value| == |xs| && forall k :: 0 <= k < |xs| ==> f(xs[k]) == Success(Collect(xs, f).value[k])
    ensures Collect(xs, f).Failure? ==>
      exists k :: 0 <= k < |xs| && f(xs[k]) == Failure(Collect(xs, f).error) &&
                  forall j :: 0 <= j < k ==> f(xs[j]).Success?
  {
    if xs != [] {
      var init := xs[..|xs| - 1];
      CollectSpec(init, f);
      assert forall k :: 0 <= k < |init| ==> init[k] == xs[k];
      if Collect(init, f).Failure? {
        var k :| 0 <= k < |init| && f(init[k]) == Failure(Collect(init, f).error) &&
                 forall j :: 0 <= j < k ==> f(init[j]).Success?;
        assert f(xs[k]) == Failure(Collect(xs, f).error);
      } else if f(xs[|xs| - 1]).Failure? {
        assert f(xs[|xs| - 1]) == Failure(Collect(xs, f).error);
      }
    }
  }

  lemma {:induction false} KeepAppend<T>(a: seq<T>, b: seq<T>, p: T -> bool)
    ensures Keep(a + b, p) == Keep(a, p) + Keep(b, p)
  {
    if b == [] {
      assert a + b == a;
    } else {
      var b' := b[..|b| - 1];
      assert (a + b)[..|a + b| - 1] == a + b';
      assert (a + b)[|a + b| - 1] == b[|b| - 1];
      KeepAppend(a, b', p);
    }
  }

  lemma {:induction false} GatherAppend<T, U>(a: seq<T>, b: seq<T>, p: T -> bool, f: T -> seq<U>)
    ensures Gather(a + b, p, f) == Gather(a, p, f) + Gather(b, p, f)
  {
    if b == [] {
      assert a + b == a;
    } else {
      assert (a + b)[..|a + b| - 1] == a + b[..|b| - 1];
      GatherAppend(a, b[..|b| - 1], p, f);
    }
  }

  /** Once a prefix fails, every extension fails with the same error. */
  lemma {:induction false} CollectFailureExtends<T, U, E>(a: seq<T>, b: seq<T>, f: T -> Result<U, E>)
    requires Collect(a, f).Failure?
    ensures Collect(a + b, f) == Collect(a, f)
  {
    if b == [] {
      assert a + b == a;
    } else {
      assert (a + b)[..|a + b| - 1] == a + b[..|b| - 1];
      CollectFailureExtends(a, b[..|b| - 1], f);
    }
  }

  // One more step of each scan: the facts a loop over xs[..i] needs to advance to xs[..i + 1].

  lemma KeepSnoc<T>(xs: seq<T>, x: T, p: T -> bool)
    ensures Keep(xs + [x], p) == Keep(xs, p) + (if p(x) then [x] else [])
  {
    assert (xs + [x])[..|xs|] == xs;
  }

  lemma KeepMapSnoc<T, U>(xs: seq<T>, x: T, p: T -> bool, f: T -> U)
    ensures KeepMap(xs + [x], p, f) == KeepMap(xs, p, f) + (if p(x) then [f(x)] else [])
  {
    assert (xs + [x])[..|xs|] == xs;
  }

  lemma GatherSnoc<T, U>(xs: seq<T>, x: T, p: T -> bool, f: T -> seq<U>)
    ensures Gather(xs + [x], p, f) == Gather(xs, p, f) + (if p(x) then f(x) else [])
  {
    assert (xs + [x])[..|xs|] == xs;
  }

  lemma LastValueSnoc<T>(xs: seq<T>, x: T, p: T -> bool, v: T -> real)
    ensures LastValue(xs + [x], p, v) == if p(x) then v(x) else LastValue(xs, p, v)
  {
    assert (xs + [x])[..|xs|] == xs;
  }

  lemma LastOfSnoc<T>(xs: seq<T>, x: T, p: T -> bool)
    ensures LastOf(xs + [x], p) == if p(x) then Some(x) else LastOf(xs, p)
  {
    assert (xs + [x])[..|xs|] == xs;
  }

  lemma CollectSnoc<T, U, E>(xs: seq<T>, x: T, f: T -> Result<U, E>)
    ensures Collect(xs + [x], f) ==
      match Collect(xs, f)
      case Failure(e) => Failure(e)
      case Success(out) => (match f(x) case Failure(e) => Failure(e) case Success(y) => Success(out + [y]))
  {
    assert (xs + [x])[..|xs|] == xs;
  }
}
