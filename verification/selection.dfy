/** The create loop both variants share: walk the events in order and issue
    one request for each event the test keeps. The test is fixed before the
    walk starts; nothing the walk emits feeds back into it. */
module Selection {

  function Select<E, R>(xs: seq<E>, keep: E -> bool, make: E -> R): (out: seq<R>)
    ensures |out| <= |xs|
    ensures forall r :: r in out ==> exists i :: 0 <= i < |xs| && keep(xs[i]) && r == make(xs[i])
    decreases |xs|
  {
    if |xs| == 0 then []
    else
      var last := xs[|xs| - 1];
      Select(xs[..|xs| - 1], keep, make) + (if keep(last) then [make(last)] else [])
  }

  /** Every kept element yields its request. */
  lemma {:induction false} SelectComplete<E, R>(xs: seq<E>, keep: E -> bool, make: E -> R, i: nat)
    requires i < |xs| && keep(xs[i])
    ensures make(xs[i]) in Select(xs, keep, make)
    decreases |xs|
  {
    if i < |xs| - 1 {
      var init := xs[..|xs| - 1];
      assert init[i] == xs[i];
      SelectComplete(init, keep, make, i);
    }
  }

  /** Selecting from two runs in a row is selecting from each in turn. */
  lemma {:induction false} SelectAppend<E, R>(a: seq<E>, b: seq<E>, keep: E -> bool, make: E -> R)
    ensures Select(a + b, keep, make) == Select(a, keep, make) + Select(b, keep, make)
    decreases |b|
  {
    if |b| == 0 {
      assert a + b == a;
    } else {
      assert (a + b)[..|a + b| - 1] == a + b[..|b| - 1];
      SelectAppend(a, b[..|b| - 1], keep, make);
    }
  }

  /** One request per kept position, repetitions included. */
  lemma {:induction false} SelectCount<E, R>(xs: seq<E>, keep: E -> bool, make: E -> R)
    ensures |Select(xs, keep, make)| == |set i | 0 <= i < |xs| && keep(xs[i])|
    decreases |xs|
  {
    var kept := set i | 0 <= i < |xs| && keep(xs[i]);
    if |xs| == 0 {
      assert kept == {};
    } else {
      var n := |xs| - 1;
      var init := xs[..n];
      SelectCount(init, keep, make);
      var before := set i | 0 <= i < n && keep(init[i]);
      if keep(xs[n]) {
        assert kept == before + {n};
      } else {
        assert kept == before;
      }
    }
  }

  /** Nothing is emitted when the test keeps nothing. */
  lemma {:induction false} SelectNone<E, R>(xs: seq<E>, keep: E -> bool, make: E -> R)
    requires forall i :: 0 <= i < |xs| ==> !keep(xs[i])
    ensures Select(xs, keep, make) == []
    decreases |xs|
  {
    if |xs| > 0 {
      var init := xs[..|xs| - 1];
      assert forall i :: 0 <= i < |init| ==> init[i] == xs[i];
      SelectNone(init, keep, make);
    }
  }

  /** An element kept twice is emitted twice. */
  lemma SelectRepeated<E, R>(a: seq<E>, x: E, b: seq<E>, keep: E -> bool, make: E -> R)
    requires keep(x)
    ensures multiset(Select(a + [x] + b + [x], keep, make))[make(x)] >= 2
  {
    SelectAppend(a + [x] + b, [x], keep, make);
    SelectAppend(a + [x], b, keep, make);
    SelectAppend(a, [x], keep, make);
    assert [x][..0] == [];
    assert Select([x], keep, make) == [make(x)];
  }
}
