/** Two ways of combining a sequence of partial results, in order:
    concatenating what each step yields (a generator that yields from several
    sources in turn), and collecting the results of steps any of which may
    raise (a loop that stops at the first exception). */
module Sequences {
  import opened Wrappers

  function Concat<T>(xss: seq<seq<T>>): seq<T> {
    if xss == [] then [] else Concat(xss[..|xss| - 1]) + xss[|xss| - 1]
  }

  /** Concatenation is compositional. */
  lemma {:induction false} ConcatAppend<T>(a: seq<seq<T>>, b: seq<seq<T>>)
    ensures Concat(a + b) == Concat(a) + Concat(b)
  {
    if b == [] {
      assert a + b == a;
    } else {
      var n := |b| - 1;
      assert (a + b)[..|a + b| - 1] == a + b[..n];
      assert (a + b)[|a + b| - 1] == b[n];
      ConcatAppend(a, b[..n]);
    }
  }

  lemma ConcatSingleton<T>(x: seq<T>)
    ensures Concat([x]) == x
  {
    var xss := [x];
    assert xss[..0] == [];
  }

  /** One part between two runs of parts stands between their concatenations,
      and an empty part can be dropped. */
  lemma ConcatAround<T>(a: seq<seq<T>>, x: seq<T>, b: seq<seq<T>>)
    ensures Concat(a + [x] + b) == Concat(a) + x + Concat(b)
    ensures x == [] ==> Concat(a + [x] + b) == Concat(a + b)
  {
    ConcatAppend(a + [x], b);
    ConcatAppend(a, [x]);
    ConcatAppend(a, b);
    ConcatSingleton(x);
    if x == [] {
      assert Concat(a) + x == Concat(a);
    }
  }

  /** Equal surroundings have equal middles. */
  lemma MiddleCancel<T>(p: seq<T>, x: seq<T>, y: seq<T>, q: seq<T>)
    requires p + x + q == p + y + q
    ensures x == y
  {
    var s := p + x + q;
    assert |x| == |y|;
    assert s[|p|..|p| + |x|] == x;
    assert (p + y + q)[|p|..|p| + |y|] == y;
  }

  /** `f` applied to each element, in order. */
  function Map<A, B>(f: A -> B, xs: seq<A>): (r: seq<B>)
    ensures |r| == |xs|
    ensures forall k :: 0 <= k < |xs| ==> r[k] == f(xs[k])
  {
    seq(|xs|, k requires 0 <= k < |xs| => f(xs[k]))
  }

  /** Mapping is compositional. */
  lemma MapAppend<A, B>(f: A -> B, xs: seq<A>, ys: seq<A>)
    ensures Map(f, xs + ys) == Map(f, xs) + Map(f, ys)
  {
    var l, r := Map(f, xs + ys), Map(f, xs) + Map(f, ys);
    forall k | 0 <= k < |l| ensures l[k] == r[k] {
      if k < |xs| {
        assert (xs + ys)[k] == xs[k];
      } else {
        assert (xs + ys)[k] == ys[k - |xs|];
      }
    }
  }

  /** Extending a prefix by one element. */
  lemma PrefixSnoc<T>(s: seq<T>, i: nat)
    requires i < |s|
    ensures s[..i + 1] == s[..i] + [s[i]]
  {
  }

  /** An element of the concatenation comes from one of the parts, and every
      element of every part is in it. */
  lemma {:induction false} ConcatMembers<T>(xss: seq<seq<T>>)
    ensures forall x :: x in Concat(xss) <==> exists k :: 0 <= k < |xss| && x in xss[k]
  {
    if xss != [] {
      var n := |xss| - 1;
      var init := xss[..n];
      ConcatMembers(init);
      forall x
        ensures x in Concat(xss) <==> exists k :: 0 <= k < |xss| && x in xss[k]
      {
        if x in Concat(xss) && x !in Concat(init) {
          assert x in xss[n];
        }
        if exists k :: 0 <= k < |xss| && x in xss[k] {
          var k :| 0 <= k < |xss| && x in xss[k];
          if k < n {
            assert init[k] == xss[k];
          }
        }
      }
    }
  }

  /** Parts of at most one element each concatenate to at most that many elements. */
  lemma {:induction false} ConcatLength<T>(xss: seq<seq<T>>)
    requires forall k :: 0 <= k < |xss| ==> |xss[k]| <= 1
    ensures |Concat(xss)| <= |xss|
  {
    if xss != [] {
      ConcatLength(xss[..|xss| - 1]);
    }
  }

  /** All the values when every step succeeded, `None` when any step raised. */
  function Collect<T>(xs: seq<Option<T>>): Option<seq<T>> {
    if xs == [] then Some([])
    else
      match Collect(xs[..|xs| - 1])
      case None => None
      case Some(vs) =>
        match xs[|xs| - 1]
        case None => None
        case Some(v) => Some(vs + [v])
  }

  lemma CollectSnoc<T>(xs: seq<Option<T>>, x: Option<T>)
    ensures Collect(xs + [x]) == match Collect(xs)
      case None => None
      case Some(vs) => if x.None? then None else Some(vs + [x.value])
  {
    assert (xs + [x])[..|xs|] == xs;
  }

  /** The collection succeeds exactly when every step does, and then holds
      each step's value in step order. */
  lemma {:induction false} CollectValues<T>(xs: seq<Option<T>>)
    ensures Collect(xs).Some? <==> forall k :: 0 <= k < |xs| ==> xs[k].Some?
    ensures Collect(xs).Some? ==>
      |Collect(xs).value| == |xs| && forall k :: 0 <= k < |xs| ==> Collect(xs).value[k] == xs[k].value
  {
    if xs != [] {
      var n := |xs| - 1;
      var init := xs[..n];
      CollectValues(init);
      if Collect(init).None? {
        var k :| 0 <= k < |init| && init[k].None?;
        assert xs[k] == init[k];
      } else if xs[n].Some? {
        var vs := Collect(init).value + [xs[n].value];
        forall k | 0 <= k < |xs| ensures vs[k] == xs[k].value {
          if k < n {
            assert xs[k] == init[k];
          }
        }
      }
    }
  }
}
