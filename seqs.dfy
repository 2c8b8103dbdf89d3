/**
 * Sequence shapes the scraper's loops build: keeping the values a partial
 * function gives (the row filter), the same over a sequence of sequences
 * (tables of rows), and reversal (list.reverse()).
 */
module Seqs {
  import opened Wrappers

  /** The values f gives for the elements of xs it accepts, in order. */
  function FilterMap<A, B>(xs: seq<A>, f: A -> Option<B>): seq<B>
    decreases |xs|
  {
    if xs == [] then []
    else
      var last := f(xs[|xs| - 1]);
      FilterMap(xs[..|xs| - 1], f) + (if last.Some? then [last.value] else [])
  }

  /** FilterMap over each inner sequence, concatenated in order. */
  function FlatFilterMap<A, B>(xss: seq<seq<A>>, f: A -> Option<B>): seq<B>
    decreases |xss|
  {
    if xss == [] then []
    else FlatFilterMap(xss[..|xss| - 1], f) + FilterMap(xss[|xss| - 1], f)
  }

  lemma FilterMapSnoc<A, B>(xs: seq<A>, f: A -> Option<B>, r: nat)
    requires r < |xs|
    ensures FilterMap(xs[..r + 1], f) ==
      FilterMap(xs[..r], f) + (if f(xs[r]).Some? then [f(xs[r]).value] else [])
  {
    assert xs[..r + 1][..r] == xs[..r];
  }

  lemma FlatFilterMapSnoc<A, B>(xss: seq<seq<A>>, f: A -> Option<B>, t: nat)
    requires t < |xss|
    ensures FlatFilterMap(xss[..t + 1], f) == FlatFilterMap(xss[..t], f) + FilterMap(xss[t], f)
  {
    assert xss[..t + 1][..t] == xss[..t];
  }

  lemma FlatFilterMapSingle<A, B>(x: A, f: A -> Option<B>)
    ensures FlatFilterMap([[x]], f) == if f(x).Some? then [f(x).value] else []
  {
    var xs: seq<A> := [x];
    var xss: seq<seq<A>> := [xs];
    var none: seq<A> := [];
    var nones: seq<seq<A>> := [];
    assert xs[..0] == none && xss[..0] == nones;
    assert FlatFilterMap(xss, f) == FilterMap(xs, f);
  }

  /** Every value kept is what f gives for some element. */
  lemma {:induction false} FilterMapSound<A, B>(xs: seq<A>, f: A -> Option<B>)
    ensures forall k :: 0 <= k < |FilterMap(xs, f)| ==>
      exists r :: 0 <= r < |xs| && f(xs[r]) == Some(FilterMap(xs, f)[k])
    decreases |xs|
  {
    if xs != [] {
      var n := |xs| - 1;
      var front := xs[..n];
      FilterMapSound(front, f);
      var ps := FilterMap(xs, f);
      var pf := FilterMap(front, f);
      forall k | 0 <= k < |ps|
        ensures exists r :: 0 <= r < |xs| && f(xs[r]) == Some(FilterMap(xs, f)[k])
      {
        if k < |pf| {
          assert ps[k] == pf[k];
          var r :| 0 <= r < |front| && f(front[r]) == Some(pf[k]);
          assert front[r] == xs[r];
        } else {
          assert f(xs[n]) == Some(ps[k]);
        }
      }
      assert forall k :: 0 <= k < |ps| ==> exists r :: 0 <= r < |xs| && f(xs[r]) == Some(ps[k]);
    } else {
      assert FilterMap(xs, f) == [];
    }
  }

  /** Every value f gives for an element is kept. */
  lemma {:induction false} FilterMapComplete<A, B>(xs: seq<A>, f: A -> Option<B>)
    ensures forall r :: 0 <= r < |xs| && f(xs[r]).Some? ==> f(xs[r]).value in FilterMap(xs, f)
    decreases |xs|
  {
    if xs != [] {
      var n := |xs| - 1;
      var front := xs[..n];
      FilterMapComplete(front, f);
      assert forall r :: 0 <= r < n ==> front[r] == xs[r];
    }
  }

  /** Nothing is kept exactly when f accepts no element. */
  lemma {:induction false} FilterMapEmpty<A, B>(xs: seq<A>, f: A -> Option<B>)
    ensures FilterMap(xs, f) == [] <==> forall r :: 0 <= r < |xs| ==> f(xs[r]).None?
    decreases |xs|
  {
    if xs != [] {
      var n := |xs| - 1;
      FilterMapEmpty(xs[..n], f);
      assert forall r :: 0 <= r < n ==> xs[..n][r] == xs[r];
    }
  }

  /** Over a sequence of sequences, nothing is kept exactly when f accepts no
      element of any inner sequence. */
  lemma {:induction false} FlatFilterMapEmpty<A, B>(xss: seq<seq<A>>, f: A -> Option<B>)
    ensures FlatFilterMap(xss, f) == [] <==>
      forall t, r :: 0 <= t < |xss| && 0 <= r < |xss[t]| ==> f(xss[t][r]).None?
    decreases |xss|
  {
    if xss != [] {
      var n := |xss| - 1;
      FlatFilterMapEmpty(xss[..n], f);
      assert forall t :: 0 <= t < n ==> xss[..n][t] == xss[t];
      FilterMapEmpty(xss[n], f);
    }
  }

  /** Every value kept from a sequence of sequences is what f gives for some
      element of some inner sequence. */
  lemma {:induction false} FlatFilterMapSound<A, B>(xss: seq<seq<A>>, f: A -> Option<B>)
    ensures forall k :: 0 <= k < |FlatFilterMap(xss, f)| ==>
      exists t, r :: 0 <= t < |xss| && 0 <= r < |xss[t]| && f(xss[t][r]) == Some(FlatFilterMap(xss, f)[k])
    decreases |xss|
  {
    if xss != [] {
      var n := |xss| - 1;
      var front := xss[..n];
      FlatFilterMapSound(front, f);
      FilterMapSound(xss[n], f);
      var ps := FlatFilterMap(xss, f);
      var pf := FlatFilterMap(front, f);
      var pl := FilterMap(xss[n], f);
      assert ps == pf + pl;
      forall k | 0 <= k < |ps|
        ensures exists t, r :: 0 <= t < |xss| && 0 <= r < |xss[t]| && f(xss[t][r]) == Some(ps[k])
      {
        if k < |pf| {
          assert ps[k] == pf[k];
          var t, r :| 0 <= t < |front| && 0 <= r < |front[t]| && f(front[t][r]) == Some(pf[k]);
          assert front[t] == xss[t];
        } else {
          assert ps[k] == pl[k - |pf|];
          var r :| 0 <= r < |xss[n]| && f(xss[n][r]) == Some(pl[k - |pf|]);
          assert f(xss[n][r]) == Some(ps[k]);
        }
      }
      assert forall k :: 0 <= k < |ps| ==>
        exists t, r :: 0 <= t < |xss| && 0 <= r < |xss[t]| && f(xss[t][r]) == Some(ps[k]);
    } else {
      assert FlatFilterMap(xss, f) == [];
    }
  }

  /** Every value f gives for an element of an inner sequence is kept. */
  lemma {:induction false} FlatFilterMapComplete<A, B>(xss: seq<seq<A>>, f: A -> Option<B>)
    ensures forall t, r :: 0 <= t < |xss| && 0 <= r < |xss[t]| && f(xss[t][r]).Some? ==>
      f(xss[t][r]).value in FlatFilterMap(xss, f)
    decreases |xss|
  {
    if xss != [] {
      var n := |xss| - 1;
      FlatFilterMapComplete(xss[..n], f);
      FilterMapComplete(xss[n], f);
      assert forall t :: 0 <= t < n ==> xss[..n][t] == xss[t];
    }
  }

  function Reversed<T>(s: seq<T>): seq<T>
    decreases |s|
  {
    if s == [] then [] else Reversed(s[1..]) + [s[0]]
  }

  /** Position k of the reversal holds the element k places from the end. */
  lemma {:induction false} ReversedAt<T>(s: seq<T>, k: nat)
    requires k < |s|
    ensures |Reversed(s)| == |s| && Reversed(s)[k] == s[|s| - 1 - k]
    decreases |s|
  {
    if |s| > 1 {
      ReversedAt(s[1..], if k < |s| - 1 then k else 0);
    }
  }
}
