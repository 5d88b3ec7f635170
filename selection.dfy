/**
 * Sequence operations the game state's move ranking is built from: the
 * maximum its first loop computes, the order-preserving filter of its second
 * loop, the running maximum of the minimax reply loop, and the collection of
 * per-move results in which the first failure wins.
 */
module Selection {
  import opened Wrappers

  /** The largest element: the value a strict `>` scan from the first element ends with. */
  function Max(xs: seq<real>): (m: real)
    requires |xs| > 0
    ensures m in xs
    ensures forall i :: 0 <= i < |xs| ==> xs[i] <= m
  {
    if |xs| == 1 then xs[0]
    else
      var init := xs[..|xs| - 1];
      assert forall i :: 0 <= i < |init| ==> init[i] == xs[i];
      var m := Max(init);
      if xs[|xs| - 1] > m then xs[|xs| - 1] else m
  }

  /** Max is determined by its two properties. */
  lemma MaxUnique(xs: seq<real>, b: real)
    requires b in xs
    requires forall i :: 0 <= i < |xs| ==> xs[i] <= b
    ensures Max(xs) == b
  {
  }

  /** The elements of `ms` whose weight in `ws` reaches `t`, in their original order. */
  function Keep<T>(ms: seq<T>, ws: seq<real>, t: real): seq<T>
    requires |ms| == |ws|
  {
    if |ms| == 0 then []
    else
      Keep(ms[..|ms| - 1], ws[..|ws| - 1], t)
      + (if ws[|ws| - 1] >= t then [ms[|ms| - 1]] else [])
  }

  /** Nothing survives a bar above every weight. */
  lemma {:induction false} KeepNone<T>(ms: seq<T>, ws: seq<real>, t: real)
    requires |ms| == |ws|
    requires forall i :: 0 <= i < |ws| ==> ws[i] < t
    ensures Keep(ms, ws, t) == []
  {
    if |ms| > 0 {
      KeepNone(ms[..|ms| - 1], ws[..|ws| - 1], t);
    }
  }

  /** Nothing survives a bar above the largest weight. */
  lemma KeepNoneAboveMax<T>(ms: seq<T>, ws: seq<real>, t: real)
    requires |ms| == |ws| > 0
    requires Max(ws) < t
    ensures Keep(ms, ws, t) == []
  {
    KeepNone(ms, ws, t);
  }

  /** `a` is `b` with some elements removed and the rest in the same order. */
  ghost predicate Subsequence<T>(a: seq<T>, b: seq<T>)
  {
    if |a| == 0 then true
    else if |b| == 0 then false
    else
      (a[|a| - 1] == b[|b| - 1] && Subsequence(a[..|a| - 1], b[..|b| - 1]))
      || Subsequence(a, b[..|b| - 1])
  }

  /** An element survives Keep exactly when one of its occurrences has enough weight. */
  lemma {:induction false} KeepMember<T>(ms: seq<T>, ws: seq<real>, t: real, x: T)
    requires |ms| == |ws|
    ensures x in Keep(ms, ws, t) <==> exists i :: 0 <= i < |ms| && ms[i] == x && ws[i] >= t
  {
    if |ms| > 0 {
      var n := |ms| - 1;
      KeepMember(ms[..n], ws[..n], t, x);
      if x in Keep(ms, ws, t) && x !in Keep(ms[..n], ws[..n], t) {
        assert ms[n] == x && ws[n] >= t;
      }
      if exists i :: 0 <= i < |ms| && ms[i] == x && ws[i] >= t {
        var i :| 0 <= i < |ms| && ms[i] == x && ws[i] >= t;
        if i < n {
          assert ms[..n][i] == x && ws[..n][i] >= t;
        }
      }
    }
  }

  /** Keep never reorders or invents elements. */
  lemma {:induction false} KeepIsSubsequence<T>(ms: seq<T>, ws: seq<real>, t: real)
    requires |ms| == |ws|
    ensures Subsequence(Keep(ms, ws, t), ms)
  {
    if |ms| > 0 {
      var n := |ms| - 1;
      var k := Keep(ms[..n], ws[..n], t);
      KeepIsSubsequence(ms[..n], ws[..n], t);
      if ws[n] >= t {
        assert (k + [ms[n]])[..|k|] == k;
      } else {
        assert k + [] == k;
        if |k| > 0 {}
      }
    }
  }

  /** Lowering the bar keeps everything that survived the higher bar, in order. */
  lemma {:induction false} KeepAntitone<T>(ms: seq<T>, ws: seq<real>, lo: real, hi: real)
    requires |ms| == |ws|
    requires lo <= hi
    ensures Subsequence(Keep(ms, ws, hi), Keep(ms, ws, lo))
  {
    if |ms| > 0 {
      var n := |ms| - 1;
      var kh, kl := Keep(ms[..n], ws[..n], hi), Keep(ms[..n], ws[..n], lo);
      KeepAntitone(ms[..n], ws[..n], lo, hi);
      if ws[n] >= hi {
        assert (kh + [ms[n]])[..|kh|] == kh;
        assert (kl + [ms[n]])[..|kl|] == kl;
      } else if ws[n] >= lo {
        assert kh + [] == kh;
        assert (kl + [ms[n]])[..|kl|] == kl;
        if |kh| > 0 {}
      } else {
        assert kh + [] == kh;
        assert kl + [] == kl;
      }
    }
  }

  /** One step of the reply loop; None stands for the initial minus infinity. */
  function Raise(best: Option<real>, x: real): Option<real>
  {
    if best.None? || x > best.value then Some(x) else best
  }

  /**
   * The reply loop run from `best` over `rs`: the first failure ends it,
   * otherwise the running maximum comes out.
   */
  function BestSoFar<E>(best: Option<real>, rs: seq<Result<real, E>>): Result<Option<real>, E>
    decreases |rs|
  {
    if |rs| == 0 then Ok(best)
    else if rs[0].Err? then Err(rs[0].error)
    else BestSoFar(Raise(best, rs[0].value), rs[1..])
  }

  /** The running maximum is the largest value seen, and it fails only on a failed entry. */
  lemma {:induction false} BestSoFarIsMax<E>(best: Option<real>, rs: seq<Result<real, E>>)
    ensures BestSoFar(best, rs).Err? <==> exists i :: 0 <= i < |rs| && rs[i].Err?
    ensures BestSoFar(best, rs) == Ok(None) <==> best.None? && |rs| == 0
    ensures BestSoFar(best, rs).Ok? && BestSoFar(best, rs).value.Some? ==>
      var b := BestSoFar(best, rs).value.value;
      && (best.Some? ==> best.value <= b)
      && (forall i :: 0 <= i < |rs| ==> rs[i].Ok? && rs[i].value <= b)
      && ((best.Some? && best.value == b) || exists i :: 0 <= i < |rs| && rs[i] == Ok(b))
    decreases |rs|
  {
    if |rs| > 0 && rs[0].Ok? {
      BestSoFarIsMax(Raise(best, rs[0].value), rs[1..]);
      assert forall i :: 1 <= i < |rs| ==> rs[i] == rs[1..][i - 1];
      var r := BestSoFar(best, rs);
      if r.Ok? && r.value.Some? {
        var b := r.value.value;
        if exists i :: 0 <= i < |rs[1..]| && rs[1..][i] == Ok(b) {
          var i :| 0 <= i < |rs[1..]| && rs[1..][i] == Ok(b);
          assert rs[i + 1] == Ok(b);
        }
      }
      if exists i :: 0 <= i < |rs| && rs[i].Err? {
        var i :| 0 <= i < |rs| && rs[i].Err?;
        assert rs[1..][i - 1].Err?;
      }
    }
  }

  /** When every result is a value, the running maximum from nothing is the largest value. */
  lemma BestSoFarOfValues<E>(rs: seq<Result<real, E>>, vs: seq<real>)
    requires |rs| == |vs| > 0
    requires forall i :: 0 <= i < |rs| ==> rs[i] == Ok(vs[i])
    ensures BestSoFar(None, rs) == Ok(Some(Max(vs)))
  {
    BestSoFarIsMax(None, rs);
    var r := BestSoFar(None, rs);
    assert rs[0] == Ok(vs[0]);
    var b := r.value.value;
    var i :| 0 <= i < |rs| && rs[i] == Ok(b);
    MaxUnique(vs, b);
  }

  /**
   * All results when every entry succeeded; otherwise the first failure, as
   * evaluating a list of calls in order does.
   */
  function Collect<T, E>(rs: seq<Result<T, E>>): (r: Result<seq<T>, E>)
    ensures r.Ok? <==> forall i :: 0 <= i < |rs| ==> rs[i].Ok?
    ensures r.Ok? ==> |r.value| == |rs| && forall i :: 0 <= i < |rs| ==> rs[i] == Ok(r.value[i])
    ensures r.Err? ==> exists k :: 0 <= k < |rs| && rs[k] == Err(r.error) && forall j :: 0 <= j < k ==> rs[j].Ok?
  {
    if |rs| == 0 then Ok([])
    else if rs[0].Err? then Err(rs[0].error)
    else
      var rest := Collect(rs[1..]);
      assert forall i :: 1 <= i < |rs| ==> rs[i] == rs[1..][i - 1];
      match rest
      case Ok(vs) => Ok([rs[0].value] + vs)
      case Err(x) => Err(x)
  }
}
