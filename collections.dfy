/**
 * The Swift collection operations the library is built from: `compactMap`,
 * which keeps only the elements a failable conversion accepts, and the
 * zero-filled run produced by `(0..<n).map { _ in UInt8(0) }`.
 */
module Collections {
  import opened Wrappers

  /** `xs.compactMap(f)`: the successful conversions, in order, the failures dropped. */
  function CompactMap<A, B>(xs: seq<A>, f: A -> Option<B>): (ys: seq<B>)
    ensures |ys| <= |xs|
  {
    if |xs| == 0 then []
    else match f(xs[0])
      case Some(y) => [y] + CompactMap(xs[1..], f)
      case None => CompactMap(xs[1..], f)
  }

  /** Nothing is dropped exactly when every conversion succeeds; then the result is the conversions in order. */
  lemma {:induction false} CompactMapAll<A, B>(xs: seq<A>, f: A -> Option<B>)
    ensures |CompactMap(xs, f)| == |xs| <==> (forall i :: 0 <= i < |xs| ==> f(xs[i]).Some?)
    ensures (forall i :: 0 <= i < |xs| ==> f(xs[i]).Some?) ==>
              forall i :: 0 <= i < |xs| ==> CompactMap(xs, f)[i] == f(xs[i]).value
  {
    if |xs| > 0 {
      CompactMapAll(xs[1..], f);
      if f(xs[0]).None? {
        assert |CompactMap(xs, f)| < |xs|;
      } else {
        assert forall i :: 1 <= i < |xs| ==> xs[i] == xs[1..][i - 1];
      }
    }
  }

  /** Every kept element is the conversion of some input element. */
  lemma {:induction false} CompactMapKept<A, B>(xs: seq<A>, f: A -> Option<B>, j: nat)
    requires j < |CompactMap(xs, f)|
    ensures exists i :: 0 <= i < |xs| && f(xs[i]) == Some(CompactMap(xs, f)[j])
  {
    if f(xs[0]).Some? && j == 0 {
      assert f(xs[0]) == Some(CompactMap(xs, f)[0]);
    } else {
      var j' := if f(xs[0]).Some? then j - 1 else j;
      CompactMapKept(xs[1..], f, j');
      var i :| 0 <= i < |xs[1..]| && f(xs[1..][i]) == Some(CompactMap(xs[1..], f)[j']);
      assert f(xs[i + 1]) == Some(CompactMap(xs, f)[j]);
    }
  }

  /** The positions of the elements `f` accepts, in increasing order. */
  function KeptIndices<A, B>(xs: seq<A>, f: A -> Option<B>): seq<nat>
  {
    if |xs| == 0 then []
    else (if f(xs[0]).Some? then [0] else []) + Shifted(KeptIndices(xs[1..], f))
  }

  /** Every position moved one place to the right. */
  function Shifted(ks: seq<nat>): (r: seq<nat>)
    ensures |r| == |ks| && forall j :: 0 <= j < |ks| ==> r[j] == ks[j] + 1
  {
    seq(|ks|, j requires 0 <= j < |ks| => ks[j] + 1)
  }

  /** `compactMap` keeps exactly the accepted elements, each once and in their
      original order: result `j` is the conversion of the element at the `j`-th
      accepted position, those positions increase strictly, and every accepted
      position is among them. */
  lemma {:induction false} CompactMapOrder<A, B>(xs: seq<A>, f: A -> Option<B>)
    ensures |KeptIndices(xs, f)| == |CompactMap(xs, f)|
    ensures forall j :: 0 <= j < |KeptIndices(xs, f)| ==>
              KeptIndices(xs, f)[j] < |xs| && f(xs[KeptIndices(xs, f)[j]]) == Some(CompactMap(xs, f)[j])
    ensures forall j, k :: 0 <= j < k < |KeptIndices(xs, f)| ==> KeptIndices(xs, f)[j] < KeptIndices(xs, f)[k]
    ensures forall i :: 0 <= i < |xs| && f(xs[i]).Some? ==> i in KeptIndices(xs, f)
  {
    KeptValues(xs, f);
    KeptIncreasing(xs, f);
    KeptCovers(xs, f);
  }

  lemma {:induction false} KeptValues<A, B>(xs: seq<A>, f: A -> Option<B>)
    ensures |KeptIndices(xs, f)| == |CompactMap(xs, f)|
    ensures forall j :: 0 <= j < |KeptIndices(xs, f)| ==>
              KeptIndices(xs, f)[j] < |xs| && f(xs[KeptIndices(xs, f)[j]]) == Some(CompactMap(xs, f)[j])
  {
    if |xs| > 0 {
      var rest := xs[1..];
      KeptValues(rest, f);
      var ks, ys := KeptIndices(rest, f), CompactMap(rest, f);
      var sh := Shifted(ks);
      var r, c := KeptIndices(xs, f), CompactMap(xs, f);
      forall j | 0 <= j < |ks| ensures xs[sh[j]] == rest[ks[j]] {}
      if f(xs[0]).Some? {
        assert r == [0] + sh && c == [f(xs[0]).value] + ys;
        forall j | 1 <= j < |r| ensures r[j] < |xs| && f(xs[r[j]]) == Some(c[j]) {
          assert r[j] == sh[j - 1] && c[j] == ys[j - 1];
        }
      } else {
        assert r == sh && c == ys;
      }
    }
  }

  lemma {:induction false} KeptIncreasing<A, B>(xs: seq<A>, f: A -> Option<B>)
    ensures forall j, k :: 0 <= j < k < |KeptIndices(xs, f)| ==> KeptIndices(xs, f)[j] < KeptIndices(xs, f)[k]
  {
    if |xs| > 0 {
      KeptIncreasing(xs[1..], f);
      var ks := KeptIndices(xs[1..], f);
      var sh := Shifted(ks);
      assert forall j, k :: 0 <= j < k < |sh| ==> sh[j] < sh[k] by {
        forall j, k | 0 <= j < k < |sh| ensures sh[j] < sh[k] {
          assert sh[j] == ks[j] + 1 && sh[k] == ks[k] + 1 && ks[j] < ks[k];
        }
      }
      var head: seq<nat> := if f(xs[0]).Some? then [0] else [];
      var r := KeptIndices(xs, f);
      assert r == head + sh;
      forall j, k | 0 <= j < k < |r| ensures r[j] < r[k] {
        if j < |head| {
          assert r[j] == 0 && r[k] == sh[k - 1] == ks[k - 1] + 1;
        } else {
          assert r[j] == sh[j - |head|] && r[k] == sh[k - |head|];
        }
      }
    }
  }

  lemma {:induction false} KeptCovers<A, B>(xs: seq<A>, f: A -> Option<B>)
    ensures forall i :: 0 <= i < |xs| && f(xs[i]).Some? ==> i in KeptIndices(xs, f)
  {
    if |xs| > 0 {
      var rest := xs[1..];
      KeptCovers(rest, f);
      var ks := KeptIndices(rest, f);
      var sh := Shifted(ks);
      var head: seq<nat> := if f(xs[0]).Some? then [0] else [];
      var r := KeptIndices(xs, f);
      assert r == head + sh;
      forall i | 0 <= i < |xs| && f(xs[i]).Some? ensures i in r {
        if i == 0 {
          assert r[0] == 0;
        } else {
          assert rest[i - 1] == xs[i];
          var j :| 0 <= j < |ks| && ks[j] == i - 1;
          assert r[|head| + j] == i;
        }
      }
    }
  }

  /** `compactMap` distributes over concatenation. */
  lemma {:induction false} CompactMapAppend<A, B>(xs: seq<A>, ys: seq<A>, f: A -> Option<B>)
    ensures CompactMap(xs + ys, f) == CompactMap(xs, f) + CompactMap(ys, f)
    decreases |xs|
  {
    if |xs| == 0 {
      assert xs + ys == ys;
    } else {
      assert (xs + ys)[0] == xs[0] && (xs + ys)[1..] == xs[1..] + ys;
      CompactMapAppend(xs[1..], ys, f);
    }
  }

  /** `n` copies of `x`. */
  function Repeat<T>(x: T, n: nat): (r: seq<T>)
    ensures |r| == n && forall i :: 0 <= i < n ==> r[i] == x
  {
    if n == 0 then [] else [x] + Repeat(x, n - 1)
  }
}
