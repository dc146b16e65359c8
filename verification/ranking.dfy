/**
  `np.argsort(similarities)[-k:][::-1]` as `_extract_relevant_sentences`
  (src/llm_utils/rag_handler.py) uses it: the indices of the `k` highest
  scores, highest first. Equal scores are ordered as a stable ascending sort
  orders them, so after the reversal the later index comes first.
*/
module Ranking {
  import opened Wrappers

  /** Index `a` ranks above index `b`: a higher score, or the same score and a
      later position. */
  predicate Above(xs: seq<real>, a: nat, b: nat)
  {
    a < |xs| && b < |xs| && (xs[a] > xs[b] || (xs[a] == xs[b] && a > b))
  }

  predicate Distinct(s: seq<nat>)
  {
    forall i, j :: 0 <= i < j < |s| ==> s[i] != s[j]
  }

  /** Every element of `t` is an index of `xs` outside `taken`. */
  predicate FreshIndices(xs: seq<real>, taken: set<nat>, t: seq<nat>)
  {
    forall i :: 0 <= i < |t| ==> t[i] < |xs| && t[i] !in taken
  }

  /** Each element of `t` ranks above the next. */
  predicate Descending(xs: seq<real>, t: seq<nat>)
  {
    forall i :: 0 <= i < |t| - 1 ==> Above(xs, t[i], t[i + 1])
  }

  /** Each element of `t` ranks above every index neither in `taken` nor in `t`. */
  predicate AboveRest(xs: seq<real>, taken: set<nat>, t: seq<nat>)
  {
    forall i, j :: 0 <= i < |t| && 0 <= j < |xs| && j !in taken && j !in t ==> Above(xs, t[i], j)
  }

  /** `t` has at most `k` elements, and fewer only when it holds every index
      outside `taken`. */
  predicate FullUpTo(xs: seq<real>, taken: set<nat>, t: seq<nat>, k: nat)
  {
    |t| <= k && (|t| < k ==> forall j :: 0 <= j < |xs| ==> j in taken || j in t)
  }

  /** The index below `n` and outside `taken` that ranks above all others
      there; `None` when every index below `n` is taken. */
  function BestBelow(xs: seq<real>, taken: set<nat>, n: nat): (b: Option<nat>)
    requires n <= |xs|
    ensures b.None? ==> forall j :: 0 <= j < n ==> j in taken
    ensures b.Some? ==> b.value < n && b.value !in taken
    ensures b.Some? ==> forall j :: 0 <= j < n && j !in taken && j != b.value ==> Above(xs, b.value, j)
  {
    if n == 0 then None
    else
      var b := BestBelow(xs, taken, n - 1);
      if n - 1 in taken then b
      else if b.Some? && Above(xs, b.value, n - 1) then b
      else Some(n - 1)
  }

  /** Up to `k` indices outside `taken`, best first, by repeatedly taking the
      best index left. */
  function Pick(xs: seq<real>, taken: set<nat>, k: nat): seq<nat>
    decreases k
  {
    if k == 0 then []
    else
      match BestBelow(xs, taken, |xs|)
      case None => []
      case Some(m) => [m] + Pick(xs, taken + {m}, k - 1)
  }

  /** Every picked index is an index of `xs` outside `taken`. */
  lemma {:induction false} PickFresh(xs: seq<real>, taken: set<nat>, k: nat)
    ensures FreshIndices(xs, taken, Pick(xs, taken, k))
    decreases k
  {
    if k > 0 && BestBelow(xs, taken, |xs|).Some? {
      var m := BestBelow(xs, taken, |xs|).value;
      PickFresh(xs, taken + {m}, k - 1);
      var t := Pick(xs, taken, k);
      var u := Pick(xs, taken + {m}, k - 1);
      assert t == [m] + u;
      forall i | 0 <= i < |t|
        ensures t[i] < |xs| && t[i] !in taken
      {
        if i == 0 {
          assert t[i] == m;
        } else {
          assert t[i] == u[i - 1];
        }
      }
    }
  }

  /** No index is picked twice. */
  lemma {:induction false} PickDistinct(xs: seq<real>, taken: set<nat>, k: nat)
    ensures Distinct(Pick(xs, taken, k))
    decreases k
  {
    if k > 0 && BestBelow(xs, taken, |xs|).Some? {
      var m := BestBelow(xs, taken, |xs|).value;
      PickDistinct(xs, taken + {m}, k - 1);
      PickFresh(xs, taken + {m}, k - 1);
      var t := Pick(xs, taken, k);
      var u := Pick(xs, taken + {m}, k - 1);
      assert t == [m] + u;
      forall i, j | 0 <= i < j < |t|
        ensures t[i] != t[j]
      {
        assert t[j] == u[j - 1];
        if i > 0 {
          assert t[i] == u[i - 1];
        }
      }
    }
  }

  /** Each picked index ranks above the next one. */
  lemma {:induction false} PickOrdered(xs: seq<real>, taken: set<nat>, k: nat)
    ensures Descending(xs, Pick(xs, taken, k))
    decreases k
  {
    if k > 0 && BestBelow(xs, taken, |xs|).Some? {
      var m := BestBelow(xs, taken, |xs|).value;
      PickOrdered(xs, taken + {m}, k - 1);
      PickFresh(xs, taken + {m}, k - 1);
      var t := Pick(xs, taken, k);
      var u := Pick(xs, taken + {m}, k - 1);
      assert t == [m] + u;
      forall i | 0 <= i < |t| - 1
        ensures Above(xs, t[i], t[i + 1])
      {
        if i == 0 {
          assert t[1] == u[0];
        } else {
          assert t[i] == u[i - 1] && t[i + 1] == u[i];
        }
      }
    }
  }

  /** Each picked index ranks above every index neither taken nor picked. */
  lemma {:induction false} PickAboveRest(xs: seq<real>, taken: set<nat>, k: nat)
    ensures AboveRest(xs, taken, Pick(xs, taken, k))
    decreases k
  {
    if k > 0 && BestBelow(xs, taken, |xs|).Some? {
      var m := BestBelow(xs, taken, |xs|).value;
      PickAboveRest(xs, taken + {m}, k - 1);
      var t := Pick(xs, taken, k);
      var u := Pick(xs, taken + {m}, k - 1);
      assert t == [m] + u;
      assert t[0] == m;
      forall i, j | 0 <= i < |t| && 0 <= j < |xs| && j !in taken && j !in t
        ensures Above(xs, t[i], j)
      {
        assert j != m;
        if i > 0 {
          assert t[i] == u[i - 1];
          assert j !in u by {
            forall p | 0 <= p < |u| ensures u[p] != j { assert t[p + 1] == u[p]; }
          }
        }
      }
    }
  }

  /** At most `k` indices are picked, and fewer only when every index is
      taken or picked. */
  lemma {:induction false} PickCount(xs: seq<real>, taken: set<nat>, k: nat)
    ensures FullUpTo(xs, taken, Pick(xs, taken, k), k)
    decreases k
  {
    if k > 0 && BestBelow(xs, taken, |xs|).Some? {
      var m := BestBelow(xs, taken, |xs|).value;
      PickCount(xs, taken + {m}, k - 1);
      var t := Pick(xs, taken, k);
      var u := Pick(xs, taken + {m}, k - 1);
      assert t == [m] + u;
      if |t| < k {
        forall j | 0 <= j < |xs|
          ensures j in taken || j in t
        {
          if j != m && j !in taken {
            var p :| 0 <= p < |u| && u[p] == j;
            assert t[p + 1] == j;
          }
        }
      }
    }
  }

  /**
    `np.argsort(xs)[-k:][::-1]`: distinct indices of `xs`, each ranking above
    the next and above every index left out; `k` of them, or all of them when
    `xs` has fewer.
  */
  function TopIndices(xs: seq<real>, k: nat): (t: seq<nat>)
    ensures |t| <= k && (|t| < k ==> forall j :: 0 <= j < |xs| ==> j in t)
    ensures forall i :: 0 <= i < |t| ==> t[i] < |xs|
    ensures Distinct(t)
    ensures forall i :: 0 <= i < |t| - 1 ==> Above(xs, t[i], t[i + 1])
    ensures forall i, j :: 0 <= i < |t| && 0 <= j < |xs| && j !in t ==> Above(xs, t[i], j)
  {
    PickFresh(xs, {}, k);
    PickDistinct(xs, {}, k);
    PickOrdered(xs, {}, k);
    PickAboveRest(xs, {}, k);
    PickCount(xs, {}, k);
    Pick(xs, {}, k)
  }

  /** In a sequence each of whose elements ranks above the next, the first
      element ranks above every later one. */
  lemma {:induction false} AboveChain(xs: seq<real>, t: seq<nat>, p: nat)
    requires 0 < p < |t|
    requires forall i :: 0 <= i < |t| - 1 ==> Above(xs, t[i], t[i + 1])
    ensures Above(xs, t[0], t[p])
    decreases p
  {
    if p > 1 {
      AboveChain(xs, t, p - 1);
      assert Above(xs, t[p - 1], t[p]);
    }
  }

  /** With at least one score and `k > 0`, something is selected, and the
      first index selected ranks above every other index. */
  lemma TopIndicesFirst(xs: seq<real>, k: nat)
    requires |xs| > 0 && k > 0
    ensures |TopIndices(xs, k)| > 0
    ensures forall j :: 0 <= j < |xs| && j != TopIndices(xs, k)[0] ==> Above(xs, TopIndices(xs, k)[0], j)
  {
    var t := TopIndices(xs, k);
    if |t| < k {
      assert 0 in t;
    }
    forall j | 0 <= j < |xs| && j != t[0]
      ensures Above(xs, t[0], j)
    {
      if j in t {
        var p :| 0 <= p < |t| && t[p] == j;
        AboveChain(xs, t, p);
      }
    }
  }

  /** The indices below `n`. */
  function Below(n: nat): (b: set<nat>)
    ensures forall j: nat :: j in b <==> j < n
    ensures |b| == n
  {
    if n == 0 then {} else
      var b := Below(n - 1);
      assert n - 1 !in b;
      b + {n - 1}
  }

  /** The elements of `s`; as many as its entries when they are distinct. */
  function Elements(s: seq<nat>): (e: set<nat>)
    ensures forall x :: x in e <==> x in s
    ensures Distinct(s) ==> |e| == |s|
  {
    if |s| == 0 then {} else
      var front := s[..|s| - 1];
      var e := Elements(front);
      assert s == front + [s[|s| - 1]];
      assert Distinct(s) ==> Distinct(front) && s[|s| - 1] !in front;
      e + {s[|s| - 1]}
  }

  /** A subset is no larger than its superset. */
  lemma {:induction false} SubsetCard(a: set<nat>, b: set<nat>)
    requires a <= b
    ensures |a| <= |b|
    decreases |a|
  {
    if a != {} {
      var x :| x in a;
      SubsetCard(a - {x}, b - {x});
    }
  }

  /** `min(k, |xs|)` indices are selected. */
  lemma TopIndicesLength(xs: seq<real>, k: nat)
    ensures |TopIndices(xs, k)| == if |xs| < k then |xs| else k
  {
    var t := TopIndices(xs, k);
    var e := Elements(t);
    var b := Below(|xs|);
    SubsetCard(e, b);
    if |t| < k {
      SubsetCard(b, e);
    }
  }
}
