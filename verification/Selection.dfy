/**
 The elements of a sequence that satisfy a predicate, in order, told by their
 positions.
 */
module Selection {

  /** `js` are the positions of the elements of `s` that satisfy `p`, in order. */
  ghost predicate Positions<T>(s: seq<T>, p: T -> bool, js: seq<int>) {
    && (forall k :: 0 <= k < |js| ==> 0 <= js[k] < |s| && p(s[js[k]]))
    && (forall k, l :: 0 <= k < l < |js| ==> js[k] < js[l])
    && (forall i :: 0 <= i < |s| && p(s[i]) ==> i in js)
  }

  ghost predicate At<T>(s: seq<T>, js: seq<int>, out: seq<T>) {
    && |js| == |out|
    && forall k :: 0 <= k < |js| ==> 0 <= js[k] < |s| && out[k] == s[js[k]]
  }

  /** `out` holds exactly the elements of `s` that satisfy `p`, each as often
      and in the order of `s`. */
  ghost predicate Selects<T>(s: seq<T>, p: T -> bool, out: seq<T>) {
    exists js :: Positions(s, p, js) && At(s, js, out)
  }

  lemma SelectNone<T>(p: T -> bool)
    ensures Selects([], p, [])
  {
    var none: seq<T> := [];
    assert Positions(none, p, []) && At(none, [], none);
  }

  lemma PositionsMore<T>(s: seq<T>, p: T -> bool, js: seq<int>, x: T)
    requires Positions(s, p, js)
    ensures p(x) ==> Positions(s + [x], p, js + [|s|])
    ensures !p(x) ==> Positions(s + [x], p, js)
  {
    var js' := if p(x) then js + [|s|] else js;
    forall i | 0 <= i < |s + [x]| && p((s + [x])[i]) ensures i in js' {
      if i < |s| {
        assert s[i] == (s + [x])[i];
        assert i in js;
      } else {
        assert js'[|js|] == i;
      }
    }
  }

  lemma AtMore<T>(s: seq<T>, js: seq<int>, out: seq<T>, x: T)
    requires At(s, js, out)
    ensures At(s + [x], js, out) && At(s + [x], js + [|s|], out + [x])
  {
  }

  lemma SelectMore<T>(s: seq<T>, p: T -> bool, out: seq<T>, x: T)
    requires Selects(s, p, out)
    ensures Selects(s + [x], p, if p(x) then out + [x] else out)
  {
    hide Positions, At;
    var js :| Positions(s, p, js) && At(s, js, out);
    PositionsMore(s, p, js, x);
    AtMore(s, js, out, x);
  }

  /** Nothing is selected exactly when no element satisfies the predicate. */
  lemma SelectEmpty<T>(s: seq<T>, p: T -> bool, out: seq<T>)
    requires Selects(s, p, out)
    ensures out == [] <==> forall i :: 0 <= i < |s| ==> !p(s[i])
  {
    var js :| Positions(s, p, js) && At(s, js, out);
    if out != [] {
      assert p(s[js[0]]);
    }
  }
}
