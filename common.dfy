/** Small shared vocabulary: an optional value and the positions a filter keeps. */
module Common {

  /** An optional value; `:-` on it propagates `None`. */
  datatype Option<+T> = None | Some(value: T) {
    predicate IsFailure() { None? }

    function PropagateFailure<U>(): Option<U>
      requires None?
    {
      None
    }

    function Extract(): T
      requires Some?
    {
      value
    }
  }

  function Min(a: int, b: int): int { if a <= b then a else b }

  /** The positions of `s` at which `f` gives a value, in increasing order. */
  ghost function Selected<A, B>(s: seq<A>, f: A -> Option<B>): (idx: seq<nat>)
    ensures forall k :: 0 <= k < |idx| ==> idx[k] < |s| && f(s[idx[k]]).Some?
    ensures forall a, b :: 0 <= a < b < |idx| ==> idx[a] < idx[b]
    ensures forall i :: 0 <= i < |s| && f(s[i]).Some? ==> i in idx
  {
    if |s| == 0 then []
    else
      var prev := Selected(s[..|s| - 1], f);
      assert forall k :: 0 <= k < |prev| ==> s[..|s| - 1][prev[k]] == s[prev[k]];
      if f(s[|s| - 1]).Some? then prev + [|s| - 1] else prev
  }

  /** A list comprehension with a filter, `[g(x) for x in s if p(x)]`, written with
      `f(x) == if p(x) then Some(g(x)) else None`: the values `f` gives, in the order of `s`. */
  function FilterMap<A, B>(s: seq<A>, f: A -> Option<B>): (r: seq<B>)
    ensures |r| == |Selected(s, f)| <= |s|
    ensures forall k :: 0 <= k < |r| ==> f(s[Selected(s, f)[k]]) == Some(r[k])
  {
    if |s| == 0 then []
    else
      var prev := FilterMap(s[..|s| - 1], f);
      var idx := Selected(s[..|s| - 1], f);
      assert forall k :: 0 <= k < |idx| ==> s[..|s| - 1][idx[k]] == s[idx[k]];
      match f(s[|s| - 1])
      case Some(y) => prev + [y]
      case None => prev
  }

  /** What `f` gives at the first of the positions i..n where it gives anything: a
      leftmost search. */
  function FirstSome<B>(f: nat -> Option<B>, i: nat, n: nat): (r: Option<B>)
    requires i <= n
    ensures r.Some? <==> exists k :: i <= k <= n && f(k).Some?
    decreases n - i
  {
    if f(i).Some? then f(i) else if i == n then None else FirstSome(f, i + 1, n)
  }

  /** The position whose value the search returns: every earlier attempt fails. */
  lemma {:induction false} FirstSomeLeftmost<B>(f: nat -> Option<B>, i: nat, n: nat) returns (k: nat)
    requires i <= n && FirstSome(f, i, n).Some?
    ensures i <= k <= n && f(k) == FirstSome(f, i, n)
    ensures forall k' :: i <= k' < k ==> f(k').None?
    decreases n - i
  {
    if f(i).Some? {
      k := i;
    } else {
      k := FirstSomeLeftmost(f, i + 1, n);
    }
  }

  /** Filters that agree on every element of `s` keep the same values from it. */
  lemma {:induction false} FilterMapCongruent<A, B>(s: seq<A>, f: A -> Option<B>, g: A -> Option<B>)
    requires forall x :: x in s ==> f(x) == g(x)
    ensures FilterMap(s, f) == FilterMap(s, g)
  {
    if |s| > 0 {
      FilterMapCongruent(s[..|s| - 1], f, g);
    }
  }

  /** A filter that keeps nothing yields nothing. */
  lemma {:induction false} FilterMapNone<A, B>(s: seq<A>, f: A -> Option<B>)
    requires forall x :: x in s ==> f(x).None?
    ensures FilterMap(s, f) == []
  {
    if |s| > 0 {
      FilterMapNone(s[..|s| - 1], f);
    }
  }
}
