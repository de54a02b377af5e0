/**
 * Option and Result values standing for Python's `None` results and raised
 * exceptions, and the list and number facts several modules share.
 */
module Wrappers {

  datatype Option<+T> = None | Some(value: T)

  /** The exception kinds the modelled code can raise. */
  datatype Error = KeyError | ValueError | IndexError

  datatype Result<+R> = Success(value: R) | Failure(error: Error)

  /**
   * `f` applied to every element in order, stopping at the first `None`:
   * a loop whose body may raise.
   */
  function Traverse<A, B>(f: A -> Option<B>, xs: seq<A>): Option<seq<B>>
  {
    if xs == [] then Some([])
    else
      match Traverse(f, xs[..|xs| - 1])
      case None => None
      case Some(ys) =>
        match f(xs[|xs| - 1])
        case None => None
        case Some(y) => Some(ys + [y])
  }

  /** One more element processed. */
  lemma TraverseStep<A, B>(f: A -> Option<B>, xs: seq<A>, k: nat)
    requires k < |xs|
    ensures Traverse(f, xs[..k + 1]) ==
              match Traverse(f, xs[..k])
              case None => None
              case Some(ys) =>
                match f(xs[k])
                case None => None
                case Some(y) => Some(ys + [y])
  {
    var pre := xs[..k + 1];
    assert pre[..|pre| - 1] == xs[..k];
  }

  /** The traversal fails exactly when `f` fails on some element. */
  lemma {:induction false} TraverseFails<A, B>(f: A -> Option<B>, xs: seq<A>)
    ensures Traverse(f, xs).None? <==> exists i :: 0 <= i < |xs| && f(xs[i]).None?
  {
    if xs != [] {
      var init := xs[..|xs| - 1];
      TraverseFails(f, init);
      if Traverse(f, init).None? {
        var i :| 0 <= i < |init| && f(init[i]).None?;
        assert xs[i] == init[i];
      } else if f(xs[|xs| - 1]).Some? {
        forall i | 0 <= i < |xs|
          ensures f(xs[i]).Some?
        {
          if i < |init| {
            assert xs[i] == init[i];
          }
        }
      }
    }
  }

  /** On success every element's result is there, in order. */
  lemma {:induction false} TraverseValues<A, B>(f: A -> Option<B>, xs: seq<A>)
    requires Traverse(f, xs).Some?
    ensures |Traverse(f, xs).value| == |xs|
    ensures forall i :: 0 <= i < |xs| ==> f(xs[i]) == Some(Traverse(f, xs).value[i])
  {
    if xs != [] {
      var init := xs[..|xs| - 1];
      TraverseValues(f, init);
      forall i | 0 <= i < |xs|
        ensures f(xs[i]) == Some(Traverse(f, xs).value[i])
      {
        if i < |init| {
          assert xs[i] == init[i];
        }
      }
    }
  }

  /** A failure in a prefix is a failure of the whole. */
  lemma {:induction false} TraverseFailureSticks<A, B>(f: A -> Option<B>, xs: seq<A>, k: nat)
    requires k <= |xs| && Traverse(f, xs[..k]).None?
    ensures Traverse(f, xs).None?
    decreases |xs| - k
  {
    if k < |xs| {
      TraverseStep(f, xs, k);
      TraverseFailureSticks(f, xs, k + 1);
    } else {
      assert xs[..k] == xs;
    }
  }

  /** No element is listed twice. */
  predicate NoDuplicates<T(==)>(s: seq<T>)
  {
    forall i, j :: 0 <= i < j < |s| ==> s[i] != s[j]
  }

  /** The elements of a list, as a set. */
  function Elements<T>(s: seq<T>): set<T>
  {
    set x | x in s
  }

  /** A list without duplicates has as many elements as entries. */
  lemma {:induction false} DistinctElements<T>(s: seq<T>)
    requires NoDuplicates(s)
    ensures |Elements(s)| == |s|
  {
    if s != [] {
      var init := s[..|s| - 1];
      var last := s[|s| - 1];
      DistinctElements(init);
      assert Elements(s) == Elements(init) + {last} by {
        assert s == init + [last];
      }
      assert last !in Elements(init) by {
        forall i | 0 <= i < |init|
          ensures init[i] != last
        {
          assert init[i] == s[i];
        }
      }
    }
  }

  /** `2 ** n`. */
  function Pow2(n: nat): nat
  {
    if n == 0 then 1 else 2 * Pow2(n - 1)
  }
}
