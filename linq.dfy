/** The LINQ query operators the handlers and the repository rely on, as
    functions on sequences held in storage order. */
module Linq {

  datatype Option<T> = None | Some(value: T)

  /** `Enumerable.FirstOrDefault(source, predicate)`: the earliest element that
      satisfies `p`, or `None` (C#'s `null`) when there is none. */
  function FirstOrDefault<T>(s: seq<T>, p: T -> bool): (r: Option<T>)
    ensures r.Some? ==> r.value in s && p(r.value)
    ensures r.None? <==> forall x :: x in s ==> !p(x)
  {
    if s == [] then None
    else if p(s[0]) then Some(s[0])
    else FirstOrDefault(s[1..], p)
  }

  /** `Enumerable.Where(source, predicate)`: the elements that satisfy `p`, in
      their original order. */
  function Where<T(!new)>(s: seq<T>, p: T -> bool): (r: seq<T>)
    ensures |r| <= |s|
    ensures forall x :: x in r <==> x in s && p(x)
  {
    if s == [] then []
    else if p(s[0]) then [s[0]] + Where(s[1..], p)
    else Where(s[1..], p)
  }

  /** `Enumerable.Select(source, selector)`: `f` applied to every element, in
      order. */
  function Select<T, U>(s: seq<T>, f: T -> U): (r: seq<U>)
    ensures |r| == |s|
    ensures forall i :: 0 <= i < |s| ==> r[i] == f(s[i])
  {
    seq(|s|, i requires 0 <= i < |s| => f(s[i]))
  }

  /** The element FirstOrDefault answers is the earliest match: no element
      before its position satisfies `p`. */
  lemma {:induction false} FirstOrDefaultIsFirst<T>(s: seq<T>, p: T -> bool)
    requires FirstOrDefault(s, p).Some?
    ensures exists i :: 0 <= i < |s| && s[i] == FirstOrDefault(s, p).value && forall j :: 0 <= j < i ==> !p(s[j])
  {
    if !p(s[0]) {
      FirstOrDefaultIsFirst(s[1..], p);
      var i :| 0 <= i < |s[1..]| && s[1..][i] == FirstOrDefault(s, p).value && forall j :: 0 <= j < i ==> !p(s[1..][j]);
      assert s[i + 1] == FirstOrDefault(s, p).value;
      forall j | 0 <= j < i + 1 ensures !p(s[j]) {
        if j > 0 {
          assert s[j] == s[1..][j - 1];
        }
      }
    } else {
      assert s[0] == FirstOrDefault(s, p).value;
    }
  }

  /** Appending an element never changes an answer FirstOrDefault already had:
      the new element is only found when nothing before it matches. */
  lemma {:induction false} FirstOrDefaultAppend<T>(s: seq<T>, x: T, p: T -> bool)
    ensures FirstOrDefault(s + [x], p)
         == if FirstOrDefault(s, p).Some? then FirstOrDefault(s, p)
            else if p(x) then Some(x) else None
  {
    if s != [] {
      assert (s + [x])[0] == s[0];
      assert (s + [x])[1..] == s[1..] + [x];
      FirstOrDefaultAppend(s[1..], x, p);
    }
  }

  /** Filtering a longer table filters the old part and then the new element. */
  lemma {:induction false} WhereAppend<T(!new)>(s: seq<T>, x: T, p: T -> bool)
    ensures Where(s + [x], p) == Where(s, p) + (if p(x) then [x] else [])
  {
    if s == [] {
      assert [x][1..] == [];
    } else {
      assert (s + [x])[0] == s[0];
      assert (s + [x])[1..] == s[1..] + [x];
      WhereAppend(s[1..], x, p);
    }
  }

  /** When every element passes the filter, Where returns the sequence itself. */
  lemma {:induction false} WhereKeepsAll<T(!new)>(s: seq<T>, p: T -> bool)
    requires forall x :: x in s ==> p(x)
    ensures Where(s, p) == s
  {
    if s != [] {
      assert s == [s[0]] + s[1..];
      WhereKeepsAll(s[1..], p);
    }
  }

  /** Filtering twice with the same predicate is filtering once. */
  lemma {:induction false} WhereIdempotent<T(!new)>(s: seq<T>, p: T -> bool)
    ensures Where(Where(s, p), p) == Where(s, p)
  {
    WhereKeepsAll(Where(s, p), p);
  }
}
