/** Prefixes, and filtering sequences. */
module Seqs {

  ghost predicate NoRepeats<T>(s: seq<T>) { forall i, j :: 0 <= i < j < |s| ==> s[i] != s[j] }

  ghost predicate IsPrefix<T>(s: seq<T>, t: seq<T>) { |s| <= |t| && s == t[..|s|] }

  /** The elements of `s` that satisfy `p`, in order. */
  function Filter<T(!new)>(p: T -> bool, s: seq<T>): (r: seq<T>)
    ensures forall x :: x in r <==> x in s && p(x)
    ensures |r| <= |s|
  {
    if s == [] then []
    else
      var init, last := s[..|s| - 1], s[|s| - 1];
      assert forall x :: x in s <==> x in init || x == last;
      if p(last) then Filter(p, init) + [last] else Filter(p, init)
  }

  lemma FilterSnoc<T(!new)>(p: T -> bool, s: seq<T>, x: T)
    ensures Filter(p, s + [x]) == if p(x) then Filter(p, s) + [x] else Filter(p, s)
  {
    assert (s + [x])[..|s|] == s;
  }

  lemma SnocLast<T>(a: seq<T>, b: seq<T>, x: T)
    ensures a + (b + [x]) == (a + b) + [x]
  {
  }

  lemma SplitLast<T>(s: seq<T>)
    requires s != []
    ensures s == s[..|s| - 1] + [s[|s| - 1]]
  {
  }

  lemma {:induction false} FilterAppend<T(!new)>(p: T -> bool, s: seq<T>, t: seq<T>)
    ensures Filter(p, s + t) == Filter(p, s) + Filter(p, t)
  {
    if t == [] {
      assert s + t == s;
    } else {
      var init, last := t[..|t| - 1], t[|t| - 1];
      FilterAppend(p, s, init);
      calc {
        Filter(p, s + t);
        { SplitLast(t); SnocLast(s, init, last); }
        Filter(p, (s + init) + [last]);
        { FilterSnoc(p, s + init, last); SnocLast(Filter(p, s), Filter(p, init), last); }
        Filter(p, s) + (if p(last) then Filter(p, init) + [last] else Filter(p, init));
      }
    }
  }

  /** Nothing dropped means nothing changed. */
  lemma {:induction false} FilterAll<T(!new)>(p: T -> bool, s: seq<T>)
    requires |Filter(p, s)| == |s|
    ensures Filter(p, s) == s
  {
    if s != [] { FilterAll(p, s[..|s| - 1]); }
  }

  lemma {:induction false} FilterKeeps<T(!new)>(p: T -> bool, s: seq<T>)
    requires forall x :: x in s ==> p(x)
    ensures Filter(p, s) == s
  {
    if s != [] {
      var init, last := s[..|s| - 1], s[|s| - 1];
      assert s == init + [last];
      FilterKeeps(p, init);
    }
  }

  lemma {:induction false} FilterDrops<T(!new)>(p: T -> bool, s: seq<T>, x: T)
    requires x in s && !p(x)
    ensures |Filter(p, s)| < |s|
  {
    if x != s[|s| - 1] { FilterDrops(p, s[..|s| - 1], x); }
  }

  /** Filtering twice is filtering once by both. */
  lemma {:induction false} FilterTwice<T(!new)>(p: T -> bool, q: T -> bool, r: T -> bool, s: seq<T>)
    requires forall x :: x in s ==> r(x) == (p(x) && q(x))
    ensures Filter(p, Filter(q, s)) == Filter(r, s)
  {
    if s != [] {
      var init, last := s[..|s| - 1], s[|s| - 1];
      assert forall x :: x in init ==> x in s;
      FilterTwice(p, q, r, init);
      if q(last) { FilterSnoc(p, Filter(q, init), last); }
    }
  }

  lemma {:induction false} FilterSame<T(!new)>(p: T -> bool, q: T -> bool, s: seq<T>)
    requires forall x :: x in s ==> p(x) == q(x)
    ensures Filter(p, s) == Filter(q, s)
  {
    if s != [] {
      assert forall x :: x in s[..|s| - 1] ==> x in s;
      FilterSame(p, q, s[..|s| - 1]);
    }
  }

  lemma FilterCommutes<T(!new)>(p: T -> bool, q: T -> bool, s: seq<T>)
    ensures Filter(p, Filter(q, s)) == Filter(q, Filter(p, s))
  {
    var both := (x: T) => p(x) && q(x);
    FilterTwice(p, q, both, s);
    FilterTwice(q, p, both, s);
  }

  lemma {:induction false} FilterNone<T(!new)>(p: T -> bool, s: seq<T>)
    requires forall x :: x in s ==> !p(x)
    ensures Filter(p, s) == []
  {
    if s != [] {
      assert forall x :: x in s[..|s| - 1] ==> x in s;
      FilterNone(p, s[..|s| - 1]);
    }
  }

  /** A filter that drops exactly the first `k`. */
  lemma FilterTail<T(!new)>(p: T -> bool, s: seq<T>, k: nat)
    requires k <= |s|
    requires forall i :: 0 <= i < k ==> !p(s[i])
    requires forall i :: k <= i < |s| ==> p(s[i])
    ensures Filter(p, s) == s[k..]
  {
    hide Filter;
    FilterAppend(p, s[..k], s[k..]);
    FilterNone(p, s[..k]);
    FilterKeeps(p, s[k..]);
    assert s[..k] + s[k..] == s && [] + s[k..] == s[k..];
  }

  /** A filter that keeps exactly the first `k`. */
  lemma FilterHead<T(!new)>(p: T -> bool, s: seq<T>, k: nat)
    requires k <= |s|
    requires forall i :: 0 <= i < k ==> p(s[i])
    requires forall i :: k <= i < |s| ==> !p(s[i])
    ensures Filter(p, s) == s[..k]
  {
    hide Filter;
    FilterAppend(p, s[..k], s[k..]);
    FilterKeeps(p, s[..k]);
    FilterNone(p, s[k..]);
    assert s[..k] + s[k..] == s && s[..k] + [] == s[..k];
  }
}
