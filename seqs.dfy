/** Order-preserving list operations (the `funk.Filter` / `funk.Map` helpers and
    the append loops of the program), with the facts the rest of the model uses. */
module Seqs {

  /** The elements of `s` satisfying `p`, in their original order.
      Defined from the back, the way an append loop builds it. */
  function Filter<T>(s: seq<T>, p: T -> bool): (r: seq<T>)
    ensures |r| <= |s|
    ensures forall x :: x in r ==> x in s && p(x)
  {
    if s == [] then []
    else Filter(s[..|s| - 1], p) + (if p(s[|s| - 1]) then [s[|s| - 1]] else [])
  }

  /** Applies `f` to every element, keeping positions. */
  function Map<T, U>(s: seq<T>, f: T -> U): (r: seq<U>)
    ensures |r| == |s|
    ensures forall i :: 0 <= i < |s| ==> r[i] == f(s[i])
  {
    if s == [] then [] else Map(s[..|s| - 1], f) + [f(s[|s| - 1])]
  }

  /** Go's `s[:n]` guarded by `len(s) >= n`: at most the first `n` elements. */
  function Take<T>(s: seq<T>, n: nat): (r: seq<T>)
    ensures |r| <= n && |r| <= |s|
    ensures r == s[..|r|]
    ensures |r| == n || r == s
  {
    if |s| <= n then s else s[..n]
  }

  /** Concatenation regrouped; stated once so that long string proofs need
      not rediscover it element by element. */
  lemma AppendAssoc<T>(a: seq<T>, b: seq<T>, c: seq<T>)
    ensures a + b + c == a + (b + c)
  {
  }

  /** `idx` witnesses that `a` is `b` with some elements left out, order kept. */
  ghost predicate SubsequenceAt<T>(a: seq<T>, b: seq<T>, idx: seq<nat>)
  {
    && |idx| == |a|
    && (forall k :: 0 <= k < |idx| ==> idx[k] < |b| && a[k] == b[idx[k]])
    && (forall k, l :: 0 <= k < l < |idx| ==> idx[k] < idx[l])
  }

  /** Positions of `s` whose element satisfies `p`, ascending. */
  function KeptIndices<T>(s: seq<T>, p: T -> bool): seq<nat>
  {
    if s == [] then []
    else KeptIndices(s[..|s| - 1], p) + (if p(s[|s| - 1]) then [|s| - 1] else [])
  }

  /** `Filter` keeps exactly the positions satisfying `p`, in ascending order. */
  lemma {:induction false} FilterKeepsOrder<T>(s: seq<T>, p: T -> bool)
    ensures SubsequenceAt(Filter(s, p), s, KeptIndices(s, p))
    ensures forall i :: 0 <= i < |s| && p(s[i]) ==> i in KeptIndices(s, p)
    ensures forall i :: i in KeptIndices(s, p) ==> i < |s| && p(s[i])
  {
    if s != [] {
      var init := s[..|s| - 1];
      FilterKeepsOrder(init, p);
      forall i | 0 <= i < |init| ensures init[i] == s[i] {}
    }
  }

  /** Membership in both directions. */
  lemma {:induction false} FilterMembership<T>(s: seq<T>, p: T -> bool, x: T)
    ensures x in Filter(s, p) <==> x in s && p(x)
  {
    if s != [] {
      var init := s[..|s| - 1];
      FilterMembership(init, p, x);
      assert s == init + [s[|s| - 1]];
    }
  }

  /** `FilterMembership` for every element at once. */
  lemma FilterMembers<T>(s: seq<T>, p: T -> bool)
    ensures forall x :: x in Filter(s, p) <==> x in s && p(x)
  {
    forall x
      ensures x in Filter(s, p) <==> x in s && p(x)
    {
      FilterMembership(s, p, x);
    }
  }

  lemma {:induction false} FilterAppend<T>(a: seq<T>, b: seq<T>, p: T -> bool)
    ensures Filter(a + b, p) == Filter(a, p) + Filter(b, p)
  {
    if b != [] {
      var initB := b[..|b| - 1];
      assert (a + b)[..|a + b| - 1] == a + initB;
      FilterAppend(a, initB, p);
    } else {
      assert a + b == a;
    }
  }

  /** Filtering twice with the same predicate changes nothing. */
  lemma {:induction false} FilterIdempotent<T>(s: seq<T>, p: T -> bool)
    ensures Filter(Filter(s, p), p) == Filter(s, p)
  {
    if s != [] {
      var init := s[..|s| - 1];
      var last := s[|s| - 1];
      FilterIdempotent(init, p);
      FilterAppend(Filter(init, p), if p(last) then [last] else [], p);
    }
  }

  /** When every element satisfies `p` nothing is dropped. */
  lemma {:induction false} FilterAll<T>(s: seq<T>, p: T -> bool)
    requires forall i :: 0 <= i < |s| ==> p(s[i])
    ensures Filter(s, p) == s
  {
    if s != [] {
      FilterAll(s[..|s| - 1], p);
      FilterLast(s, p);
      assert s == s[..|s| - 1] + [s[|s| - 1]];
    }
  }

  /** When no element satisfies `p` everything is dropped. */
  lemma {:induction false} FilterNone<T>(s: seq<T>, p: T -> bool)
    requires forall i :: 0 <= i < |s| ==> !p(s[i])
    ensures Filter(s, p) == []
  {
    if s != [] {
      FilterNone(s[..|s| - 1], p);
      FilterLast(s, p);
    }
  }

  /** One step of `Filter`: the last element is kept exactly when it satisfies `p`. */
  lemma FilterLast<T>(s: seq<T>, p: T -> bool)
    requires s != []
    ensures Filter(s, p) == Filter(s[..|s| - 1], p) + (if p(s[|s| - 1]) then [s[|s| - 1]] else [])
  {
  }

  /** Two complementary filters split a list: their lengths add up. */
  lemma {:induction false} FilterPartitionLength<T>(s: seq<T>, p: T -> bool, q: T -> bool)
    requires forall x :: q(x) == !p(x)
    ensures |Filter(s, p)| + |Filter(s, q)| == |s|
  {
    if s != [] {
      var init, last := s[..|s| - 1], s[|s| - 1];
      FilterPartitionLength(init, p, q);
      FilterLast(s, p);
      FilterLast(s, q);
      assert q(last) == !p(last);
    }
  }

  /** Two complementary filters split a list: as multisets, the two halves make
      up the whole, so every element lands on exactly one side. */
  lemma {:induction false} FilterPartition<T>(s: seq<T>, p: T -> bool, q: T -> bool)
    requires forall x :: q(x) == !p(x)
    ensures multiset(Filter(s, p)) + multiset(Filter(s, q)) == multiset(s)
  {
    if s != [] {
      var init, last := s[..|s| - 1], s[|s| - 1];
      assert s == init + [last];
      FilterLast(s, p);
      FilterLast(s, q);
      FilterPartition(init, p, q);
      PartitionStep(init, last, Filter(init, p), Filter(init, q), p(last), q(last));
    }
  }

  /** One element added to a split list lands on exactly one side. */
  lemma PartitionStep<T>(init: seq<T>, last: T, yes: seq<T>, no: seq<T>, isYes: bool, isNo: bool)
    requires multiset(yes) + multiset(no) == multiset(init)
    requires isNo == !isYes
    ensures multiset(yes + (if isYes then [last] else [])) + multiset(no + (if isNo then [last] else []))
         == multiset(init + [last])
  {
    if isYes {
      assert multiset(yes + [last]) == multiset(yes) + multiset{last};
      assert no + [] == no;
    } else {
      assert multiset(no + [last]) == multiset(no) + multiset{last};
      assert yes + [] == yes;
    }
  }

  /** Filtering the image of a map is mapping the filtered list, when the
      two predicates agree through `f`. */
  lemma {:induction false} MapFilterCommute<T, U>(s: seq<T>, f: T -> U, q: U -> bool, p: T -> bool)
    requires forall x :: q(f(x)) == p(x)
    ensures Filter(Map(s, f), q) == Map(Filter(s, p), f)
  {
    if s != [] {
      var init := s[..|s| - 1];
      var last := s[|s| - 1];
      MapFilterCommute(init, f, q, p);
      assert Map(s, f)[..|s| - 1] == Map(init, f);
      if p(last) {
        assert Filter(s, p) == Filter(init, p) + [last];
        assert Filter(s, p)[..|Filter(s, p)| - 1] == Filter(init, p);
      }
    }
  }
}
