/**
 * The order-preserving filter the pages' `forEach`/`push` loops compute,
 * with the facts about it that the partitions rely on.
 */
module Lists {

  /** The elements of `s` that satisfy `p`, in their order in `s`. */
  function Keep<T>(s: seq<T>, p: T -> bool): seq<T>
    decreases |s|
  {
    if s == [] then [] else Keep(s[..|s| - 1], p) + (if p(s[|s| - 1]) then [s[|s| - 1]] else [])
  }

  /** Filtering one more element appends it exactly when it satisfies `p`. */
  lemma KeepSnoc<T>(s: seq<T>, x: T, p: T -> bool)
    ensures Keep(s + [x], p) == Keep(s, p) + (if p(x) then [x] else [])
  {
    assert (s + [x])[..|s + [x]| - 1] == s;
  }

  /** Filtering a concatenation filters each part and keeps them in order:
      the kept elements stay in their relative input order. */
  lemma {:induction false} KeepAppend<T>(a: seq<T>, b: seq<T>, p: T -> bool)
    ensures Keep(a + b, p) == Keep(a, p) + Keep(b, p)
    decreases |b|
  {
    if b == [] {
      assert a + b == a;
    } else {
      var b', x := b[..|b| - 1], b[|b| - 1];
      assert a + b == (a + b') + [x] && b == b' + [x];
      KeepSnoc(a + b', x, p);
      KeepSnoc(b', x, p);
      KeepAppend(a, b', p);
    }
  }

  /** An element is kept exactly when it occurs in the input and satisfies `p`. */
  lemma {:induction false} KeepMembership<T>(s: seq<T>, p: T -> bool, x: T)
    ensures x in Keep(s, p) <==> x in s && p(x)
    decreases |s|
  {
    if s != [] {
      var s' := s[..|s| - 1];
      KeepMembership(s', p, x);
      assert s == s' + [s[|s| - 1]];
    }
  }

  /** A list whose every element satisfies `p` passes the filter unchanged. */
  lemma {:induction false} KeepUnchanged<T>(s: seq<T>, p: T -> bool)
    requires forall i :: 0 <= i < |s| ==> p(s[i])
    ensures Keep(s, p) == s
    decreases |s|
  {
    if s != [] {
      var s' := s[..|s| - 1];
      assert forall i :: 0 <= i < |s'| ==> s'[i] == s[i];
      KeepUnchanged(s', p);
      assert s == s' + [s[|s| - 1]];
    }
  }

  /** Three filters of which every element satisfies exactly one split the
      input: each element is kept exactly once overall. */
  lemma {:induction false} KeepPartition<T>(s: seq<T>, p: T -> bool, q: T -> bool, r: T -> bool)
    requires forall x :: x in s ==> (p(x) && !q(x) && !r(x)) || (!p(x) && q(x) && !r(x)) || (!p(x) && !q(x) && r(x))
    ensures multiset(Keep(s, p)) + multiset(Keep(s, q)) + multiset(Keep(s, r)) == multiset(s)
    decreases |s|
  {
    if s != [] {
      var s', x := s[..|s| - 1], s[|s| - 1];
      assert s == s' + [x];
      assert forall y :: y in s' ==> y in s;
      KeepPartition(s', p, q, r);
      KeepSnoc(s', x, p);
      KeepSnoc(s', x, q);
      KeepSnoc(s', x, r);
      PartitionStep(Keep(s', p), Keep(s', q), Keep(s', r), s', x, p(x), q(x), r(x));
    }
  }

  /** The inductive step of `KeepPartition`: appending `x` to exactly one of
      three parts that split `s` gives parts that split `s + [x]`. */
  lemma PartitionStep<T>(a: seq<T>, b: seq<T>, c: seq<T>, s: seq<T>, x: T, inA: bool, inB: bool, inC: bool)
    requires multiset(a) + multiset(b) + multiset(c) == multiset(s)
    requires (inA && !inB && !inC) || (!inA && inB && !inC) || (!inA && !inB && inC)
    ensures multiset(a + (if inA then [x] else [])) + multiset(b + (if inB then [x] else []))
      + multiset(c + (if inC then [x] else [])) == multiset(s + [x])
  {
    assert multiset(s + [x]) == multiset(s) + multiset{x};
    if inA {
      assert multiset(a + [x]) == multiset(a) + multiset{x};
      assert b + [] == b && c + [] == c;
    } else if inB {
      assert multiset(b + [x]) == multiset(b) + multiset{x};
      assert a + [] == a && c + [] == c;
    } else {
      assert multiset(c + [x]) == multiset(c) + multiset{x};
      assert a + [] == a && b + [] == b;
    }
  }
}
