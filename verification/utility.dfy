/**
 * utility.h: `removeDuplicates`, the stable first-seen de-duplication the
 * solver uses to turn its Euler walk into a tour (and `main` uses on the
 * coordinate list).
 */
module Utility {

  /** No element occurs twice. */
  predicate Distinct<T(==)>(s: seq<T>) {
    forall i, j :: 0 <= i < j < |s| ==> s[i] != s[j]
  }

  /** The index of the first occurrence of x in s. */
  function FirstIndex<T(==)>(s: seq<T>, x: T): (r: nat)
    requires x in s
    ensures r < |s| && s[r] == x && x !in s[..r]
  {
    if s[0] == x then 0 else 1 + FirstIndex(s[1..], x)
  }

  /**
   * The specification of `removeDuplicates`: scanning s from the left, an
   * element is kept when it is not already among the kept ones.
   */
  function Dedup<T(==)>(s: seq<T>): seq<T>
  {
    if s == [] then []
    else
      var d := Dedup(s[..|s| - 1]);
      if s[|s| - 1] in d then d else d + [s[|s| - 1]]
  }

  /** The kept prefix holds exactly the elements of the input. */
  lemma {:induction false} DedupMembers<T>(s: seq<T>)
    ensures forall x :: x in Dedup(s) <==> x in s
  {
    if s != [] {
      var init := s[..|s| - 1];
      DedupMembers(init);
      assert s == init + [s[|s| - 1]];
    }
  }

  /** The kept prefix has no two equal elements. */
  lemma {:induction false} DedupDistinct<T>(s: seq<T>)
    ensures Distinct(Dedup(s))
  {
    if s != [] {
      DedupDistinct(s[..|s| - 1]);
    }
  }

  /** The kept prefix is never longer than the input. */
  lemma {:induction false} DedupLength<T>(s: seq<T>)
    ensures |Dedup(s)| <= |s|
  {
    if s != [] {
      DedupLength(s[..|s| - 1]);
    }
  }

  /** A range without duplicates is returned unchanged. */
  lemma {:induction false} DedupOfDistinct<T>(s: seq<T>)
    requires Distinct(s)
    ensures Dedup(s) == s
  {
    if s != [] {
      var init := s[..|s| - 1];
      DedupOfDistinct(init);
      assert s == init + [s[|s| - 1]];
    }
  }

  /** In a sequence without duplicates every element occurs exactly once. */
  lemma {:induction false} DistinctMultiplicity<T>(s: seq<T>)
    requires Distinct(s)
    ensures forall x :: multiset(s)[x] == if x in s then 1 else 0
  {
    if s != [] {
      var init := s[..|s| - 1];
      DistinctMultiplicity(init);
      assert s == init + [s[|s| - 1]];
    }
  }

  /** Applying the de-duplication to its own output changes nothing. */
  lemma DedupIdempotent<T>(s: seq<T>)
    ensures Dedup(Dedup(s)) == Dedup(s)
  {
    DedupDistinct(s);
    DedupOfDistinct(Dedup(s));
  }

  /** Appending an element does not move the first occurrence of an earlier one. */
  lemma FirstIndexAppend<T>(init: seq<T>, last: T, x: T)
    requires x in init
    ensures FirstIndex(init + [last], x) == FirstIndex(init, x)
  {
    var s := init + [last];
    var i := FirstIndex(init, x);
    var j := FirstIndex(s, x);
    assert s[..i] == init[..i];
    assert s[i] == x;
    assert forall k :: 0 <= k < i ==> init[..i][k] == s[k];
    assert forall k :: 0 <= k < j ==> s[..j][k] == s[k];
  }

  /** The elements of d occur in s, in the order of their first occurrence in s. */
  predicate OrderedByFirst<T(==)>(s: seq<T>, d: seq<T>) {
    (forall x :: x in d ==> x in s) &&
    forall p, q :: 0 <= p < q < |d| ==> FirstIndex(s, d[p]) < FirstIndex(s, d[q])
  }

  /** Appending to s keeps the first occurrences of what was already there. */
  lemma OrderedAppendInput<T>(init: seq<T>, last: T, d: seq<T>)
    requires OrderedByFirst(init, d)
    ensures OrderedByFirst(init + [last], d)
  {
    forall x | x in d
      ensures FirstIndex(init + [last], x) == FirstIndex(init, x)
    {
      FirstIndexAppend(init, last, x);
    }
  }

  /** An element new to s first occurs after everything already kept. */
  lemma OrderedAppendBoth<T>(init: seq<T>, last: T, d: seq<T>)
    requires OrderedByFirst(init, d) && last !in init
    ensures OrderedByFirst(init + [last], d + [last])
  {
    var s := init + [last];
    OrderedAppendInput(init, last, d);
    assert s[..|init|] == init;
    assert FirstIndex(s, last) == |init|;
    forall p | 0 <= p < |d|
      ensures FirstIndex(s, d[p]) < |init|
    {
      FirstIndexAppend(init, last, d[p]);
    }
    var e := d + [last];
    forall p, q | 0 <= p < q < |e|
      ensures FirstIndex(s, e[p]) < FirstIndex(s, e[q])
    {
      if q < |d| {
        assert e[p] == d[p] && e[q] == d[q];
      } else {
        assert e[p] == d[p] && e[q] == last;
      }
    }
  }

  /** Stability: the kept elements appear in the order of their first occurrence. */
  lemma {:induction false} DedupOrdered<T>(s: seq<T>)
    ensures OrderedByFirst(s, Dedup(s))
  {
    if s != [] {
      var init := s[..|s| - 1];
      var last := s[|s| - 1];
      assert s == init + [last];
      DedupOrdered(init);
      DedupMembers(init);
      if last in Dedup(init) {
        OrderedAppendInput(init, last, Dedup(init));
      } else {
        OrderedAppendBoth(init, last, Dedup(init));
      }
    }
  }

  /**
   * The scan of `removeDuplicates` after `current` input elements: the kept
   * prefix ends at `newLast`, and the cells from `newLast` on still hold the
   * input.
   */
  ghost predicate Scanned<T>(a: seq<T>, input: seq<T>, newLast: nat, current: nat) {
    |a| == |input| && newLast <= current <= |a| &&
    a[..newLast] == Dedup(input[..current]) && a[newLast..] == input[newLast..]
  }

  /** One more input element: skipped when already kept, else copied down to `newLast`. */
  lemma ScanStep<T>(a: seq<T>, input: seq<T>, newLast: nat, current: nat)
    requires Scanned(a, input, newLast, current) && current < |a|
    ensures a[current] == input[current]
    ensures a[current] in a[..newLast] ==> Scanned(a, input, newLast, current + 1)
    ensures a[current] !in a[..newLast] ==> Scanned(a[newLast := a[current]], input, newLast + 1, current + 1)
  {
    assert a[current] == a[newLast..][current - newLast] == input[current];
    assert input[..current + 1][..current] == input[..current];
    if a[current] !in a[..newLast] {
      var a' := a[newLast := a[current]];
      assert a'[..newLast + 1] == a[..newLast] + [input[current]];
      assert a'[newLast + 1..] == a[newLast + 1..];
    }
  }

  /** One iteration of the loop of `removeDuplicates`. */
  method ScanNext<T(==)>(a: array<T>, ghost input: seq<T>, newLast: nat, current: nat) returns (newLast': nat)
    requires Scanned(a[..], input, newLast, current) && current < a.Length
    modifies a
    ensures Scanned(a[..], input, newLast', current + 1)
  {
    ScanStep(a[..], input, newLast, current);
    newLast' := newLast;
    if a[current] !in a[..newLast] {
      if newLast != current {
        a[newLast] := a[current];
      } else {
        assert a[..][newLast := a[current]] == a[..];
      }
      newLast' := newLast + 1;
    }
  }

  /**
   * `removeDuplicates` over the whole array: moves each first occurrence
   * down to the `newLast` cursor and returns the end of the kept prefix;
   * cells from `newLast` on are the ones the loop never wrote.
   */
  method RemoveDuplicates<T(==)>(a: array<T>) returns (newLast: nat)
    modifies a
    ensures newLast <= a.Length
    ensures a[..newLast] == Dedup(old(a[..]))
    ensures a[newLast..] == old(a[newLast..])
  {
    ghost var input := a[..];
    newLast := 0;
    var current := 0;
    while current < a.Length
      invariant Scanned(a[..], input, newLast, current)
    {
      newLast := ScanNext(a, input, newLast, current);
      current := current + 1;
    }
    assert input[..current] == input;
  }
}
