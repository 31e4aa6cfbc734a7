/** Filtering a list, as a Python list comprehension with an `if` clause does. */
module Lists {

  /**
   * The elements of `s` that satisfy `keep`, in their original order. Defined from the
   * back so that it follows a loop that appends kept elements one at a time.
   */
  function Filter<T>(keep: T -> bool, s: seq<T>): (r: seq<T>)
    ensures |r| <= |s|
  {
    if s == [] then []
    else Filter(keep, s[..|s| - 1]) + (if keep(s[|s| - 1]) then [s[|s| - 1]] else [])
  }

  /**
   * The positions of `s` whose elements satisfy `keep`: each position below `|s|`, in
   * strictly increasing order, and a position is listed exactly when its element is kept.
   */
  function KeptPositions<T>(keep: T -> bool, s: seq<T>): (idx: seq<nat>)
    ensures forall j :: 0 <= j < |idx| ==> idx[j] < |s|
    ensures forall j, k :: 0 <= j < k < |idx| ==> idx[j] < idx[k]
    ensures forall i :: 0 <= i < |s| ==> (keep(s[i]) <==> i in idx)
  {
    if s == [] then []
    else
      var init := s[..|s| - 1];
      var idx0 := KeptPositions(keep, init);
      assert forall i :: 0 <= i < |init| ==> s[i] == init[i];
      idx0 + (if keep(s[|s| - 1]) then [|s| - 1] else [])
  }

  /** The filter keeps the element at each kept position, in order, and nothing else. */
  lemma {:induction false} FilterAtPositions<T>(keep: T -> bool, s: seq<T>)
    ensures |KeptPositions(keep, s)| == |Filter(keep, s)|
    ensures forall j :: 0 <= j < |Filter(keep, s)| ==>
      Filter(keep, s)[j] == s[KeptPositions(keep, s)[j]]
  {
    if s != [] {
      var init := s[..|s| - 1];
      FilterAtPositions(keep, init);
      var idx0, r0 := KeptPositions(keep, init), Filter(keep, init);
      forall j | 0 <= j < |Filter(keep, s)|
        ensures Filter(keep, s)[j] == s[KeptPositions(keep, s)[j]]
      {
        if j < |r0| {
          assert Filter(keep, s)[j] == r0[j] == init[idx0[j]];
          assert KeptPositions(keep, s)[j] == idx0[j];
        }
      }
    }
  }

  /** Everything the filter returns satisfies `keep`. */
  lemma {:induction false} FilterKeepsOnlyKept<T>(keep: T -> bool, s: seq<T>)
    ensures forall i :: 0 <= i < |Filter(keep, s)| ==> keep(Filter(keep, s)[i])
  {
    if s != [] {
      FilterKeepsOnlyKept(keep, s[..|s| - 1]);
    }
  }

  /** A filter that keeps every element returns the whole list. */
  lemma {:induction false} FilterKeepsAll<T>(keep: T -> bool, s: seq<T>)
    requires forall i :: 0 <= i < |s| ==> keep(s[i])
    ensures Filter(keep, s) == s
  {
    if s != [] {
      FilterKeepsAll(keep, s[..|s| - 1]);
      assert s[..|s| - 1] + [s[|s| - 1]] == s;
    }
  }

  /** Filtering one more element at the end, as a loop step does. */
  lemma FilterSnoc<T>(keep: T -> bool, s: seq<T>, x: T)
    ensures Filter(keep, s + [x]) == Filter(keep, s) + (if keep(x) then [x] else [])
  {
    assert (s + [x])[..|s|] == s;
  }

  /** Filtering one element further into `s`, as the `i`-th turn of a loop over `s` does. */
  lemma FilterPrefixStep<T>(keep: T -> bool, s: seq<T>, i: nat)
    requires i < |s|
    ensures Filter(keep, s[..i + 1]) == Filter(keep, s[..i]) + (if keep(s[i]) then [s[i]] else [])
  {
    assert s[..i + 1] == s[..i] + [s[i]];
    FilterSnoc(keep, s[..i], s[i]);
  }

  /** Every element the filter keeps occurs in the original list. */
  lemma FilterOnlyFrom<T>(keep: T -> bool, s: seq<T>, j: nat)
    requires j < |Filter(keep, s)|
    ensures Filter(keep, s)[j] in s
  {
    FilterAtPositions(keep, s);
  }

  /** Of four elements, the first two dropped and the last two kept, the filter keeps the last two. */
  lemma FilterTwoDroppedTwoKept<T>(keep: T -> bool, a: T, b: T, c: T, d: T)
    requires !keep(a) && !keep(b) && keep(c) && keep(d)
    ensures Filter(keep, [a, b, c, d]) == [c, d]
  {
    assert [] + [a] == [a] && [a] + [b] == [a, b];
    assert [a, b] + [c] == [a, b, c] && [a, b, c] + [d] == [a, b, c, d];
    FilterSnoc(keep, [], a);
    FilterSnoc(keep, [a], b);
    FilterSnoc(keep, [a, b], c);
    FilterSnoc(keep, [a, b, c], d);
  }
}
