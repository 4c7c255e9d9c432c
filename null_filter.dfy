/** What `RemoveNulls` is meant to leave behind: the list with its null
    entries dropped and the other entries kept in their original order. */
module NullFilter {
  import opened Wrappers

  /** No entry of `s` is null. */
  predicate NullFree<T>(s: seq<Option<T>>)
  {
    forall i :: 0 <= i < |s| ==> s[i].Some?
  }

  /** `s` without its null entries. */
  function NonNulls<T>(s: seq<Option<T>>): seq<Option<T>>
  {
    if s == [] then []
    else NonNulls(s[..|s| - 1]) + (if s[|s| - 1].None? then [] else [s[|s| - 1]])
  }

  /** The positions of the non-null entries of `s`, in increasing order. */
  function SurvivorPositions<T>(s: seq<Option<T>>): seq<nat>
  {
    if s == [] then []
    else SurvivorPositions(s[..|s| - 1]) + (if s[|s| - 1].None? then [] else [|s| - 1])
  }

  /** Filtering one more entry: it is kept exactly when it is not null. */
  lemma NonNullsSnoc<T>(s: seq<Option<T>>, x: Option<T>)
    ensures NonNulls(s + [x]) == NonNulls(s) + (if x.None? then [] else [x])
  {
    assert (s + [x])[..|s|] == s;
  }

  /** Filtering distributes over concatenation: the survivors of a prefix come
      before the survivors of what follows it. */
  lemma {:induction false} NonNullsAppend<T>(s: seq<Option<T>>, t: seq<Option<T>>)
    ensures NonNulls(s + t) == NonNulls(s) + NonNulls(t)
  {
    if t == [] {
      assert s + t == s;
    } else {
      var init, last := t[..|t| - 1], t[|t| - 1];
      assert t == init + [last];
      assert s + t == (s + init) + [last];
      NonNullsAppend(s, init);
      NonNullsSnoc(s + init, last);
      NonNullsSnoc(init, last);
    }
  }

  /** The result of filtering holds no null. */
  lemma {:induction false} NonNullsIsNullFree<T>(s: seq<Option<T>>)
    ensures NullFree(NonNulls(s))
  {
    if s != [] {
      NonNullsIsNullFree(s[..|s| - 1]);
    }
  }

  /** A list without nulls is left as it is. */
  lemma {:induction false} NonNullsOfNullFree<T>(s: seq<Option<T>>)
    requires NullFree(s)
    ensures NonNulls(s) == s
  {
    if s != [] {
      NonNullsOfNullFree(s[..|s| - 1]);
      assert s == s[..|s| - 1] + [s[|s| - 1]];
    }
  }

  /** Filtering twice is filtering once. */
  lemma NonNullsIdempotent<T>(s: seq<Option<T>>)
    ensures NonNulls(NonNulls(s)) == NonNulls(s)
  {
    NonNullsIsNullFree(s);
    NonNullsOfNullFree(NonNulls(s));
  }

  /** Exactly the null entries go: every other entry survives as often as it
      occurred. */
  lemma {:induction false} NonNullsMultiset<T>(s: seq<Option<T>>)
    ensures multiset(NonNulls(s)) == multiset(s)[None := 0]
  {
    if s != [] {
      var init, last := s[..|s| - 1], s[|s| - 1];
      assert s == init + [last];
      NonNullsMultiset(init);
    }
  }

  /** The filtered list is shorter by the number of nulls. */
  lemma NonNullsLength<T>(s: seq<Option<T>>)
    ensures |NonNulls(s)| == |s| - multiset(s)[None]
  {
    NonNullsMultiset(s);
    assert |multiset(s)| == |multiset(s)[None := 0]| + multiset(s)[None];
  }

  /** The survivors are the non-null entries at increasing positions of `s`,
      and no non-null entry is passed over: relative order is preserved. */
  lemma {:induction false} NonNullsKeepsOrder<T>(s: seq<Option<T>>)
    ensures |SurvivorPositions(s)| == |NonNulls(s)|
    ensures forall k :: 0 <= k < |SurvivorPositions(s)| ==>
      SurvivorPositions(s)[k] < |s| && s[SurvivorPositions(s)[k]] == NonNulls(s)[k]
    ensures forall a, b :: 0 <= a < b < |SurvivorPositions(s)| ==>
      SurvivorPositions(s)[a] < SurvivorPositions(s)[b]
    ensures forall i :: 0 <= i < |s| && s[i].Some? ==> i in SurvivorPositions(s)
  {
    if s != [] {
      var init := s[..|s| - 1];
      NonNullsKeepsOrder(init);
      assert forall i :: 0 <= i < |init| ==> init[i] == s[i];
    }
  }
}
