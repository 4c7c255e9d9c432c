/** The null-tolerant helpers of `Codeavr.Extensions` (Extensions.cs).
    A C# `null` is `None`; `default(T)` is the explicit `defaultValue`; the
    index that the shared `System.Random` returns from `Next(n)` is the
    parameter `randomIndex`, which `Next` places in [0, n). */
module Extensions {
  import opened Wrappers
  import opened DotNet
  import opened NullFilter

  /** `InRange(this T[] array, int index)`: the bounds check that never throws. */
  function InRange<T>(arr: Option<seq<T>>, index: int): (b: bool)
    ensures b <==> ArrayElementAt(arr, index).Success?
    ensures arr.None? || index < 0 ==> !b
  {
    arr.Some? && index >= 0 && index < |arr.value|
  }

  /** `InRange(this ICollection array, int index)`. */
  function InRangeCollection(collection: Option<Collection>, index: int): (b: bool)
    ensures collection.None? || index < 0 ==> !b
    ensures b ==> index < collection.value.count
  {
    collection.Some? && index >= 0 && index < collection.value.count
  }

  /** `PickRandom(this T[] array)`: the element at the drawn index, or
      `default(T)` for a null or empty array, for which nothing is drawn. */
  function PickRandom<T>(arr: Option<seq<T>>, defaultValue: T, randomIndex: int): (r: T)
    requires arr.Some? && |arr.value| > 0 ==> 0 <= randomIndex < |arr.value|
    ensures Empty(arr) ==> r == defaultValue
    ensures !Empty(arr) ==> r in arr.value
  {
    if arr.Some? && |arr.value| > 0 then arr.value[randomIndex] else defaultValue
  }

  /** `PickRandom(this List<T> list)`. */
  function PickRandomList<T>(list: List?<T>, defaultValue: T, randomIndex: int): (r: T)
    reads list
    requires list != null && |list.items| > 0 ==> 0 <= randomIndex < |list.items|
    ensures list == null || |list.items| == 0 ==> r == defaultValue
    ensures list != null && |list.items| > 0 ==> r in list.items
  {
    if list != null && list.Count() > 0 then list.items[randomIndex] else defaultValue
  }

  /** `RemoveNulls(this List<T> array)`: the index loop that calls
      `RemoveAt(i--)` on every null, so that the entry shifted into slot `i`
      is tested next. The list itself is dereferenced without a null check. */
  method RemoveNulls<T>(list: List?<Option<T>>)
    requires list != null
    modifies list
    ensures list.items == NonNulls(old(list.items))
    ensures NullFree(list.items)
    ensures |list.items| == |old(list.items)| - multiset(old(list.items))[None]
  {
    ghost var original := list.items;
    ghost var j := 0;
    var i := 0;
    while i < list.Count()
      invariant 0 <= i <= |list.items| && 0 <= j <= |original|
      invariant list.items[..i] == NonNulls(original[..j])
      invariant list.items[i..] == original[j..]
      decreases |list.items| - i
    {
      ghost var before := list.items;
      assert before[i] == original[j];
      assert original[..j + 1] == original[..j] + [original[j]];
      NonNullsSnoc(original[..j], original[j]);
      if list.items[i] == None {
        list.RemoveAt(i);
        assert list.items[..i] == before[..i];
        assert list.items[i..] == before[i + 1..];
        i := i - 1;
      } else {
        assert before[..i + 1] == before[..i] + [before[i]];
        assert before[i + 1..] == original[j + 1..];
      }
      i := i + 1;
      j := j + 1;
    }
    assert original[..j] == original;
    NonNullsIsNullFree(original);
    NonNullsLength(original);
  }

  /** `Empty(this T[] obj)`: null or of length zero. */
  function Empty<T>(obj: Option<seq<T>>): (b: bool)
    ensures b <==> !InRange(obj, 0)
  {
    obj.None? || |obj.value| == 0
  }

  /** `Get(this IDictionary<TKey, TValue> dict, TKey key)`: the value under
      `key`, or `default(TValue)` when the key is missing. The dictionary is
      dereferenced without a null check. */
  function Get<TKey, TValue>(dict: Option<map<TKey, TValue>>, key: TKey, defaultValue: TValue): (r: TValue)
    requires dict.Some?
    ensures key in dict.value ==> r == dict.value[key]
    ensures key !in dict.value ==> r == defaultValue
  {
    TryGetValue(dict.value, key, defaultValue).1
  }

  /** On an array the two `InRange` overloads agree. */
  lemma InRangeOverloadsAgree<T>(arr: Option<seq<T>>, index: int)
    ensures InRange(arr, index) == InRangeCollection(ArrayAsCollection(arr), index)
  {
  }

  /** Called on a `List<T>`, the `ICollection` overload is exactly the
      condition under which `list[index]` does not throw. */
  lemma InRangeCollectionGuardsListIndexer<T>(list: List?<T>, index: int)
    ensures InRangeCollection(ListAsCollection(list), index) <==> ListElementAt(list, index).Success?
  {
  }

  /** An array is empty exactly when no index is in range. */
  lemma EmptyIffNoIndexInRange<T>(arr: Option<seq<T>>)
    ensures Empty(arr) <==> forall i :: !InRange(arr, i)
  {
    if !Empty(arr) {
      assert InRange(arr, 0);
    }
  }

  /** On a non-empty array the element access never throws and yields the
      element at the drawn index. */
  lemma PickRandomReadsDrawnIndex<T>(arr: Option<seq<T>>, defaultValue: T, randomIndex: int)
    requires !Empty(arr) && 0 <= randomIndex < |arr.value|
    ensures ArrayElementAt(arr, randomIndex) == Success(PickRandom(arr, defaultValue, randomIndex))
  {
  }

  /** Every element of a non-empty array can be picked: the result is
      decided by the drawn index alone. */
  lemma PickRandomReachesEveryElement<T>(arr: Option<seq<T>>, defaultValue: T, x: T)
    requires arr.Some? && x in arr.value
    ensures exists k :: InRange(arr, k) && PickRandom(arr, defaultValue, k) == x
  {
    var k :| 0 <= k < |arr.value| && arr.value[k] == x;
    assert InRange(arr, k);
  }

  /** The `List<T>` overload behaves as the array overload on the list's
      contents, and as it does on a null array for a null list. */
  lemma PickRandomListAgreesWithArray<T>(list: List?<T>, defaultValue: T, randomIndex: int)
    requires list != null && |list.items| > 0 ==> 0 <= randomIndex < |list.items|
    ensures PickRandomList(list, defaultValue, randomIndex)
         == PickRandom(if list == null then None else Some(list.items), defaultValue, randomIndex)
  {
  }

  /** A property of modelling the dictionary as a `map`, not of the helper's
      own code (which never stores): `Get` sees the latest value stored under
      a key and is unaffected by stores under other keys. */
  lemma GetAfterStore<TKey, TValue>(dict: map<TKey, TValue>, key: TKey, value: TValue, other: TKey, defaultValue: TValue)
    ensures Get(Some(dict[key := value]), key, defaultValue) == value
    ensures other != key ==> Get(Some(dict[key := value]), other, defaultValue) == Get(Some(dict), other, defaultValue)
  {
  }

  /** Worked examples of the documented behaviour. */
  lemma DocumentedExamples()
    ensures InRange(Some([10, 20, 30]), 2) && !InRange(Some([10, 20, 30]), 3)
    ensures !InRange<int>(None, 0)
    ensures Get(Some(map["a" := 1]), "b", 0) == 0
    ensures NonNulls([Some(1), None, Some(2), None, Some(3)]) == [Some(1), Some(2), Some(3)]
  {
    var s := [Some(1), None, Some(2), None, Some(3)];
    assert s[..1] == [] + [Some(1)];
    NonNullsSnoc([], Some(1));
    NonNullsSnoc(s[..1], None);
    assert s[..2] == s[..1] + [None];
    NonNullsSnoc(s[..2], Some(2));
    assert s[..3] == s[..2] + [Some(2)];
    NonNullsSnoc(s[..3], None);
    assert s[..4] == s[..3] + [None];
    NonNullsSnoc(s[..4], Some(3));
    assert s == s[..4] + [Some(3)];
  }
}
