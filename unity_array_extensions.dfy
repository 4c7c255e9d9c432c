/** The Unity copy of the helpers, `Codeavr.ArrayExtensions` in
    Assets/Scripts/Helpers/ArrayExtensions.cs. Its bodies are those of
    Extensions.cs except for the random source: the index comes from
    `UnityEngine.Random.Range(0, n)`, whose integer overload returns a value
    in [0, n); here it is the parameter `randomIndex`. */
module UnityArrayExtensions {
  import opened Wrappers
  import opened DotNet
  import opened NullFilter
  import Extensions

  /** `InRange(this T[] array, int index)`. */
  function InRange<T>(arr: Option<seq<T>>, index: int): (b: bool)
    ensures b <==> ArrayElementAt(arr, index).Success?
    ensures arr.None? || index < 0 ==> !b
  {
    arr.Some? && index >= 0 && index < |arr.value|
  }

  /** `InRange(this ICollection array, int index)`. */
  function InRangeCollection(collection: Option<Collection>, index: int): (b: bool)
    ensures collection.None? || index < 0 ==> !b
    ensures b ==> index < collection.value.count
  {
    collection.Some? && index >= 0 && index < collection.value.count
  }

  /** `PickRandom(this T[] array)`. */
  function PickRandom<T>(arr: Option<seq<T>>, defaultValue: T, randomIndex: int): (r: T)
    requires arr.Some? && |arr.value| > 0 ==> 0 <= randomIndex < |arr.value|
    ensures Empty(arr) ==> r == defaultValue
    ensures !Empty(arr) ==> r in arr.value
  {
    if arr.Some? && |arr.value| > 0 then arr.value[randomIndex] else defaultValue
  }

  /** `PickRandom(this List<T> list)`. */
  function PickRandomList<T>(list: List?<T>, defaultValue: T, randomIndex: int): (r: T)
    reads list
    requires list != null && |list.items| > 0 ==> 0 <= randomIndex < |list.items|
    ensures list == null || |list.items| == 0 ==> r == defaultValue
    ensures list != null && |list.items| > 0 ==> r in list.items
  {
    if list != null && list.Count() > 0 then list.items[randomIndex] else defaultValue
  }

  /** `RemoveNulls(this List<T> array)`: the same `RemoveAt(i--)` loop; the
      list is dereferenced without a null check. */
  method RemoveNulls<T>(list: List?<Option<T>>)
    requires list != null
    modifies list
    ensures list.items == NonNulls(old(list.items))
    ensures NullFree(list.items)
    ensures |list.items| == |old(list.items)| - multiset(old(list.items))[None]
  {
    ghost var original := list.items;
    ghost var j := 0;
    var i := 0;
    while i < list.Count()
      invariant 0 <= i <= |list.items| && 0 <= j <= |original|
      invariant list.items[..i] == NonNulls(original[..j])
      invariant list.items[i..] == original[j..]
      decreases |list.items| - i
    {
      ghost var before := list.items;
      assert before[i] == original[j];
      assert original[..j + 1] == original[..j] + [original[j]];
      NonNullsSnoc(original[..j], original[j]);
      if list.items[i] == None {
        list.RemoveAt(i);
        assert list.items[..i] == before[..i];
        assert list.items[i..] == before[i + 1..];
        i := i - 1;
      } else {
        assert before[..i + 1] == before[..i] + [before[i]];
        assert before[i + 1..] == original[j + 1..];
      }
      i := i + 1;
      j := j + 1;
    }
    assert original[..j] == original;
    NonNullsIsNullFree(original);
    NonNullsLength(original);
  }

  /** `Empty(this T[] obj)`. */
  function Empty<T>(obj: Option<seq<T>>): (b: bool)
    ensures b <==> !InRange(obj, 0)
  {
    obj.None? || |obj.value| == 0
  }

  /** `Get(this IDictionary<TKey, TValue> dict, TKey key)`; the dictionary is
      dereferenced without a null check. */
  function Get<TKey, TValue>(dict: Option<map<TKey, TValue>>, key: TKey, defaultValue: TValue): (r: TValue)
    requires dict.Some?
    ensures key in dict.value ==> r == dict.value[key]
    ensures key !in dict.value ==> r == defaultValue
  {
    TryGetValue(dict.value, key, defaultValue).1
  }

  /** The Unity copy computes what Extensions.cs computes on every input,
      given the same drawn index, so every property proved there holds here. */
  lemma AgreesWithExtensions<T, TKey, TValue>(arr: Option<seq<T>>, collection: Option<Collection>,
                                              list: List?<T>, index: int, defaultValue: T, randomIndex: int,
                                              dict: map<TKey, TValue>, key: TKey, defaultTValue: TValue)
    ensures InRange(arr, index) == Extensions.InRange(arr, index)
    ensures InRangeCollection(collection, index) == Extensions.InRangeCollection(collection, index)
    ensures Empty(arr) == Extensions.Empty(arr)
    ensures Get(Some(dict), key, defaultTValue) == Extensions.Get(Some(dict), key, defaultTValue)
    ensures (arr.Some? && |arr.value| > 0 ==> 0 <= randomIndex < |arr.value|) ==>
      PickRandom(arr, defaultValue, randomIndex) == Extensions.PickRandom(arr, defaultValue, randomIndex)
    ensures (list != null && |list.items| > 0 ==> 0 <= randomIndex < |list.items|) ==>
      PickRandomList(list, defaultValue, randomIndex) == Extensions.PickRandomList(list, defaultValue, randomIndex)
  {
  }

  /** An array is empty exactly when no index is in range; carried over from
      the general copy. */
  lemma EmptyIffNoIndexInRange<T>(arr: Option<seq<T>>)
    ensures Empty(arr) <==> forall i :: !InRange(arr, i)
  {
    Extensions.EmptyIffNoIndexInRange(arr);
  }
}
