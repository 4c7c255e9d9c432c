/** The part of the .NET base library that the extension helpers lean on:
    indexing a `T[]` or a `List<T>`, `List<T>.Count` and `List<T>.RemoveAt`,
    the `Count` of a non-generic `ICollection`, and
    `IDictionary<TKey, TValue>.TryGetValue`. Only the behaviour the helpers
    rely on is modelled. */
module DotNet {
  import opened Wrappers

  /** The exceptions an element access can raise. */
  datatype Exception = NullReference | IndexOutOfRange | ArgumentOutOfRange

  /** `array[index]` on a possibly null `T[]`. */
  function ArrayElementAt<T>(arr: Option<seq<T>>, index: int): Result<T, Exception>
  {
    match arr
    case None => Failure(NullReference)
    case Some(s) => if 0 <= index < |s| then Success(s[index]) else Failure(IndexOutOfRange)
  }

  /** A non-generic `ICollection`: the helpers read nothing of it but `Count`. */
  datatype Collection = Collection(count: nat)

  /** A `T[]` seen through the `ICollection` interface it implements. */
  function ArrayAsCollection<T>(arr: Option<seq<T>>): Option<Collection>
  {
    match arr
    case None => None
    case Some(s) => Some(Collection(|s|))
  }

  /** `System.Collections.Generic.List<T>`: a growable sequence updated in place. */
  class List<T> {
    var items: seq<T>

    constructor (items: seq<T>)
      ensures this.items == items
    {
      this.items := items;
    }

    function Count(): nat
      reads this
    {
      |items|
    }

    /** Removes the element at `index`; the elements after it move down one slot. */
    method RemoveAt(index: int)
      requires 0 <= index < |items|
      modifies this
      ensures items == old(items[..index] + items[index + 1..])
    {
      items := items[..index] + items[index + 1..];
    }
  }

  /** `list[index]` on a possibly null `List<T>`. */
  function ListElementAt<T>(list: List?<T>, index: int): Result<T, Exception>
    reads list
  {
    if list == null then Failure(NullReference)
    else if 0 <= index < |list.items| then Success(list.items[index])
    else Failure(ArgumentOutOfRange)
  }

  /** A `List<T>` seen through the `ICollection` interface it implements. */
  function ListAsCollection<T>(list: List?<T>): Option<Collection>
    reads list
  {
    if list == null then None else Some(Collection(|list.items|))
  }

  /** `dict.TryGetValue(key, out value)`: whether the key was found, and the
      value written to the out parameter, `default(TValue)` when it was not. */
  function TryGetValue<TKey, TValue>(dict: map<TKey, TValue>, key: TKey, defaultValue: TValue): (bool, TValue)
  {
    if key in dict then (true, dict[key]) else (false, defaultValue)
  }
}
