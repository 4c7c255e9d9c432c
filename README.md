# Null-tolerant collection helpers of Codeavr's array extensions

This project models the convenience layer of the Codeavr array-extension
utilities. The layer is a static class of extension methods, present in two
nearly identical copies: `Extensions.cs` for general .NET hosts and
`Assets/Scripts/Helpers/ArrayExtensions.cs` for Unity. Each copy has seven
helpers:

- `InRange` on a `T[]` and `InRange` on a non-generic `ICollection`: bounds checks that accept a null collection;
- `PickRandom` on a `T[]` and on a `List<T>`: the element at a randomly drawn index, or `default(T)`;
- `RemoveNulls`: in-place removal of the null entries of a `List<T>`;
- `Empty`: null or zero length;
- `Get`: dictionary lookup that gives `default(TValue)` for a missing key.

Modules:

- `Wrappers`: `Option`, where `None` is a C# `null`, and `Result`, where `Failure` is an exception the runtime throws.
- `DotNet`: the slice of the base library the helpers call. It covers array and `List<T>` indexing with their exceptions, a `List<T>` class whose `items` are updated in place by `RemoveAt`, an `ICollection` reduced to its `Count`, and `TryGetValue`.
- `NullFilter`: `NonNulls`, the specification of what `RemoveNulls` leaves behind, and its properties.
- `Extensions`: the helpers of `Extensions.cs`.
- `UnityArrayExtensions`: the helpers of the Unity copy, and a lemma saying that they compute what the general copy computes.

Modelling choices:

- `default(T)` is an explicit `defaultValue` parameter.
- The random source is an index oracle. `random.Next(n)` in `Extensions.cs`, and `UnityEngine.Random.Range(0, n)` in the Unity copy, both return a value in [0, n). That value is the parameter `randomIndex`. It is constrained only when the source actually draws, that is, for a non-null, non-empty input.
- `RemoveNulls` is a method over the `List` object. It keeps the source's loop, including the `i--` after each `RemoveAt`. It is proved equal to `NonNulls` of the old contents, and it terminates because `Count - i` drops by one on every iteration.
- `RemoveNulls` and `Get` dereference their list or dictionary without checking it for null (`Extensions.cs:37` and `Extensions.cs:47`). Both therefore carry a precondition that the argument is not null.

## Model

| member | source | states |
|---|---|---|
| `Extensions.InRange` | Extensions.cs:9-12 | true exactly when `array[index]` would not throw; false for a null array or a negative index |
| `Extensions.InRangeCollection` | Extensions.cs:13-16 | false for a null collection or a negative index; true only for an index below `Count` |
| `Extensions.InRangeOverloadsAgree` | Extensions.cs:9-16 | on an array, the `ICollection` overload gives the same answer as the `T[]` overload |
| `Extensions.InRangeCollectionGuardsListIndexer` | Extensions.cs:13-16 | on a `List<T>`, the `ICollection` overload is true exactly when `list[index]` would not throw |
| `Extensions.PickRandom` | Extensions.cs:17-25 | returns `default(T)` for a null or empty array whatever the draw; otherwise returns a member of the array |
| `Extensions.PickRandomReadsDrawnIndex` | Extensions.cs:19-22 | on a non-empty array, the access at the drawn index does not throw, and its element is the result |
| `Extensions.PickRandomReachesEveryElement` | Extensions.cs:21-22 | every element of the array is the result for some in-range draw |
| `Extensions.PickRandomList` | Extensions.cs:26-34 | returns `default(T)` for a null or empty list; otherwise returns a member of the list |
| `Extensions.PickRandomListAgreesWithArray` | Extensions.cs:17-34 | the `List<T>` overload returns what the array overload returns on the list's contents, or on null for a null list |
| `Extensions.RemoveNulls` | Extensions.cs:35-39 | requires a non-null list; afterwards the list is the old list without its nulls, is null-free, and is shorter by the number of nulls |
| `NullFilter.NonNullsAppend` | Extensions.cs:37-38 | filtering distributes over concatenation, so survivors keep their relative order |
| `NullFilter.NonNullsKeepsOrder` | Extensions.cs:37-38 | the survivors are the non-null entries taken at strictly increasing positions, and no non-null entry is skipped |
| `NullFilter.NonNullsIsNullFree` | Extensions.cs:37-38 | no null remains after filtering |
| `NullFilter.NonNullsOfNullFree` | Extensions.cs:37-38 | a list without nulls is left unchanged |
| `NullFilter.NonNullsIdempotent` | Extensions.cs:35-39 | filtering twice gives what filtering once gives, so a second `RemoveNulls` changes nothing |
| `NullFilter.NonNullsMultiset` | Extensions.cs:37-38 | exactly the null entries are removed; every other entry keeps its number of occurrences |
| `NullFilter.NonNullsLength` | Extensions.cs:37-38 | `Count` drops by exactly the number of nulls |
| `NullFilter.NonNullsSnoc` | Extensions.cs:38 | one step of the scan: the next entry is kept exactly when it is not null |
| `Extensions.Empty` | Extensions.cs:40-43 | true exactly when index 0 is not in range, that is, for a null array or one of length zero |
| `Extensions.EmptyIffNoIndexInRange` | Extensions.cs:40-43 | an array is empty exactly when no index is in range |
| `Extensions.Get` | Extensions.cs:44-49 | requires a non-null dictionary; returns the stored value for a present key and `default(TValue)` for a missing one |
| `Extensions.GetAfterStore` | Extensions.cs:44-49 | a property of modelling the dictionary as a `map` (the helper itself never stores): `Get` returns the latest value stored under a key, and a store under one key does not change the result for another |
| `Extensions.DocumentedExamples` | Extensions.cs:9-49 | `InRange([10,20,30], 2)`, not `InRange([10,20,30], 3)`, not `InRange(null, 0)`; `Get({"a":1}, "b")` is 0; `[1,null,2,null,3]` filters to `[1,2,3]` |
| `UnityArrayExtensions.InRange` | Assets/Scripts/Helpers/ArrayExtensions.cs:9-12 | true exactly when `array[index]` would not throw; false for a null array or a negative index |
| `UnityArrayExtensions.InRangeCollection` | Assets/Scripts/Helpers/ArrayExtensions.cs:13-16 | false for a null collection or a negative index; true only for an index below `Count` |
| `UnityArrayExtensions.PickRandom` | Assets/Scripts/Helpers/ArrayExtensions.cs:17-25 | for an index from `Random.Range(0, n)`: a member of a non-empty array; `default(T)` for a null or empty one |
| `UnityArrayExtensions.PickRandomList` | Assets/Scripts/Helpers/ArrayExtensions.cs:26-34 | a member of a non-empty list; `default(T)` for a null or empty one |
| `UnityArrayExtensions.RemoveNulls` | Assets/Scripts/Helpers/ArrayExtensions.cs:35-39 | requires a non-null list; afterwards the list is the old list without its nulls, is null-free, and is shorter by the number of nulls |
| `UnityArrayExtensions.Empty` | Assets/Scripts/Helpers/ArrayExtensions.cs:40-43 | true exactly when index 0 is not in range, that is, for a null array or one of length zero |
| `UnityArrayExtensions.EmptyIffNoIndexInRange` | Assets/Scripts/Helpers/ArrayExtensions.cs:40-43 | an array is empty exactly when no index is in range, derived from the general copy's lemma |
| `UnityArrayExtensions.Get` | Assets/Scripts/Helpers/ArrayExtensions.cs:44-49 | requires a non-null dictionary; returns the stored value for a present key and `default(TValue)` for a missing one |
| `UnityArrayExtensions.AgreesWithExtensions` | Assets/Scripts/Helpers/ArrayExtensions.cs:9-49 | on every input, including null and empty ones, and given the same drawn index, every helper of the Unity copy returns what its counterpart in `Extensions.cs` returns, so the lemmas above carry over |

## Left out

- `ArrayExtensions.cs` at the repository root is not part of this model. Every method in it forwards to `System.Array`, whose behaviour belongs to the .NET base library.
- The random generators are left out: the state of `System.Random`, the static constructor that creates it (`Extensions.cs:53-57`), and `UnityEngine.Random`. Only the index they return is modelled, as a parameter in [0, n). Uniformity is a statistical property and is not stated.
- Concurrent calls that share the static `random` field are not modelled.
- `Extensions.InRangeCollection` and `UnityArrayExtensions.InRangeCollection` state only the false cases and the upper bound in their own contracts. The exact condition is stated by `InRangeOverloadsAgree` and `InRangeCollectionGuardsListIndexer`, because inside the function it could only repeat the body.
- `List<T>.RemoveAt` throwing `ArgumentOutOfRangeException` is not modelled. Its one call site passes an index the loop guard has just checked.
- A null key passed to `Get` is not modelled. `Dictionary.TryGetValue` throws `ArgumentNullException` for it, but other `IDictionary` implementations may not. Keys are plain values, and the dictionary is a `map`.
- The `NullReferenceException` that `RemoveNulls` or `Get` throws for a null list or dictionary is not modelled. These cases are preconditions instead.
- C#'s 32-bit `int` is modelled as an unbounded integer. This changes nothing here: every index the helpers compute stays within [-1, Count].
- For a non-nullable value type `T`, `array[i] == null` is always false in C#. The model covers this case as a list that contains no `None`. A `Nullable<U>` entry without a value compares equal to null, and `None` models it.
- Running time is not modelled. Each `List.RemoveAt` shifts the rest of the list, so the loop is quadratic in the worst case.
