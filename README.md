# CursorSeries navigation core, modelled in Dafny

This project models the random-access layer of Spreads' `CursorSeries`. A
series is also a cursor over its own data. It answers `IsEmpty`, `First`,
`Last`, `GetAt`, `TryFind`, `TryGetFirst` and `TryGetLast` by repositioning
one navigation cursor, which it creates lazily and tags `Navigating`.
`GetEnumerator`, `Keys` and `Values` work on cursors of their own. The project
also models the payload of `OutOfOrderKeyException` and the two recovery
idioms that its documentation describes.

Files and modules:

- `outcomes.dfy` (`Outcomes`): one `Failure` constructor per exception the
  series throws, and a `Result` type.
- `navigation.dfy` (`Navigation`): keys, pairs, `Lookup` directions and the
  value-level meaning of each movement. `Seek` is `MoveAt`, `NextPos` is
  `MoveNext`, and `AtIndexAsWritten` is what `GetAt` computes. The lemmas
  here state what these functions promise.
- `cursor_series.dfy` (`Cursors`): the class `CursorSeries<V>`. It holds
  - a position (`-1` means unpositioned);
  - a `CursorState` (`None` / `Initialized` / `Navigating`);
  - the owner thread id;
  - the nullable `navigationCursor` field.

  `MoveFirst`, `MoveLast`, `MoveNext`, `MoveAt` and `Create` are abstract in
  the source. Here a reference cursor over a strictly key-sorted `seq`
  supplies them. The series operations are methods on top of it, each proved
  against the functions in `Navigation`.
- `exceptions.dfy` (`Exceptions`): the immutable payload, its two
  constructors, and the recovery lemmas.

Modelling decisions:

- The current thread is a parameter, `tid`.
- Every lock is left out: calls are sequential.
- The class has two roles because the source requires
  `TCursor : CursorSeries`.
- `Create` is abstract in the source. Its documentation
  (CursorSeries.cs:208-211) says only "Create an uninitialized copy". The
  self-return comes from the `NavCursor` getter instead. Its comment and
  diagnostic (CursorSeries.cs:35-46) expect the cursor to return itself
  and then set its state to `Initialized`, when the state was `None` and the
  call comes from the owner thread. That comment names `Clone`, but line 33
  calls `Create`. The reference `Create` meets that expectation only when
  the constant `reusesSelf` holds. In every other case it allocates a new
  cursor. So the `NavCursor` diagnostic can be raised or not. It is raised
  exactly on the first access, from the owner thread, in state `None`, by a
  cursor kind that does not reuse itself.
- A successful move takes a cursor out of `None`.
- A failed `MoveNext` or `MoveAt` leaves the cursor unpositioned.
- `MoveNext` from the unpositioned state goes to the first key. The
  `while (c.MoveNext())` enumeration loops depend on this.

## Model

| member | source | states |
|---|---|---|
| `Cursors.CursorSeries.constructor` | src/Spreads.Core/Cursors/CursorSeries.cs:21-23 | A new series records the constructing thread, is unpositioned, has state `None` and has no navigation cursor yet |
| `Cursors.CursorSeries.NavCursor` | src/Spreads.Core/Cursors/CursorSeries.cs:25-53 | The returned cursor is the `navigationCursor` field and is `Navigating`. Once the field is set, later calls return that same object and change nothing. On the first call the cursor is `this` exactly when self-reuse applied, and a fresh unpositioned cursor otherwise. The violation flag is raised iff the first call came from the owner thread, the state was `None`, and `Create` left the state other than `Initialized` |
| `Cursors.CursorSeries.Create` | src/Spreads.Core/Cursors/CursorSeries.cs:33-46 | Returns an unpositioned cursor over the same data that is never the navigation cursor. It is `this`, moved from `None` to `Initialized`, iff the state was `None`, the call is from the owner thread and the cursor kind reuses itself. Otherwise it is a fresh cursor in state `None` owned by the calling thread |
| `Cursors.CursorSeries.MoveFirst` | src/Spreads.Core/Cursors/CursorSeries.cs:78 | Succeeds iff the series is non-empty. It then positions at index 0, and otherwise leaves the cursor unpositioned. Used again at lines 91, 115 and 152 |
| `Cursors.CursorSeries.MoveLast` | src/Spreads.Core/Cursors/CursorSeries.cs:104 | Succeeds iff the series is non-empty. It then positions at the last index, and otherwise leaves the cursor unpositioned. Used again at line 168 |
| `Cursors.CursorSeries.MoveAt` | src/Spreads.Core/Cursors/CursorSeries.cs:136 | The position becomes `Seek(data, key, dir)`. The move succeeds iff that is a position |
| `Cursors.CursorSeries.MoveNext` | src/Spreads.Core/Cursors/CursorSeries.cs:121 | The position advances by one, or becomes unpositioned past the end. The move succeeds iff it stays positioned |
| `Cursors.CursorSeries.GetEnumerator` | src/Spreads.Core/Cursors/CursorSeries.cs:59-63 | Returns a cursor from `Create` that is unpositioned, is never the navigation cursor, and is fresh or the self-reused series. It is the series itself exactly when the state was `None`, the call came from the owner thread and the kind reuses itself. The series is then `Initialized`. Otherwise it is a fresh cursor in state `None`, and the series' state is unchanged |
| `Cursors.CursorSeries.IsEmpty` | src/Spreads.Core/Cursors/CursorSeries.cs:72-81 | True iff `MoveFirst` on the navigation cursor fails, i.e. iff the data is empty. The navigation cursor is left at the first position or unpositioned. On a first access the new navigation cursor is `this` exactly when self-reuse applied, and fresh otherwise. The series' own position and state are unchanged unless it is itself the navigation cursor |
| `Cursors.CursorSeries.First` | src/Spreads.Core/Cursors/CursorSeries.cs:84-94 | On a non-empty series, returns the pair with the minimum key. On an empty series, fails with `InvalidOperation("Series is empty")`. The navigation cursor ends at index 0, or unpositioned. On a first access the new navigation cursor is `this` exactly when self-reuse applied, and fresh otherwise. The series' own position and state are unchanged unless it is itself the navigation cursor |
| `Cursors.CursorSeries.Last` | src/Spreads.Core/Cursors/CursorSeries.cs:97-107 | On a non-empty series, returns the pair with the maximum key. On an empty series, fails with `InvalidOperation("Series is empty")`. The navigation cursor ends at the last index, or unpositioned. On a first access the new navigation cursor is `this` exactly when self-reuse applied, and fresh otherwise. The series' own position and state are unchanged unless it is itself the navigation cursor |
| `Cursors.CursorSeries.GetAt` | src/Spreads.Core/Cursors/CursorSeries.cs:110-128 | The result equals `AtIndexAsWritten(data, idx)`. A negative index fails with `ArgumentOutOfRange("idx")` and leaves every object unchanged, including one with no navigation cursor yet. Otherwise the navigation cursor ends at the element returned, or unpositioned after a failure. On a first access the new navigation cursor is `this` exactly when self-reuse applied, and fresh otherwise. The series' own position and state are unchanged unless it is itself the navigation cursor |
| `Cursors.CursorSeries.GetAtZeroBased` | src/Spreads.Core/Cursors/CursorSeries.cs:110-128 | The corrected `GetAt`: the result equals `AtIndexIntended(data, idx)`, with the same error handling. For a non-negative index the navigation cursor ends at index `idx`, or unpositioned after a failure. On a first access the new navigation cursor is `this` exactly when self-reuse applied, and fresh otherwise. The series' own position and state are unchanged unless it is itself the navigation cursor |
| `Cursors.CursorSeries.TryFind` | src/Spreads.Core/Cursors/CursorSeries.cs:131-144 | Never fails. It returns true iff some key matches the lookup, and then returns the pair at `Seek(data, key, dir)`. Otherwise it returns the default pair. The navigation cursor ends at `Seek(data, key, dir)`. On a first access the new navigation cursor is `this` exactly when self-reuse applied, and fresh otherwise. The series' own position and state are unchanged unless it is itself the navigation cursor |
| `Cursors.CursorSeries.TryGetFirst` | src/Spreads.Core/Cursors/CursorSeries.cs:147-160 | Returns true with the minimum-key pair iff the series is non-empty. Otherwise it returns false with the default pair and does not fail. The navigation cursor ends at index 0, or unpositioned. On a first access the new navigation cursor is `this` exactly when self-reuse applied, and fresh otherwise. The series' own position and state are unchanged unless it is itself the navigation cursor |
| `Cursors.CursorSeries.TryGetLast` | src/Spreads.Core/Cursors/CursorSeries.cs:163-176 | Returns true with the maximum-key pair iff the series is non-empty. Otherwise it returns false with the default pair and does not fail. The navigation cursor ends at the last index, or unpositioned. On a first access the new navigation cursor is `this` exactly when self-reuse applied, and fresh otherwise. The series' own position and state are unchanged unless it is itself the navigation cursor |
| `Cursors.CursorSeries.Keys` | src/Spreads.Core/Cursors/CursorSeries.cs:179-191 | Returns every key in series order by driving its own cursor. The navigation cursor field and that cursor's position are untouched. If `Create` allocated, the series' own position and state are unchanged. If `Create` returned the series itself, the series ends unpositioned and `Initialized` |
| `Cursors.CursorSeries.Values` | src/Spreads.Core/Cursors/CursorSeries.cs:194-206 | Returns every value in key order by driving its own cursor. The navigation cursor field and that cursor's position are untouched. If `Create` allocated, the series' own position and state are unchanged. If `Create` returned the series itself, the series ends unpositioned and `Initialized` |
| `Cursors.CursorSeries.MoveNextAsync` | src/Spreads.Core/Cursors/CursorSeries.cs:219 | Always fails with not-supported |
| `Navigation.Seek` | src/Spreads.Core/Cursors/CursorSeries.cs:136 | A lookup fails iff no key matches the direction. Otherwise it finds a matching key: the nearest one above for EQ/GE/GT, the nearest one below for LT/LE |
| `Navigation.SeekEqFindsKey` | src/Spreads.Core/Cursors/CursorSeries.cs:131-144 | In a series with unique keys, an EQ lookup of a present key lands on that key's position |
| `Navigation.SeekScenario` | src/Spreads.Core/Cursors/CursorSeries.cs:131-144 | On {1:a, 3:b, 5:c}: `TryFind(3, EQ)` gives position 1, `(4, GE)` gives 2, `(4, LE)` gives 1, and `(6, GE)` fails |
| `Navigation.EndsAreExtremes` | src/Spreads.Core/Cursors/CursorSeries.cs:84-107 | In a sorted series, the first pair has the minimum key and the last pair has the maximum key |
| `Navigation.ExtremesAreUnique` | src/Spreads.Core/Cursors/CursorSeries.cs:84-107 | With unique keys, the first pair is the only minimum-key pair and the last pair is the only maximum-key pair |
| `Navigation.KeysAscending` | src/Spreads.Core/Cursors/CursorSeries.cs:179-191 | Enumerated keys are strictly ascending |
| `Navigation.AsWrittenDomain` | src/Spreads.Core/Cursors/CursorSeries.cs:115-125 | As written, a non-negative `GetAt` succeeds iff the series is non-empty and `idx <= n`. Every other failure is key-not-found, and `GetAt(0) == GetAt(1)` |
| `Navigation.AsWrittenIsShifted` | src/Spreads.Core/Cursors/CursorSeries.cs:119-126 | As written, `GetAt(idx)` for `1 <= idx <= n` returns element `idx - 1` |
| `Navigation.GetAtOffByOne` | src/Spreads.Core/Cursors/CursorSeries.cs:119 | On a two-element series, indices 0 and 1 give the same value, and index 2 succeeds where the 0-based reading fails |
| `Navigation.AtIndexIntendedIsIth` | src/Spreads.Core/Cursors/CursorSeries.cs:110-128 | The 0-based reading returns the idx-th value in key order. It fails with argument-out-of-range below 0 and with key-not-found at or past `n` |
| `Exceptions.WithNewKey` | src/Spreads.Core/Exceptions.cs:49-54 | Stores both keys, sets `hasKnownNewKey`, and keeps the message, which defaults to "Out of order data" |
| `Exceptions.WithoutNewKey` | src/Spreads.Core/Exceptions.cs:56-60 | Stores the current key, clears `hasKnownNewKey`, and leaves the new key at the default 0. The message defaults to "Out of order data" |
| `Exceptions.ConstructorsDistinct` | src/Spreads.Core/Exceptions.cs:40-60 | Both constructors default the message. They differ in `hasKnownNewKey`, and the fields determine the arguments |
| `Exceptions.ResumeIsMoveNext` | src/Spreads.Core/Exceptions.cs:27-29 | For a cursor that was at `currentKey`, `MoveAt(currentKey, GT)` lands where `MoveNext` would. It fails iff `currentKey` is the last key |
| `Exceptions.ReplayFindsNewKey` | src/Spreads.Core/Exceptions.cs:30 | With a known new key, `MoveAt(newKey, EQ)` succeeds iff the key is present, and then it lands on that key |
| `Exceptions.RecoveryScenario` | src/Spreads.Core/Exceptions.cs:27-30 | On a concrete series, replay lands on the new key and resume lands on the next key above the current one |

## Left out

- Locks (`lock (SyncRoot)`) and every thread-safety claim: calls are modelled as sequential.
- Thread identity: `Environment.CurrentManagedThreadId` is the explicit parameter `tid`.
- `Trace.TraceWarning` and the DEBUG-only `ApplicationException` in the navigation-cursor getter: these become the returned `violation` flag. The queries that use the getter ignore the flag, as a release build does.
- `GetCursor()`, the async cursor adapter `BaseCursorAsync` and its cancellation: the adapter's source is not part of this model. `Keys`/`Values` use a cursor from `Create` directly. Only the series-level async `MoveNext`, which always fails, is modelled.
- The static `GetCursor<TKey1,TValue1,TCursor1>` runtime type-test unwrap: it dispatches on classes that are not part of this model.
- `Clone()`: it is abstract and no operation in the core calls it. The self-return that the `NavCursor` comment and diagnostic (CursorSeries.cs:35-46) expect is attributed there to `Clone`. The model puts it on `Create`, which is what line 33 calls.
- `Source`: it only returns `this`.
- `Keys`, `Values`: the source yields lazily. The model returns the whole sequence at once. The cursor's disposal at the end of the `using` block is not modelled.
- Generic keys and comparers: keys are integers in their natural order, so `default(TKey)` is 0. `default(TValue)` is the constant `defaultValue`.
- Detection of out-of-order writes: no cursor in this core raises the exception. Only the payload and the recovery idioms are modelled.
- `src/Spreads.Core/Utils/TaskEx.cs` (task factories) and `tests/Spreads.Core.Tests/Program.cs` (a benchmark entry point): they have no logic of the core.

## Findings

| source | as written | input that shows it | evidently intended | confidence | as-written member | corrected member |
|---|---|---|---|---|---|---|
| src/Spreads.Core/Cursors/CursorSeries.cs:119 | After `MoveFirst`, `GetAt` advances with `for (i = 0; i < idx - 1; i++)` and so returns element `max(0, idx - 1)`. | Series {1:'a', 3:'b'}: `GetAt(0)` and `GetAt(1)` both return 'a'. `GetAt(2)` returns 'b' instead of failing with key-not-found. | Loop bound `i < idx`: a 0-based `GetAt` that fails with key-not-found for `idx >= n`. | not executed; shown by proof | `Navigation.GetAtOffByOne` | `Cursors.CursorSeries.GetAtZeroBased` |

`Cursors.CursorSeries.GetAt` models the code as written, and
`Navigation.AsWrittenDomain` and `Navigation.AsWrittenIsShifted` state its
behaviour. `Cursors.CursorSeries.GetAtZeroBased` is the corrected method.
`Navigation.AtIndexIntendedIsIth` states its behaviour.
