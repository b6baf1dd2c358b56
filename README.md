# asyncitertools stream operators in Dafny

asyncitertools is a small Python library of stream operators. Each operator is
an async generator: it pulls values from a source async iterator and yields
values downstream. This project models the operators `map`, `filter`,
`flat_map`, `distinct_until_changed`, `starts_with`, `take` and `subscribe`.
With the `async` plumbing removed, a finite source is a `seq<T>` and each
operator turns it into the sequence of values it yields. Mappers, predicates
and callbacks become Dafny function values.

Everything is in `asyncitertools.dfy`, module `AsyncIterTools`, which follows
the single Python module:

- `map`, `filter`, `flat_map` and `starts_with` only loop and yield. They
  are recursive functions over `seq`, and their contracts say what they
  yield: element by element, as a subsequence with exact counts,
  or as blocks laid end to end.
- `take` keeps a counter and `distinct_until_changed` keeps the last value it
  yielded. Each is a recursive specification function (`Take`,
  `DistinctUntilChanged`) plus a method with the generator's loop
  (`TakeGenerator`, `DistinctUntilChangedGenerator`) proved equal to it.
  `TakeGenerator` also counts the requests it makes to the source iterator.
- `subscribe` awaits the callback for each value before pulling the next. The
  callback's effect is a state transformer `(S, T) -> S`. `Subscribe` is a
  recursive function that records the state each call starts from and the
  final state.

`flat_map` here is sequential: it drains each inner iterator before pulling
the next source value. It does not interleave concurrent branches.
`distinct_until_changed` compares with the last value it yielded. Under
Dafny's equality that value is always the previous source value
(`DistinctSnoc`, and the `lastMsg` invariant of
`DistinctUntilChangedGenerator`).

## Model

| member | source | states |
|---|---|---|
| AsyncIterTools.Map | asyncitertools/__init__.py:19-23 | one output per source value, same length, `r[i] == mapper(source[i])` in source order |
| AsyncIterTools.MapAppend | asyncitertools/__init__.py:19-23 | mapping a concatenation is concatenating the mapped parts |
| AsyncIterTools.FlatMap | asyncitertools/__init__.py:28-34 | the output length is the total length of all inner streams |
| AsyncIterTools.OffsetStep | asyncitertools/__init__.py:28-34 | the inner stream of value k+1 starts exactly where the first k inner streams end |
| AsyncIterTools.FlatMapBlock | asyncitertools/__init__.py:28-34 | `mapper(source[i])` appears whole and contiguous in the output, after the inner streams of all earlier values: the output is the inner streams in source order, none dropped, duplicated or interleaved |
| AsyncIterTools.FlatMapAppend | asyncitertools/__init__.py:28-34 | flat-mapping a concatenation is concatenating the flat-mapped parts |
| AsyncIterTools.FlatMapOfSingletons | asyncitertools/__init__.py:28-34 | with one-value inner streams, flat_map yields what map yields |
| AsyncIterTools.Filter | asyncitertools/__init__.py:39-44 | with a plain predicate: the output is a subsequence of the source, every output value is accepted, and each accepted value occurs as often as in the source while rejected values do not occur |
| AsyncIterTools.FilterAppend | asyncitertools/__init__.py:39-44 | filtering distributes over concatenation |
| AsyncIterTools.FilterKeepsAll | asyncitertools/__init__.py:39-44 | the output equals the source if and only if the predicate accepts every source value |
| AsyncIterTools.FilterIdempotent | asyncitertools/__init__.py:39-44 | filtering twice with one predicate is filtering once |
| AsyncIterTools.FilterAsWritten | asyncitertools/__init__.py:39-44 | the loop as written is `Filter` with the verdict "awaitable, or plain and true": a plain verdict keeps a value exactly when true, and an awaitable verdict keeps it whatever it resolves to, in source order and with source counts |
| AsyncIterTools.FilterAsWrittenKeepsRejected | asyncitertools/__init__.py:41-44 | an awaitable predicate resolving to false still lets `1` through, while a plain false predicate drops it |
| AsyncIterTools.FilterAwaiting | asyncitertools/__init__.py:39-44 | the intended loop, awaiting when needed, yields exactly what `Filter` yields on the resolved verdicts |
| AsyncIterTools.StartsWith | asyncitertools/__init__.py:131-133 | the output is one longer than the source, starts with `value` and continues with the whole source |
| AsyncIterTools.Take | asyncitertools/__init__.py:140-148 | nothing when `count <= 0`, otherwise the first `min(count, |source|)` source values, as a prefix of the source |
| AsyncIterTools.TakeGenerator | asyncitertools/__init__.py:140-148 | the counter loop yields `Take(count, source)`; it makes no source request when `count <= 0`, stops after exactly `count` requests when the source is long enough, and otherwise makes one request past the end, so never more than `count` |
| AsyncIterTools.TakeAll | asyncitertools/__init__.py:140-148 | a count at least the source length yields the whole source |
| AsyncIterTools.TakeTake | asyncitertools/__init__.py:140-148 | two takes in a row are one take of the smaller count |
| AsyncIterTools.TakeMap | asyncitertools/__init__.py:140-148 | taking from a mapped stream is mapping the taken prefix |
| AsyncIterTools.TakeStartsWith | asyncitertools/__init__.py:140-148 | for `count >= 1`, taking from a seeded stream yields the seed, then `count - 1` source values |
| AsyncIterTools.DistinctUntilChanged | asyncitertools/__init__.py:111-118 | empty exactly for an empty source; first output is the first source value, last output is the last source value; no two neighbouring outputs are equal; the output has the same values as the source, and is a subsequence of it |
| AsyncIterTools.DistinctSnoc | asyncitertools/__init__.py:115-118 | one more source value is yielded if and only if it differs from the last value yielded |
| AsyncIterTools.DistinctUntilChangedGenerator | asyncitertools/__init__.py:111-118 | the loop that yields the first value and then each value different from `lastMsg` yields `DistinctUntilChanged(source)` |
| AsyncIterTools.DistinctOfRunFree | asyncitertools/__init__.py:111-118 | a source with no two equal neighbours passes through unchanged |
| AsyncIterTools.DistinctKeepsAll | asyncitertools/__init__.py:111-118 | the output equals the source if and only if the source has no two equal neighbours |
| AsyncIterTools.DistinctIdempotent | asyncitertools/__init__.py:111-118 | applying the operator twice is applying it once |
| AsyncIterTools.DistinctStartsWith | asyncitertools/__init__.py:111-118 | a seed equal to the first source value changes nothing after the operator; any other seed is yielded first |
| AsyncIterTools.DistinctExample | asyncitertools/__init__.py:111-118 | `[1,1,2,2,2,3,1]` yields `[1,2,3,1]` |
| AsyncIterTools.Subscribe | asyncitertools/__init__.py:153-154 | the callback is called once per source value, in source order: call `i` receives `source[i]` and the state call `i-1` produced (the initial state for the first call), and the final state is the one the last call produced, or the initial state for an empty source |
| AsyncIterTools.SubscribeAppend | asyncitertools/__init__.py:153-154 | subscribing to a concatenation is subscribing to the first part, then the second from the state the first left |
| AsyncIterTools.SubscribeLast | asyncitertools/__init__.py:153-154 | the last callback runs after all earlier ones, on the state they produced |

## Left out

- `delay` (asyncitertools/__init__.py:47-67): its purpose is wall-clock shifting with `asyncio.sleep` and float seconds, and it prints; values pass through unchanged.
- `debounce` (asyncitertools/__init__.py:70-102): a background task, an `asyncio.Event` and sleeps; it is timing and concurrency logic with no sequential meaning.
- The `inspect.isawaitable` dispatch in `map` and `flat_map`: the mapper is a pure function whose result is already resolved.
- Exceptions raised by a mapper, predicate, callback or the source: they end the Python stream after the values already yielded; the model's functions are total.
- Laziness and suspension: the model relates a finite source to the full output, not the interleaving of pulls and yields with a consumer. Infinite sources are not modelled; only `TakeGenerator` tracks source requests.
- Python's `!=` in `distinct_until_changed` may be any user-defined relation; the model uses Dafny equality.
- `asyncitertools/observable.py` (`Observable`, `Subject`, `consume`) and `observer/__init__.py`: future-based handshakes between asyncio tasks; they are not part of this model.
- `examples/*` and `setup.py`: demos doing network, GUI and thread-pool I/O, and packaging.

## Findings

| source | as written | input that shows it | evidently intended | confidence | as-written member | corrected member |
|---|---|---|---|---|---|---|
| asyncitertools/__init__.py:41-44 | when the predicate returns an awaitable that resolves falsy, `elif result` tests the awaitable object, which is truthy, so the value is yielded | a predicate returning a coroutine that resolves to `False`, source `[1]`: yields `[1]` | yield a value only when the awaited verdict is truthy | not executed | AsyncIterTools.FilterAsWritten, AsyncIterTools.FilterAsWrittenKeepsRejected | AsyncIterTools.FilterAwaiting |
