/** Stream operators of asyncitertools.

    Each Python operator is an async generator that pulls values from a source
    iterator and yields values downstream. With the `async` plumbing removed, a
    finite source is a `seq<T>` and every operator is a transformation of that
    sequence into the sequence of values it yields. The mapper, predicate and
    callback arguments are Dafny function values.

    `map`, `filter`, `flat_map` and `starts_with` only loop and yield, and
    `subscribe` only loops and awaits a callback, so they are recursive
    functions. `take` and `distinct_until_changed`
    keep loop state (a counter, the last emitted value); each is a recursive
    specification function plus a method that runs the generator's loop and is
    proved equal to it.
 */
module AsyncIterTools {

  function Min(a: int, b: int): int
  {
    if a <= b then a else b
  }

  /** `a` is obtained from `b` by deleting elements, keeping the order of the rest. */
  ghost predicate IsSubsequence<T>(a: seq<T>, b: seq<T>)
    decreases |b|
  {
    if a == [] then true
    else if b == [] then false
    else (a[0] == b[0] && IsSubsequence(a[1..], b[1..])) || IsSubsequence(a, b[1..])
  }

  // ---------------------------------------------------------------- map

  /** `map(mapper, source)`: yields `mapper(msg)` for every source value, in order. */
  function Map<T1, T2>(mapper: T1 -> T2, source: seq<T1>): (r: seq<T2>)
    ensures |r| == |source|
    ensures forall i :: 0 <= i < |source| ==> r[i] == mapper(source[i])
  {
    if source == [] then [] else [mapper(source[0])] + Map(mapper, source[1..])
  }

  /** Mapping two streams one after the other is mapping their concatenation. */
  lemma MapAppend<T1, T2>(mapper: T1 -> T2, a: seq<T1>, b: seq<T1>)
    ensures Map(mapper, a + b) == Map(mapper, a) + Map(mapper, b)
  {
  }

  // ---------------------------------------------------------------- flat_map

  /** The number of values the inner streams of the first `k` source values yield together. */
  ghost function Offset<T1, T2>(mapper: T1 -> seq<T2>, source: seq<T1>, k: nat): nat
    requires k <= |source|
  {
    if k == 0 then 0 else |mapper(source[0])| + Offset(mapper, source[1..], k - 1)
  }

  /** `flat_map(mapper, source)`: for each source value, yields every value of
      `mapper(msg)` before pulling the next source value. */
  function FlatMap<T1, T2>(mapper: T1 -> seq<T2>, source: seq<T1>): (r: seq<T2>)
    ensures |r| == Offset(mapper, source, |source|)
  {
    if source == [] then [] else mapper(source[0]) + FlatMap(mapper, source[1..])
  }

  /** The inner stream of the `k+1`-th source value starts where those of the
      first `k` end. */
  lemma {:induction false} OffsetStep<T1, T2>(mapper: T1 -> seq<T2>, source: seq<T1>, k: nat)
    requires k < |source|
    ensures Offset(mapper, source, k + 1) == Offset(mapper, source, k) + |mapper(source[k])|
  {
    if k > 0 {
      OffsetStep(mapper, source[1..], k - 1);
    }
  }

  /** The inner stream of source value `i` appears whole and contiguous in the
      output, right after the inner streams of the values before it. With
      OffsetStep and FlatMap's length this says that the output is exactly the
      inner streams laid end to end in source order: nothing dropped,
      duplicated or interleaved. */
  lemma {:induction false} FlatMapBlock<T1, T2>(mapper: T1 -> seq<T2>, source: seq<T1>, i: nat)
    requires i < |source|
    ensures Offset(mapper, source, i) + |mapper(source[i])| <= |FlatMap(mapper, source)|
    ensures FlatMap(mapper, source)[Offset(mapper, source, i)..Offset(mapper, source, i) + |mapper(source[i])|]
            == mapper(source[i])
  {
    var head := mapper(source[0]);
    var rest := FlatMap(mapper, source[1..]);
    assert FlatMap(mapper, source) == head + rest;
    if i == 0 {
      assert (head + rest)[..|head|] == head;
    } else {
      FlatMapBlock(mapper, source[1..], i - 1);
      var o := Offset(mapper, source[1..], i - 1);
      var n := |mapper(source[i])|;
      assert source[1..][i - 1] == source[i];
      assert (head + rest)[|head| + o..|head| + o + n] == rest[o..o + n];
    }
  }

  /** Flat-mapping two streams one after the other is flat-mapping their concatenation. */
  lemma {:induction false} FlatMapAppend<T1, T2>(mapper: T1 -> seq<T2>, a: seq<T1>, b: seq<T1>)
    ensures FlatMap(mapper, a + b) == FlatMap(mapper, a) + FlatMap(mapper, b)
  {
    if a == [] {
      assert a + b == b;
    } else {
      assert (a + b)[1..] == a[1..] + b;
      FlatMapAppend(mapper, a[1..], b);
    }
  }

  /** A mapper whose inner streams each yield one value makes flat_map behave as map. */
  lemma {:induction false} FlatMapOfSingletons<T1, T2>(f: T1 -> T2, source: seq<T1>)
    ensures FlatMap(x => [f(x)], source) == Map(f, source)
  {
    if source != [] {
      FlatMapOfSingletons(f, source[1..]);
    }
  }

  // ---------------------------------------------------------------- filter

  /** `filter(predicate, source)` with a predicate that returns a plain value:
      yields the source values the predicate accepts, in their order. */
  function Filter<T>(pred: T -> bool, source: seq<T>): (r: seq<T>)
    ensures |r| <= |source|
    ensures IsSubsequence(r, source)
    ensures forall i :: 0 <= i < |r| ==> pred(r[i])
    ensures forall x :: x in r ==> x in source
    ensures forall x :: x in source ==> multiset(r)[x] == if pred(x) then multiset(source)[x] else 0
  {
    if source == [] then []
    else
      assert source == [source[0]] + source[1..];
      if pred(source[0]) then [source[0]] + Filter(pred, source[1..])
      else Filter(pred, source[1..])
  }

  /** Filtering distributes over concatenation. */
  lemma {:induction false} FilterAppend<T>(pred: T -> bool, a: seq<T>, b: seq<T>)
    ensures Filter(pred, a + b) == Filter(pred, a) + Filter(pred, b)
  {
    if a == [] {
      assert a + b == b;
    } else {
      assert (a + b)[1..] == a[1..] + b;
      FilterAppend(pred, a[1..], b);
    }
  }

  /** Filtering leaves a stream unchanged exactly when the predicate accepts all of it. */
  lemma {:induction false} FilterKeepsAll<T>(pred: T -> bool, source: seq<T>)
    ensures Filter(pred, source) == source <==> forall i :: 0 <= i < |source| ==> pred(source[i])
  {
    if forall i :: 0 <= i < |source| ==> pred(source[i]) {
      if source != [] {
        assert forall i :: 0 <= i < |source[1..]| ==> pred(source[1..][i]) by {
          forall i | 0 <= i < |source[1..]| ensures pred(source[1..][i]) {
            assert source[1..][i] == source[i + 1];
          }
        }
        FilterKeepsAll(pred, source[1..]);
      }
    }
  }

  /** Filtering twice with the same predicate is filtering once. */
  lemma FilterIdempotent<T>(pred: T -> bool, source: seq<T>)
    ensures Filter(pred, Filter(pred, source)) == Filter(pred, source)
  {
    FilterKeepsAll(pred, Filter(pred, source));
  }

  /** What the predicate hands back in the Python code: a plain value, or an
      awaitable that resolves to `value` once awaited. */
  datatype Verdict = Ready(value: bool) | Pending(value: bool)

  /** The `filter` loop as written: an awaitable verdict that resolves falsy
      falls through to `elif result`, which tests the awaitable object itself,
      and a coroutine object is always truthy. So an awaitable verdict keeps
      the value whatever it resolves to. */
  function FilterAsWritten<T>(pred: T -> Verdict, source: seq<T>): (r: seq<T>)
    ensures r == Filter(x => pred(x).Pending? || pred(x).value, source)
  {
    if source == [] then []
    else
      var keep := match pred(source[0])
        // a falsy resolution reaches `elif result`, and a coroutine object is truthy
        case Pending(_) => true
        case Ready(v) => v;
      if keep then [source[0]] + FilterAsWritten(pred, source[1..])
      else FilterAsWritten(pred, source[1..])
  }

  /** An awaitable predicate that always resolves to false still lets the value through. */
  lemma FilterAsWrittenKeepsRejected()
    ensures FilterAsWritten((x: int) => Pending(false), [1]) == [1]
    ensures Filter((x: int) => false, [1]) == []
  {
  }

  /** The evidently intended loop: a value is yielded exactly when its verdict,
      awaited if need be, is true. */
  function FilterAwaiting<T>(pred: T -> Verdict, source: seq<T>): (r: seq<T>)
    ensures r == Filter(x => pred(x).value, source)
  {
    if source == [] then []
    else if pred(source[0]).value then [source[0]] + FilterAwaiting(pred, source[1..])
    else FilterAwaiting(pred, source[1..])
  }

  // ---------------------------------------------------------------- starts_with

  /** `starts_with(value, source)`: yields `value`, then every source value. */
  function StartsWith<T>(value: T, source: seq<T>): (r: seq<T>)
    ensures |r| == |source| + 1
    ensures r[0] == value && r[1..] == source
  {
    [value] + source
  }

  // ---------------------------------------------------------------- take

  /** The values `take(count, source)` yields: nothing when `count <= 0`, else
      source values one by one until `count` of them have been yielded or the
      source ends. */
  function Take<T>(count: int, source: seq<T>): (r: seq<T>)
    ensures |r| == if count <= 0 then 0 else Min(count, |source|)
    ensures r == source[..|r|]
    decreases |source|
  {
    if count <= 0 || source == [] then [] else [source[0]] + Take(count - 1, source[1..])
  }

  /** The `take` generator's loop. `pulls` counts the requests made to the
      source iterator, the one that finds it exhausted included: none when
      `count <= 0`, and never more than `count`, since the loop returns as soon
      as the counter reaches `count`. */
  method TakeGenerator<T>(count: int, source: seq<T>) returns (emitted: seq<T>, pulls: nat)
    ensures emitted == Take(count, source)
    ensures pulls == if count <= 0 then 0 else if count <= |source| then count else |source| + 1
  {
    emitted, pulls := [], 0;
    if count <= 0 {
      return;
    }
    var counter := 0;
    while pulls < |source|
      invariant pulls <= |source|
      invariant counter == pulls < count
      invariant emitted == source[..pulls]
    {
      var msg := source[pulls];
      pulls := pulls + 1;
      emitted := emitted + [msg];
      counter := counter + 1;
      if counter == count {
        return;
      }
    }
    // the request that reports the end of the source
    pulls := pulls + 1;
  }

  /** Taking all or more than all of a stream leaves it unchanged. */
  lemma TakeAll<T>(count: int, source: seq<T>)
    requires count >= |source|
    ensures Take(count, source) == source
  {
  }

  /** Two takes in a row are one take of the smaller count. */
  lemma TakeTake<T>(m: int, n: int, source: seq<T>)
    ensures Take(m, Take(n, source)) == Take(Min(m, n), source)
  {
  }

  /** Taking from a mapped stream is mapping the taken prefix. */
  lemma TakeMap<T1, T2>(count: int, mapper: T1 -> T2, source: seq<T1>)
    ensures Take(count, Map(mapper, source)) == Map(mapper, Take(count, source))
  {
  }

  /** Taking from a seeded stream yields the seed, then one value fewer of the source. */
  lemma TakeStartsWith<T>(count: int, value: T, source: seq<T>)
    requires count >= 1
    ensures Take(count, StartsWith(value, source)) == StartsWith(value, Take(count - 1, source))
  {
  }

  // ---------------------------------------------------------------- distinct_until_changed

  /** The values `distinct_until_changed(source)` yields: each run of equal
      consecutive source values collapsed into one value. */
  function DistinctUntilChanged<T(==)>(source: seq<T>): (r: seq<T>)
    ensures |r| <= |source|
    ensures r == [] <==> source == []
    ensures source != [] ==> r[0] == source[0] && r[|r| - 1] == source[|source| - 1]
    ensures forall i :: 0 <= i < |r| - 1 ==> r[i] != r[i + 1]
    ensures forall x :: x in r ==> x in source
    ensures forall x :: x in source ==> x in r
    ensures IsSubsequence(r, source)
    decreases |source|
  {
    if |source| <= 1 then source
    else if source[0] == source[1] then DistinctUntilChanged(source[1..])
    else
      assert source == [source[0]] + source[1..];
      [source[0]] + DistinctUntilChanged(source[1..])
  }

  /** One more source value is yielded exactly when it differs from the last
      value yielded, which is always the previous source value. */
  lemma {:induction false} DistinctSnoc<T>(source: seq<T>, msg: T)
    requires source != []
    ensures DistinctUntilChanged(source + [msg]) ==
            if msg == source[|source| - 1] then DistinctUntilChanged(source)
            else DistinctUntilChanged(source) + [msg]
  {
    var s := source + [msg];
    if |source| == 1 {
      assert s == [source[0], msg];
    } else {
      assert s[1..] == source[1..] + [msg];
      DistinctSnoc(source[1..], msg);
    }
  }

  /** The `distinct_until_changed` generator's loop: the first value is
      yielded unconditionally, each later one only when it differs from
      `lastMsg`, the last value yielded. */
  method DistinctUntilChangedGenerator<T(==)>(source: seq<T>) returns (emitted: seq<T>)
    ensures emitted == DistinctUntilChanged(source)
  {
    emitted := [];
    if source == [] {
      return;
    }
    var lastMsg := source[0];
    emitted := [lastMsg];
    var i := 1;
    while i < |source|
      invariant 1 <= i <= |source|
      invariant emitted == DistinctUntilChanged(source[..i])
      invariant lastMsg == source[i - 1]
    {
      var msg := source[i];
      assert source[..i + 1] == source[..i] + [msg];
      DistinctSnoc(source[..i], msg);
      if msg != lastMsg {
        lastMsg := msg;
        emitted := emitted + [msg];
      }
      i := i + 1;
    }
    assert source[..i] == source;
  }

  /** A stream with no two equal neighbours passes through unchanged. */
  lemma {:induction false} DistinctOfRunFree<T>(source: seq<T>)
    requires forall i :: 0 <= i < |source| - 1 ==> source[i] != source[i + 1]
    ensures DistinctUntilChanged(source) == source
  {
    if |source| > 1 {
      var tail := source[1..];
      assert source[0] != source[1];
      forall i | 0 <= i < |tail| - 1
        ensures tail[i] != tail[i + 1]
      {
        assert tail[i] == source[i + 1] && tail[i + 1] == source[i + 2];
      }
      DistinctOfRunFree(tail);
      assert DistinctUntilChanged(source) == [source[0]] + DistinctUntilChanged(tail);
      assert source == [source[0]] + tail;
    }
  }

  /** Exactly the streams with no two equal neighbours pass through unchanged. */
  lemma DistinctKeepsAll<T>(source: seq<T>)
    ensures DistinctUntilChanged(source) == source <==>
            forall i :: 0 <= i < |source| - 1 ==> source[i] != source[i + 1]
  {
    if forall i :: 0 <= i < |source| - 1 ==> source[i] != source[i + 1] {
      DistinctOfRunFree(source);
    }
  }

  /** Collapsing runs twice is collapsing them once. */
  lemma DistinctIdempotent<T>(source: seq<T>)
    ensures DistinctUntilChanged(DistinctUntilChanged(source)) == DistinctUntilChanged(source)
  {
    DistinctKeepsAll(DistinctUntilChanged(source));
  }

  /** Seeding a stream with the value it already starts with changes nothing
      downstream of distinct_until_changed; any other seed is yielded first. */
  lemma DistinctStartsWith<T>(value: T, source: seq<T>)
    ensures DistinctUntilChanged(StartsWith(value, source)) ==
            if source != [] && source[0] == value then DistinctUntilChanged(source)
            else StartsWith(value, DistinctUntilChanged(source))
  {
  }

  lemma DistinctExample()
    ensures DistinctUntilChanged([1, 1, 2, 2, 2, 3, 1]) == [1, 2, 3, 1]
  {
  }

  // ---------------------------------------------------------------- subscribe

  /** What a sequential subscription leaves behind: the state the callback's
      effects have built, and the state each callback invocation started
      from, followed by that final state. */
  datatype Run<S> = Run(final: S, states: seq<S>)

  /** `subscribe(callback, source)`: awaits `callback(msg)` for each source
      value before pulling the next. The callback's effect is a state
      transformer. */
  function Subscribe<S, T>(callback: (S, T) -> S, state: S, source: seq<T>): (r: Run<S>)
    ensures |r.states| == |source| + 1
    ensures r.states[0] == state
    ensures forall i :: 0 <= i < |source| ==> r.states[i + 1] == callback(r.states[i], source[i])
    ensures r.final == r.states[|source|]
  {
    if source == [] then Run(state, [state])
    else
      var rest := Subscribe(callback, callback(state, source[0]), source[1..]);
      assert forall i :: 1 <= i < |source| ==> source[i] == source[1..][i - 1];
      Run(rest.final, [state] + rest.states)
  }

  /** Subscribing to two streams one after the other, the second starting from
      the state the first left, is subscribing to their concatenation. */
  lemma {:induction false} SubscribeAppend<S, T>(callback: (S, T) -> S, state: S, a: seq<T>, b: seq<T>)
    ensures Subscribe(callback, state, a + b).final
            == Subscribe(callback, Subscribe(callback, state, a).final, b).final
  {
    if a == [] {
      assert a + b == b;
    } else {
      assert (a + b)[1..] == a[1..] + b;
      SubscribeAppend(callback, callback(state, a[0]), a[1..], b);
    }
  }

  /** The last callback runs once, after all earlier ones, on the state they produced. */
  lemma SubscribeLast<S, T>(callback: (S, T) -> S, state: S, source: seq<T>, msg: T)
    ensures Subscribe(callback, state, source + [msg]).final
            == callback(Subscribe(callback, state, source).final, msg)
  {
    SubscribeAppend(callback, state, source, [msg]);
  }
}
