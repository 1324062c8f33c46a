/** bufferStageFunc of main.go as a sequential state machine. The stage reacts
    to one event at a time: a value from the previous stage is pushed into its
    ring buffer, an elapsed flush interval (a tick) gets the buffer's contents
    and forwards them one by one, and the shutdown signal ends the stage at
    once, discarding whatever is still buffered. */
module Stage {
  import opened Ring
  import opened Subsequence
  import opened Filters

  datatype Event = Value(v: int) | Tick | Done

  /** The values carried by the events, in order. */
  function Values(events: seq<Event>): seq<int>
    decreases |events|
  {
    if events == [] then []
    else if events[0].Value? then [events[0].v] + Values(events[1..])
    else Values(events[1..])
  }

  /** A run of values with no tick or shutdown in between. */
  function AsEvents(xs: seq<int>): seq<Event>
  {
    seq(|xs|, i requires 0 <= i < |xs| => Value(xs[i]))
  }

  /** What the stage forwards when it meets `events` with live buffer contents
      `live` and buffer capacity `n`. */
  function Run(events: seq<Event>, live: seq<int>, n: nat): (r: seq<int>)
    ensures |r| <= |live| + |Values(events)|
    decreases |events|
  {
    if events == [] then []
    else match events[0]
      case Value(v) => Run(events[1..], Pushed(live, v, n), n)
      case Tick =>
        var drained := Drain(live);
        (if drained.1.Some? then drained.1.value else []) + Run(events[1..], drained.0, n)
      case Done => []
  }

  /** The stage's loop over the events it observes, with a fresh buffer of
      capacity `size`. */
  method BufferStage(events: seq<Event>, size: int) returns (emitted: seq<int>)
    requires size > 0
    ensures emitted == Run(events, [], size)
  {
    var buffer := new RingIntBuffer(size);
    emitted := [];
    var i := 0;
    while i < |events|
      invariant 0 <= i <= |events|
      invariant fresh(buffer) && fresh(buffer.arr)
      invariant buffer.Valid() && buffer.size == size
      invariant emitted + Run(events[i..], buffer.Live(), size) == Run(events, [], size)
    {
      ghost var before := buffer.Live();
      assert events[i..][0] == events[i] && events[i..][1..] == events[i + 1..];
      match events[i] {
        case Value(data) =>
          buffer.Push(data);
        case Tick =>
          var bufferData := buffer.Get();
          if bufferData.Some? {
            var data := bufferData.value;
            ghost var start := emitted;
            for j := 0 to |data|
              invariant emitted == start + data[..j]
            {
              emitted := emitted + [data[j]];
            }
            assert data[..|data|] == data;
          }
        case Done =>
          return;
      }
      i := i + 1;
    }
    assert events[i..] == [];
  }

  /** Shutdown ends the stage: it forwards nothing of what is still in the
      buffer and nothing after it, so the output is what the events before it
      forwarded. */
  lemma {:induction false} DoneDiscards(pre: seq<Event>, post: seq<Event>, live: seq<int>, n: nat)
    ensures Run(pre + [Done] + post, live, n) == Run(pre, live, n)
    decreases |pre|
  {
    if pre == [] {
      assert (pre + [Done] + post)[0] == Done;
    } else {
      assert (pre + [Done] + post)[0] == pre[0];
      assert (pre + [Done] + post)[1..] == pre[1..] + [Done] + post;
      var next := match pre[0]
        case Value(v) => Pushed(live, v, n)
        case Tick => Drain(live).0
        case Done => live;
      DoneDiscards(pre[1..], post, next, n);
    }
  }

  /** The stage only drops values: what it forwards is an order-preserving
      subsequence of the buffered values followed by the values it receives. */
  lemma {:induction false} OutputIsSubsequence(events: seq<Event>, live: seq<int>, n: nat)
    ensures IsSubseq(Run(events, live, n), live + Values(events))
    decreases |events|, 1
  {
    if events != [] {
      match events[0]
      case Value(v) => OutputIsSubsequenceValue(events, live, n);
      case Tick => OutputIsSubsequenceTick(events, live, n);
      case Done =>
    }
  }

  /** The value case of OutputIsSubsequence: the push keeps a suffix of the
      old contents followed by the new value. */
  lemma {:induction false} OutputIsSubsequenceValue(events: seq<Event>, live: seq<int>, n: nat)
    requires events != [] && events[0].Value?
    ensures IsSubseq(Run(events, live, n), live + Values(events))
    decreases |events|, 0
  {
    var rest := events[1..];
    var v := events[0].v;
    var w := Pushed(live, v, n);
    OutputIsSubsequence(rest, w, n);
    var dropped := (live + [v])[..|live| + 1 - |w|];
    PushedKeepsSuffix(live, v, n);
    assert Values(events) == [v] + Values(rest);
    calc {
      live + Values(events);
      live + ([v] + Values(rest));
      (live + [v]) + Values(rest);
      (dropped + w) + Values(rest);
      dropped + (w + Values(rest));
    }
    SubseqPrependRight(Run(rest, w, n), dropped, w + Values(rest));
  }

  /** The tick case of OutputIsSubsequence. */
  lemma {:induction false} OutputIsSubsequenceTick(events: seq<Event>, live: seq<int>, n: nat)
    requires events != [] && events[0] == Tick
    ensures IsSubseq(Run(events, live, n), live + Values(events))
    decreases |events|, 0
  {
    var rest := events[1..];
    assert Values(events) == Values(rest);
    if |live| <= 1 {
      OutputIsSubsequence(rest, live, n);
      assert Run(events, live, n) == [] + Run(rest, live, n) == Run(rest, live, n);
    } else {
      OutputIsSubsequence(rest, [], n);
      assert [] + Values(rest) == Values(rest);
      assert Run(events, live, n) == live + Run(rest, [], n);
      SubseqPrependBoth(live, Run(rest, [], n), Values(rest));
    }
  }

  /** Pushing a run of values moves the buffer contents as PushAll says and
      forwards nothing. */
  lemma {:induction false} RunValues(xs: seq<int>, rest: seq<Event>, live: seq<int>, n: nat)
    ensures Run(AsEvents(xs) + rest, live, n) == Run(rest, PushAll(live, xs, n), n)
    decreases |xs|
  {
    if xs == [] {
      assert AsEvents(xs) + rest == rest;
    } else {
      assert (AsEvents(xs) + rest)[0] == Value(xs[0]);
      assert (AsEvents(xs) + rest)[1..] == AsEvents(xs[1..]) + rest;
      RunValues(xs[1..], rest, Pushed(live, xs[0], n), n);
    }
  }

  /** A tick after the values `xs` arrive at a freshly started stage forwards
      the newest min(|xs|, n) of them in arrival order, unless that leaves at
      most one value in the buffer: then nothing is forwarded. */
  lemma TickAfterValues(xs: seq<int>, n: nat)
    ensures Run(AsEvents(xs) + [Tick], [], n) == if |Window(xs, n)| >= 2 then Window(xs, n) else []
  {
    RunValues(xs, [Tick], [], n);
    PushesFromEmpty(xs, n);
  }

  /** With capacity 1 the buffer never holds more than one value, so get never
      hands anything out and the stage forwards nothing at all. */
  lemma {:induction false} CapacityOneForwardsNothing(events: seq<Event>, live: seq<int>)
    requires |live| <= 1
    ensures Run(events, live, 1) == []
    decreases |events|
  {
    if events != [] {
      match events[0]
      case Value(v) => CapacityOneForwardsNothing(events[1..], Pushed(live, v, 1));
      case Tick => CapacityOneForwardsNothing(events[1..], live);
      case Done =>
    }
  }

  /** The events as the buffer stage sees them after the two filter stages:
      values failing either predicate are gone, ticks and shutdown pass as they are. */
  function ThroughFilters(events: seq<Event>): (r: seq<Event>)
    ensures |r| <= |events|
    ensures forall i :: 0 <= i < |r| && r[i].Value? ==> Positive(r[i].v) && DividesByThree(r[i].v)
    decreases |events|
  {
    if events == [] then []
    else if events[0].Value? && !(Positive(events[0].v) && DividesByThree(events[0].v)) then ThroughFilters(events[1..])
    else [events[0]] + ThroughFilters(events[1..])
  }

  /** The values reaching the buffer stage are exactly the two filters applied in turn. */
  lemma {:induction false} ThroughFiltersValues(events: seq<Event>)
    ensures Values(ThroughFilters(events)) == Filter(Filter(Values(events), Positive), DividesByThree)
    decreases |events|
  {
    FilterCompose(Values(events), Positive, DividesByThree);
    if events != [] {
      ThroughFiltersValues(events[1..]);
      FilterCompose(Values(events[1..]), Positive, DividesByThree);
      var t := ThroughFilters(events[1..]);
      if !(events[0].Value? && !(Positive(events[0].v) && DividesByThree(events[0].v))) {
        assert ([events[0]] + t)[0] == events[0] && ([events[0]] + t)[1..] == t;
      }
    }
  }

  /** Every value the pipeline logs was typed in, is positive and is a multiple
      of three, and logged values keep their input order. */
  lemma LoggedValues(events: seq<Event>, n: nat)
    ensures IsSubseq(Run(ThroughFilters(events), [], n), Values(events))
    ensures forall x :: x in Run(ThroughFilters(events), [], n) ==> x > 0 && x % 3 == 0
  {
    var staged := ThroughFilters(events);
    var out := Run(staged, [], n);
    OutputIsSubsequence(staged, [], n);
    assert [] + Values(staged) == Values(staged);
    ThroughFiltersValues(events);
    var once := Filter(Values(events), Positive);
    FilterIsSubsequence(Values(events), Positive);
    FilterIsSubsequence(once, DividesByThree);
    SubseqTrans(out, Values(staged), once);
    SubseqTrans(out, once, Values(events));
    forall x | x in out
      ensures x > 0 && x % 3 == 0
    {
      SubseqElements(out, Values(staged), x);
    }
  }

  /** Values 5, -3, 9, 2, 12 through both filters, capacity 10 and one tick
      after them: only 9 and 12 reach the buffer, and the tick forwards 9 then 12. */
  lemma ScenarioFilterThenFlush()
    ensures Run(ThroughFilters(AsEvents([5, -3, 9, 2, 12]) + [Tick]), [], 10) == [9, 12]
  {
    var es := AsEvents([5, -3, 9, 2, 12]) + [Tick];
    assert es == [Value(5), Value(-3), Value(9), Value(2), Value(12), Tick];
    assert es[1..] == [Value(-3), Value(9), Value(2), Value(12), Tick];
    assert es[1..][1..] == [Value(9), Value(2), Value(12), Tick];
    assert es[1..][1..][1..] == [Value(2), Value(12), Tick];
    assert es[1..][1..][1..][1..] == [Value(12), Tick];
    assert es[1..][1..][1..][1..][1..] == [Tick];
    assert GoRem(5, 3) == 2 && GoRem(9, 3) == 0 && GoRem(2, 3) == 2 && GoRem(12, 3) == 0;
    assert ThroughFilters([Tick]) == [Tick];
    assert ThroughFilters(es[1..][1..][1..][1..]) == [Value(12), Tick];
    assert ThroughFilters(es[1..][1..][1..]) == [Value(12), Tick];
    assert ThroughFilters(es[1..][1..]) == [Value(9), Value(12), Tick];
    assert ThroughFilters(es) == AsEvents([9, 12]) + [Tick];
    TickAfterValues([9, 12], 10);
  }

  /** Capacity 2 and values 3, 6, 9, 12 with no tick between them: 3 and 6 are
      evicted, and the next tick forwards 9 then 12. */
  lemma ScenarioEviction()
    ensures PushAll([], [3, 6, 9, 12], 2) == [9, 12]
    ensures Run(AsEvents([3, 6, 9, 12]) + [Tick], [], 2) == [9, 12]
  {
    PushesFromEmpty([3, 6, 9, 12], 2);
    TickAfterValues([3, 6, 9, 12], 2);
  }

  /** Shutdown with three values buffered: none of them is ever forwarded. */
  lemma ScenarioShutdownLosesBuffer(post: seq<Event>)
    ensures Run(AsEvents([3, 6, 9]) + [Done] + post, [], 10) == []
  {
    DoneDiscards(AsEvents([3, 6, 9]), post, [], 10);
    RunValues([3, 6, 9], [], [], 10);
    assert AsEvents([3, 6, 9]) + [] == AsEvents([3, 6, 9]);
  }

  /** A tick with exactly one value buffered forwards nothing and keeps the
      value: a later tick hands it out together with the next value. */
  lemma ScenarioSingleValueKept(x: int, y: int)
    ensures Run([Value(x), Tick], [], 10) == []
    ensures Run([Value(x), Tick, Value(y), Tick], [], 10) == [x, y]
  {
    assert Pushed([], x, 10) == [x];
    assert Run([Tick], [x], 10) == [];
    assert [Value(x), Tick][1..] == [Tick];
    assert Pushed([x], y, 10) == [x, y];
    assert Run([Tick], [x, y], 10) == [x, y];
    assert Run([Value(y), Tick], [x], 10) == [x, y] by {
      assert [Value(y), Tick][1..] == [Tick];
    }
    assert Run([Tick, Value(y), Tick], [x], 10) == [x, y] by {
      assert [Tick, Value(y), Tick][1..] == [Value(y), Tick];
    }
    assert [Value(x), Tick, Value(y), Tick][1..] == [Tick, Value(y), Tick];
  }
}
