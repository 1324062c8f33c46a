/** The fixed-capacity integer ring buffer of main.go: a backing array, a
    cursor `pos` (-1 when empty) and the capacity `size`. A push to a full
    buffer drops the oldest value by shifting the others one slot toward the
    front; a get hands out the live prefix and empties the buffer. */
module Ring {

  datatype Option<T> = None | Some(value: T)

  /** The last `n` values of `s` (all of `s` when it is shorter), oldest first. */
  function Window(s: seq<int>, n: nat): (r: seq<int>)
  {
    if |s| <= n then s else s[|s| - n..]
  }

  /** What the live contents become when `x` is pushed into a buffer of capacity `n`. */
  function Pushed(live: seq<int>, x: int, n: nat): seq<int>
  {
    Window(live + [x], n)
  }

  /** The two branches of a push: below capacity the value is appended; at
      capacity the oldest value is dropped, the others keep their order and the
      new value comes last. Either way at most `n` values remain. */
  lemma PushedBranches(live: seq<int>, x: int, n: nat)
    ensures |Pushed(live, x, n)| <= n
    ensures |live| < n ==> Pushed(live, x, n) == live + [x]
    ensures 0 < n == |live| ==> Pushed(live, x, n) == live[1..] + [x]
  {
  }

  /** What a push keeps is a suffix of the old contents followed by the pushed
      value: the values it drops are the oldest ones. */
  lemma PushedKeepsSuffix(live: seq<int>, x: int, n: nat)
    ensures live + [x] == (live + [x])[..|live| + 1 - |Pushed(live, x, n)|] + Pushed(live, x, n)
  {
  }

  /** The live contents after pushing every value of `xs`, first to last. */
  function PushAll(live: seq<int>, xs: seq<int>, n: nat): seq<int>
    decreases |xs|
  {
    if xs == [] then live else PushAll(Pushed(live, xs[0], n), xs[1..], n)
  }

  /** A get on live contents `live`: the contents left behind and the value
      handed out. A buffer holding at most one value yields nothing and keeps
      its contents. */
  function Drain(live: seq<int>): (r: (seq<int>, Option<seq<int>>))
    ensures r.0 + (if r.1.Some? then r.1.value else []) == live
  {
    if |live| <= 1 then (live, None) else ([], Some(live))
  }

  /** A window holds min(|s|, n) values, and they are the newest ones of `s` in order. */
  lemma WindowShape(s: seq<int>, n: nat)
    ensures |Window(s, n)| == if |s| <= n then |s| else n
    ensures forall i :: 0 <= i < |Window(s, n)| ==> Window(s, n)[i] == s[|s| - |Window(s, n)| + i]
  {
  }

  /** Pushing into a window is the same as windowing after the push: the
      buffer forgets nothing that a larger history would still show. */
  lemma WindowPush(s: seq<int>, x: int, n: nat)
    ensures Pushed(Window(s, n), x, n) == Window(s + [x], n)
  {
  }

  /** After pushing `xs` into contents that already are a window of `p`, the
      contents are the window of `p + xs`. */
  lemma {:induction false} PushAllWindow(p: seq<int>, xs: seq<int>, n: nat)
    ensures PushAll(Window(p, n), xs, n) == Window(p + xs, n)
    decreases |xs|
  {
    if xs == [] {
      assert p + xs == p;
    } else {
      WindowPush(p, xs[0], n);
      PushAllWindow(p + [xs[0]], xs[1..], n);
      assert p + [xs[0]] + xs[1..] == p + xs;
    }
  }

  /** After the pushes `xs` into an empty buffer of capacity `n`, the live
      contents are the last min(|xs|, n) values pushed, in push order. */
  lemma PushesFromEmpty(xs: seq<int>, n: nat)
    ensures PushAll([], xs, n) == Window(xs, n)
  {
    PushAllWindow([], xs, n);
    assert [] + xs == xs;
  }

  /** A get after pushes `xs` into an empty buffer of capacity `n`. It hands out
      exactly the newest min(|xs|, n) values, oldest first, and empties the
      buffer, provided at least two values are live; with zero or one live
      value it yields nothing and leaves the contents as they are. */
  lemma DrainAfterPushes(xs: seq<int>, n: nat)
    ensures 2 <= |xs| <= n ==> Drain(PushAll([], xs, n)) == ([], Some(xs))
    ensures 2 <= n < |xs| ==> Drain(PushAll([], xs, n)) == ([], Some(xs[|xs| - n..]))
    ensures |xs| <= 1 || n <= 1 ==> Drain(PushAll([], xs, n)) == (Window(xs, n), None)
  {
    PushesFromEmpty(xs, n);
  }

  /** A second get straight after a get that yielded values yields nothing. */
  lemma DrainTwice(live: seq<int>)
    ensures Drain(live).1.Some? ==> Drain(Drain(live).0) == ([], None)
    ensures Drain(live).1.None? ==> Drain(live).0 == live
  {
  }

  /** The ring buffer itself. `array` and `size` are set once at construction;
      `pos` is the index of the newest value, -1 when the buffer is empty. */
  class RingIntBuffer {
    const arr: array<int>  // `array` in main.go; the name is a keyword here
    var pos: int
    const size: int

    /** The buffer's invariant: the backing array has `size` slots and the
        cursor lies in [-1, size - 1]. */
    ghost predicate Valid()
      reads this
    {
      arr.Length == size && -1 <= pos <= size - 1
    }

    /** The live values, oldest first. */
    ghost function Live(): seq<int>
      reads this, arr
      requires Valid()
    {
      arr[..pos + 1]
    }

    /** NewRingIntBuffer: an empty buffer over a fresh array of `size` slots. */
    constructor (size: int)
      requires size >= 0
      ensures Valid() && fresh(arr)
      ensures this.size == size && arr.Length == size && pos == -1
      ensures Live() == []
    {
      arr := new int[size];
      pos := -1;
      this.size := size;
    }

    /** Appends `el`. A full buffer shifts every value one slot toward the
        front, dropping the oldest, and writes `el` into the last slot;
        otherwise `pos` advances and `el` is written there. */
    method Push(el: int)
      requires Valid() && size > 0
      modifies this, arr
      ensures Valid()
      ensures old(pos) == size - 1 ==> pos == old(pos) && arr[..] == old(arr[1..]) + [el]
      ensures old(pos) < size - 1 ==> pos == old(pos) + 1 && arr[..] == old(arr[..])[pos := el]
      ensures Live() == Pushed(old(Live()), el, size)
    {
      if pos == size - 1 {
        for i := 1 to size
          invariant pos == size - 1
          invariant forall k :: 0 <= k < i - 1 ==> arr[k] == old(arr[k + 1])
          invariant forall k :: i - 1 <= k < size ==> arr[k] == old(arr[k])
        {
          arr[i - 1] := arr[i];
        }
        arr[pos] := el;
        assert arr[..] == old(arr[1..]) + [el];
        assert old(Live()) + [el] == old(arr[..]) + [el];
      } else {
        pos := pos + 1;
        arr[pos] := el;
        assert arr[..pos + 1] == old(Live()) + [el];
      }
    }

    /** Hands out the live values and empties the buffer, unless the cursor is
        at most 0: then nothing is handed out and nothing changes, so a buffer
        holding a single value keeps it. */
    method Get() returns (output: Option<seq<int>>)
      requires Valid()
      modifies this
      ensures Valid()
      ensures old(pos) <= 0 ==> output == None && pos == old(pos)
      ensures old(pos) >= 1 ==> output == Some(arr[..old(pos) + 1]) && pos == -1
      ensures (Live(), output) == Drain(old(Live()))
    {
      if pos <= 0 {
        return None;
      }
      output := Some(arr[..pos + 1]);
      pos := -1;
    }
  }
}
