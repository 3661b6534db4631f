/** The bounded frame buffer between camera reads and inference.

    It is a double-ended queue with a maximum length: `Push` adds a frame at
    the back and, when the buffer is full, the frame at the front is silently
    dropped; `Pop` takes the frame at the front, or reports that there is none.
    The model keeps the frames in an array used as a ring, with the queue's
    abstract contents, front first, in the ghost field `Contents`.
 */
module FrameBuffers {

  datatype Option<T> = None | Some(value: T)

  /** The capacity a buffer gets when none is given. */
  const DefaultSize: nat := 30

  /** The last `n` elements of `s` (all of `s` when it is no longer than `n`). */
  function LastN<T>(s: seq<T>, n: nat): (r: seq<T>)
    ensures |r| <= n
    ensures |s| <= n ==> r == s
    ensures |s| > n ==> |r| == n
    ensures s == s[..|s| - |r|] + r
  {
    if |s| <= n then s else s[|s| - n..]
  }

  /** The contents after pushing `x` onto `q` in a buffer of capacity `cap`:
      `x` is appended and, if that overflows, the oldest frame is dropped. */
  function Appended<T>(q: seq<T>, x: T, cap: nat): (r: seq<T>)
    requires |q| <= cap
    ensures |r| <= cap
    ensures |q| < cap ==> r == q + [x]
    ensures |q| == cap && cap > 0 ==> r == q[1..] + [x]
    ensures cap == 0 ==> r == []
  {
    LastN(q + [x], cap)
  }

  /** The result of popping `q` and the contents left behind: putting the
      popped frame back at the front gives `q` again. */
  function Popped<T>(q: seq<T>): (r: (Option<T>, seq<T>))
    ensures r.0.None? <==> q == []
    ensures r.0.None? ==> r.1 == q
    ensures r.0.Some? ==> q == [r.0.value] + r.1
  {
    if q == [] then (None, q) else (Some(q[0]), q[1..])
  }

  /** Index `k` of a ring of length `n`, for `k` less than twice `n`. */
  function Wrap(k: nat, n: nat): (r: nat)
    requires k < 2 * n
    ensures r < n && (r == k || r == k - n)
  {
    if k < n then k else k - n
  }

  class FrameBuffer<T(0)> {
    /** The frames, oldest first. */
    ghost var Contents: seq<T>
    /** The maximum length of the queue. */
    const capacity: nat

    const data: array<T>
    var start: nat
    var len: nat

    ghost predicate Valid()
      reads this, data
      ensures Valid() ==> |Contents| <= capacity
    {
      data.Length == capacity &&
      len <= capacity &&
      (if capacity == 0 then start == 0 else start < capacity) &&
      |Contents| == len &&
      forall i :: 0 <= i < len ==> Contents[i] == data[Wrap(start + i, capacity)]
    }

    constructor (size: nat := DefaultSize)
      ensures Valid() && fresh(data)
      ensures capacity == size && Contents == []
    {
      capacity := size;
      data := new T[size];
      start, len := 0, 0;
      Contents := [];
    }

    method Push(frame: T)
      requires Valid()
      modifies this, data
      ensures Valid()
      ensures Contents == Appended(old(Contents), frame, capacity)
    {
      if capacity == 0 {
        // a queue with no room drops every frame at once
        Contents := [];
        return;
      }
      if len < capacity {
        data[Wrap(start + len, capacity)] := frame;
        len := len + 1;
        Contents := Contents + [frame];
      } else {
        // full: the new frame takes the slot of the oldest one
        data[start] := frame;
        start := if start + 1 == capacity then 0 else start + 1;
        Contents := Contents[1..] + [frame];
      }
    }

    method Pop() returns (frame: Option<T>)
      requires Valid()
      modifies this
      ensures Valid()
      ensures (frame, Contents) == Popped(old(Contents))
    {
      if len == 0 {
        return None;
      }
      frame := Some(data[start]);
      start := if start + 1 == capacity then 0 else start + 1;
      len := len - 1;
      Contents := Contents[1..];
    }
  }

  /** The contents after pushing every frame of `xs`, in order, onto `q`. */
  function PushAll<T>(q: seq<T>, xs: seq<T>, cap: nat): (r: seq<T>)
    requires |q| <= cap
    ensures |r| <= cap
    decreases |xs|
  {
    if xs == [] then q else PushAll(Appended(q, xs[0], cap), xs[1..], cap)
  }

  /** The frames returned by popping `q` until it reports that it is empty. */
  function DrainAll<T>(q: seq<T>): seq<T>
    decreases |q|
  {
    match Popped(q).0
    case None => []
    case Some(x) => [x] + DrainAll(Popped(q).1)
  }

  /** Anything in front of a part at least `n` long does not affect the last `n`. */
  lemma LastNSuffix<T>(p: seq<T>, s: seq<T>, n: nat)
    requires |s| >= n
    ensures LastN(p + s, n) == LastN(s, n)
  {
    if |s| > n {
      assert (p + s)[|p| + |s| - n..] == s[|s| - n..];
    }
  }

  /** Trimming to the last `n` before appending more does not change the last `n`. */
  lemma LastNConcat<T>(s: seq<T>, t: seq<T>, n: nat)
    ensures LastN(LastN(s, n) + t, n) == LastN(s + t, n)
  {
    if |s| > n {
      var u := LastN(s, n);
      assert s + t == s[..|s| - n] + (u + t);
      LastNSuffix(s[..|s| - n], u + t, n);
    }
  }

  /** Freshness over completeness: whatever is pushed, the buffer holds the
      newest `cap` frames of everything it has seen, oldest first. */
  lemma {:induction false} PushAllKeepsNewest<T>(q: seq<T>, xs: seq<T>, cap: nat)
    requires |q| <= cap
    ensures PushAll(q, xs, cap) == LastN(q + xs, cap)
    decreases |xs|
  {
    if xs == [] {
      assert q + xs == q;
    } else {
      var front, rest := q + [xs[0]], xs[1..];
      assert front + rest == q + xs;
      calc {
        PushAll(q, xs, cap);
        PushAll(LastN(front, cap), rest, cap);
        { PushAllKeepsNewest(LastN(front, cap), rest, cap); }
        LastN(LastN(front, cap) + rest, cap);
        { LastNConcat(front, rest, cap); }
        LastN(front + rest, cap);
      }
    }
  }

  /** Draining a buffer returns its frames oldest first. */
  lemma {:induction false} DrainAllInOrder<T>(q: seq<T>)
    ensures DrainAll(q) == q
    decreases |q|
  {
    if q != [] {
      DrainAllInOrder(q[1..]);
    }
  }

  /** FIFO: frames pushed onto an empty buffer without overflowing it are
      popped in the order they were pushed. */
  lemma FirstInFirstOut<T>(xs: seq<T>, cap: nat)
    requires |xs| <= cap
    ensures DrainAll(PushAll([], xs, cap)) == xs
  {
    PushAllKeepsNewest([], xs, cap);
    assert [] + xs == xs;
    DrainAllInOrder(xs);
  }
}
