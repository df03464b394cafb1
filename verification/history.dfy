/**
 * The abstract meaning of the message history: a sliding window holding the
 * most recent `Capacity` accepted records, oldest first.
 */
module History {

  /** `MAX_STORED_MESSAGES`. */
  const Capacity: nat := 20

  function Min(a: int, b: int): int
  {
    if a <= b then a else b
  }

  /** Taking one more element of a sequence appends that element. */
  lemma TakeOneMore<T>(s: seq<T>, i: int)
    requires 0 <= i < |s|
    ensures s[..i + 1] == s[..i] + [s[i]]
  {
  }

  /** The last min(Capacity, |xs|) elements of `xs`, in their original order. */
  function Window<T>(xs: seq<T>): (w: seq<T>)
    ensures |w| == Min(Capacity, |xs|)
    ensures forall i :: 0 <= i < |w| ==> w[i] == xs[|xs| - |w| + i]
  {
    if |xs| <= Capacity then xs else xs[|xs| - Capacity..]
  }

  /** The window only holds elements of the sequence it is taken from. */
  lemma WindowMember<T>(xs: seq<T>, x: T)
    requires x in Window(xs)
    ensures x in xs
  {
    var w := Window(xs);
    var i :| 0 <= i < |w| && w[i] == x;
    assert xs[|xs| - |w| + i] == x;
  }

  /** One insertion: append while there is room, otherwise drop the oldest entry first. */
  function Push<T>(h: seq<T>, x: T): (h': seq<T>)
    requires |h| <= Capacity
    ensures |h'| == Min(Capacity, |h| + 1)
    ensures h'[|h'| - 1] == x
    ensures |h| < Capacity ==> h'[..|h|] == h
    ensures |h| == Capacity ==> h'[..Capacity - 1] == h[1..]
  {
    if |h| < Capacity then h + [x] else h[1..] + [x]
  }

  /** The history after pushing `xs`, one at a time, onto `h`. */
  function PushAll<T>(h: seq<T>, xs: seq<T>): (h': seq<T>)
    requires |h| <= Capacity
    ensures |h'| <= Capacity
    ensures |h'| == Min(Capacity, |h| + |xs|)
  {
    if xs == [] then h else Push(PushAll(h, xs[..|xs| - 1]), xs[|xs| - 1])
  }

  /** Pushing onto the window of `xs` gives the window of `xs` extended by the new element. */
  lemma PushWindow<T>(xs: seq<T>, x: T)
    ensures Push(Window(xs), x) == Window(xs + [x])
  {
    var ys := xs + [x];
    if |xs| < Capacity {
      assert Window(xs) == xs;
    } else {
      var w := Window(xs);
      assert |w| == Capacity;
      forall i | 0 <= i < Capacity
        ensures Push(w, x)[i] == Window(ys)[i]
      {
        if i < Capacity - 1 {
          assert Push(w, x)[i] == w[i + 1];
        }
      }
    }
  }

  /** After any sequence of pushes from empty, the history is the last min(Capacity, n) of them. */
  lemma {:induction false} PushAllIsWindow<T>(xs: seq<T>)
    ensures PushAll([], xs) == Window(xs)
  {
    if xs != [] {
      var init, last := xs[..|xs| - 1], xs[|xs| - 1];
      assert xs == init + [last];
      assert PushAll([], xs) == Push(PushAll([], init), last);
      PushAllIsWindow(init);
      PushWindow(init, last);
    }
  }

  /** Twenty-five pushes into the empty history leave exactly the last twenty. */
  lemma TwentyFivePushes<T>(xs: seq<T>)
    requires |xs| == 25
    ensures PushAll([], xs) == xs[5..]
  {
    PushAllIsWindow(xs);
  }

  /** Fewer pushes than the capacity evict nothing. */
  lemma NoEvictionBelowCapacity<T>(xs: seq<T>)
    requires |xs| <= Capacity
    ensures PushAll([], xs) == xs
  {
    PushAllIsWindow(xs);
  }
}
