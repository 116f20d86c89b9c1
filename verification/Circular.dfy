/**
 Index arithmetic of a circular buffer that keeps one slot free, and the queue of
 elements between its tail and its head.
 */
module Circular {

  function Next(i: nat, size: nat): nat {
    if i + 1 >= size then 0 else i + 1
  }

  /** How many elements lie between tail and head. */
  function Used(head: nat, tail: nat, size: nat): (n: nat)
    requires head < size && tail < size
    ensures n < size
  {
    if head >= tail then head - tail else size + head - tail
  }

  function Slot(tail: nat, k: nat, size: nat): (i: nat)
    requires tail < size && k < size
    ensures i < size
  {
    if tail + k < size then tail + k else tail + k - size
  }

  /** The `n` elements from `tail` on, going round at the end of the buffer. */
  ghost function Window<T>(buf: seq<T>, tail: nat, n: nat): (w: seq<T>)
    requires tail < |buf| && n <= |buf|
    ensures |w| == n
    ensures forall k: nat | k < n :: w[k] == buf[Slot(tail, k, |buf|)]
  {
    if n == 0 then [] else Window(buf, tail, n - 1) + [buf[Slot(tail, n - 1, |buf|)]]
  }

  /** What a ring with these indices holds. */
  ghost function Queue<T>(buf: seq<T>, head: nat, tail: nat): (q: seq<T>)
    requires head < |buf| && tail < |buf|
  {
    Window(buf, tail, Used(head, tail, |buf|))
  }

  lemma PushExtends<T>(buf: seq<T>, head: nat, tail: nat, x: T)
    requires head < |buf| && tail < |buf| && Used(head, tail, |buf|) < |buf| - 1
    ensures Queue(buf[head := x], Next(head, |buf|), tail) == Queue(buf, head, tail) + [x]
  {
  }

  /** Advancing the head onto the tail makes a full ring look empty. */
  lemma PushOntoFullForgets<T>(buf: seq<T>, head: nat, tail: nat, x: T)
    requires head < |buf| && tail < |buf| && Used(head, tail, |buf|) == |buf| - 1
    ensures Queue(buf[head := x], Next(head, |buf|), tail) == []
  {
  }

  lemma PopTakesOldest<T>(buf: seq<T>, head: nat, tail: nat)
    requires head < |buf| && tail < |buf| && head != tail
    ensures Queue(buf, head, tail) != [] && Queue(buf, head, tail)[0] == buf[tail]
    ensures Queue(buf, head, Next(tail, |buf|)) == Queue(buf, head, tail)[1..]
  {
  }

  /** The queue is one stretch of the buffer, or two when it goes round the end. */
  lemma QueueInChunks<T>(buf: seq<T>, head: nat, tail: nat)
    requires head < |buf| && tail < |buf|
    ensures Queue(buf, head, tail) == if head < tail then buf[tail..] + buf[..head] else buf[tail..head]
  {
  }
}
