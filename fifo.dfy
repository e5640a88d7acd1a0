/**
 * The ring-buffer library the console is built on, as an abstract bounded FIFO
 * of bytes. Its implementation and its capacity constant are not part of this
 * model: the capacity is whatever the creator passes, and the contracts below
 * are the ones the console relies on (write fails when full, read and
 * delete-last fail when empty, flush always empties).
 */
module Fifo {

  class ByteFifo {
    const capacity: nat
    var contents: seq<char>

    ghost predicate Valid()
      reads this
    {
      |contents| <= capacity
    }

    constructor (capacity: nat)
      ensures Valid()
      ensures this.capacity == capacity && contents == []
    {
      this.capacity := capacity;
      contents := [];
    }

    /** `ring_buffer_empty` */
    predicate IsEmpty()
      reads this
    {
      contents == []
    }

    /** `ring_buffer_write`: appends `b` unless the buffer is full. */
    method Write(b: char) returns (ok: bool)
      requires Valid()
      modifies this
      ensures Valid()
      ensures ok <==> |old(contents)| < capacity
      ensures contents == if ok then old(contents) + [b] else old(contents)
    {
      ok := |contents| < capacity;
      if ok {
        contents := contents + [b];
      }
    }

    /** `ring_buffer_read`: removes and yields the oldest byte; fails when empty. */
    method Read() returns (ok: bool, b: char)
      requires Valid()
      modifies this
      ensures Valid()
      ensures ok <==> old(contents) != []
      ensures ok ==> b == old(contents)[0] && contents == old(contents)[1..]
      ensures !ok ==> contents == old(contents)
    {
      ok := contents != [];
      b := '\0';
      if ok {
        b := contents[0];
        contents := contents[1..];
      }
    }

    /** `ring_buffer_delete`: removes the most recently written byte; fails when empty. */
    method Delete() returns (ok: bool)
      requires Valid()
      modifies this
      ensures Valid()
      ensures ok <==> old(contents) != []
      ensures contents == if ok then old(contents)[..|old(contents)| - 1] else old(contents)
    {
      ok := contents != [];
      if ok {
        contents := contents[..|contents| - 1];
      }
    }

    /** `ring_buffer_flush`: empties the buffer unconditionally. */
    method Flush()
      requires Valid()
      modifies this
      ensures Valid() && contents == []
    {
      contents := [];
    }
  }

  /** Bytes written into a buffer with room for them come back out in the order written. */
  method FifoOrder(capacity: nat, xs: seq<char>) returns (ys: seq<char>)
    requires |xs| <= capacity
    ensures ys == xs
  {
    var q := new ByteFifo(capacity);
    for i := 0 to |xs|
      invariant q.Valid() && q.capacity == capacity && q.contents == xs[..i]
    {
      var ok := q.Write(xs[i]);
    }
    ys := [];
    for i := 0 to |xs|
      invariant q.Valid() && q.contents == xs[i..] && ys == xs[..i]
    {
      var ok, b := q.Read();
      ys := ys + [b];
    }
  }
}
