/** The byte ring buffer that data mode and the UART transmitter use (ring_buf_put,
    ring_buf_get_claim, ring_buf_get_finish, ring_buf_reset). A claim is contiguous: it stops
    where the data wraps around the end of the memory. */
module RingBuffers {
  import opened Bytes

  class RingBuffer {
    const data: array<byte>
    var head: nat
    var count: nat

    ghost predicate Valid()
      reads this
    {
      head < data.Length && count <= data.Length
    }

    /** Where the k-th byte after the head is stored. */
    function Slot(k: nat): (i: nat)
      requires Valid() && k < data.Length
      reads this
      ensures i < data.Length
    {
      if head + k < data.Length then head + k else head + k - data.Length
    }

    ghost function Contents(): (s: seq<byte>)
      requires Valid()
      reads this, data
      ensures |s| == count && forall k :: 0 <= k < count ==> s[k] == data[Slot(k)]
    {
      seq(count, k requires 0 <= k < count && Valid() reads this, data => data[Slot(k)])
    }

    constructor (capacity: nat)
      requires capacity > 0
      ensures Valid() && fresh(data) && data.Length == capacity && Contents() == []
    {
      data := new byte[capacity];
      head, count := 0, 0;
    }

    method Reset()
      requires Valid()
      modifies this
      ensures Valid() && Contents() == [] && head == 0
    {
      head, count := 0, 0;
    }

    /** Appends as much of src as fits. */
    method Put(src: seq<byte>) returns (n: nat)
      requires Valid()
      modifies this, data
      ensures Valid() && head == old(head)
      ensures n == if |src| <= data.Length - old(count) then |src| else data.Length - old(count)
      ensures Contents() == old(Contents()) + src[..n]
    {
      n := if |src| <= data.Length - count then |src| else data.Length - count;
      var k := 0;
      while k < n
        invariant 0 <= k <= n && Valid() && head == old(head) && count == old(count) + k
        invariant Contents() == old(Contents()) + src[..k]
      {
        data[Slot(count)] := src[k];
        k, count := k + 1, count + 1;
      }
    }

    /** The oldest bytes, up to the wrap. */
    method Claim() returns (claimed: seq<byte>)
      requires Valid()
      ensures claimed <= Contents() && claimed == Contents()[..|claimed|]
      ensures |claimed| == if head + count <= data.Length then count else data.Length - head
    {
      claimed := if head + count <= data.Length then data[head..head + count] else data[head..];
    }

    /** Frees the n oldest bytes. */
    method Finish(n: nat)
      requires Valid() && n <= count
      modifies this
      ensures Valid() && Contents() == old(Contents())[n..]
    {
      head := if head + n < data.Length then head + n else head + n - data.Length;
      count := count - n;
    }
  }
}
