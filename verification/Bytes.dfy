/** Octets, and the block copies that the C code makes with memcpy. */
module Bytes {

  type byte = x: int | 0 <= x < 256

  /** memcpy(dst + at, src, |src|): the bytes land at `at` and nothing else moves. */
  method CopyIn<T>(dst: array<T>, at: nat, src: seq<T>)
    requires at + |src| <= dst.Length
    modifies dst
    ensures dst[..] == old(dst[..at]) + src + old(dst[at + |src|..])
    ensures forall k :: 0 <= k < dst.Length && !(at <= k < at + |src|) ==> dst[k] == old(dst[k])
  {
    forall k | 0 <= k < |src| {
      dst[at + k] := src[k];
    }
  }

  /** memmove(buf, buf + from, keep): the kept bytes slide to the front. */
  method SlideToFront<T>(buf: array<T>, from: nat, keep: nat)
    requires from + keep <= buf.Length
    modifies buf
    ensures buf[..keep] == old(buf[from..from + keep])
  {
    forall k | 0 <= k < keep {
      buf[k] := buf[from + k];
    }
  }

  /** All the blocks of a list, one after the other. */
  function Concat<T>(blocks: seq<seq<T>>): (r: seq<T>)
  {
    if blocks == [] then [] else blocks[0] + Concat(blocks[1..])
  }

  lemma {:induction false} ConcatAppend<T>(blocks: seq<seq<T>>, last: seq<T>)
    ensures Concat(blocks + [last]) == Concat(blocks) + last
  {
    if blocks == [] {
      assert [] + [last] == [last];
    } else {
      ConcatAppend(blocks[1..], last);
      assert (blocks + [last])[1..] == blocks[1..] + [last];
    }
  }

  lemma Onward<T>(base: seq<T>, buf: seq<T>, sent: nat, n: nat)
    requires sent + n <= |buf|
    ensures base + buf[..sent] + buf[sent..][..n] == base + buf[..sent + n]
  {
    assert buf[..sent] + buf[sent..][..n] == buf[..sent + n];
  }

  lemma Associate<T>(a: seq<T>, b: seq<T>, c: seq<T>)
    ensures a + b + c == a + (b + c)
  {
  }

  /** Moving n elements from the front of b to the end of a. */
  lemma Regroup<T>(a: seq<T>, b: seq<T>, n: nat)
    requires n <= |b|
    ensures a + b[..n] + b[n..] == a + b
    ensures a + b[..n] <= a + b
  {
  }
}

/** The smaller of two numbers, and division by a block size. */
module Arithmetic {

  function Min(a: nat, b: nat): nat
  {
    if a <= b then a else b
  }

  lemma {:induction false} MultiplesApart(a: nat, b: nat, size: nat)
    ensures a < b ==> a * size + size <= b * size
    decreases b
  {
    if b <= a + 1 {
      assert (a + 1) * size == a * size + size;
    } else {
      MultiplesApart(a, b - 1, size);
      assert b * size == (b - 1) * size + size;
    }
  }

  lemma Quotient(b: nat, k: nat, size: nat)
    requires k < size
    ensures (b * size + k) / size == b && (b * size + k) % size == k
  {
    var q := (b * size + k) / size;
    assert b * size + k == q * size + (b * size + k) % size;
    MultiplesApart(b, q, size);
    MultiplesApart(q, b, size);
  }
}

/** Data notifications such as #XCOAPCDATA and #XHTTPCDATA: an offset and that many bytes. */
module Reports {
  import opened Bytes

  datatype Report = Report(offset: nat, data: seq<byte>)

  /** The bytes that the notifications have delivered. */
  function Delivered(reports: seq<Report>): seq<byte>
  {
    if reports == [] then [] else Delivered(reports[..|reports| - 1]) + reports[|reports| - 1].data
  }

  /** Every notification starts where the bytes before it end. */
  predicate Contiguous(reports: seq<Report>)
  {
    reports == [] ||
    var last := |reports| - 1;
    Contiguous(reports[..last]) && reports[last].offset == |Delivered(reports[..last])|
  }

  lemma DeliverMore(reports: seq<Report>, r: Report)
    ensures Delivered(reports + [r]) == Delivered(reports) + r.data
    ensures Contiguous(reports) && r.offset == |Delivered(reports)| ==> Contiguous(reports + [r])
  {
    assert (reports + [r])[..|reports|] == reports;
  }

  /** What a host that trusts the offsets reads: notification i carries the bytes of the body
      from its offset on. */
  lemma {:induction false} OffsetsAreTrue(reports: seq<Report>, i: nat)
    requires Contiguous(reports) && i < |reports|
    ensures reports[i].offset + |reports[i].data| <= |Delivered(reports)|
    ensures Delivered(reports)[reports[i].offset..reports[i].offset + |reports[i].data|] == reports[i].data
  {
    var init := reports[..|reports| - 1];
    if i == |init| {
    } else {
      OffsetsAreTrue(init, i);
    }
  }
}
