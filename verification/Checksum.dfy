/** The Internet checksum of the ping command: check_ics, calc_ics and the ICMPv6
    variant that adds the complements of separately summed pieces. */
module Checksum {
  import opened Bytes

  // ---------------------------------------------------------------------------
  // Reference definition: the 16-bit one's-complement sum of RFC 1071
  // ---------------------------------------------------------------------------

  /** A little-endian 16-bit word. */
  function Word(lo: byte, hi: byte): (w: nat)
    ensures w <= 0xFFFF
  {
    lo + 256 * hi
  }

  /** 16-bit addition with end-around carry. */
  function AddCarry(a: nat, b: nat): (r: nat)
    requires a <= 0xFFFF && b <= 0xFFFF
    ensures r <= 0xFFFF
  {
    if a + b > 0xFFFF then a + b - 0x10000 + 1 else a + b
  }

  /** The first n bytes, one word at a time; an odd last byte is padded with a zero byte. */
  function OnesSumTo(s: seq<byte>, n: nat): (r: nat)
    requires n <= |s|
    ensures r <= 0xFFFF
  {
    if n == 0 then 0
    else if n % 2 == 1 then AddCarry(OnesSumTo(s, n - 1), Word(s[n - 1], 0))
    else AddCarry(OnesSumTo(s, n - 2), Word(s[n - 2], s[n - 1]))
  }

  function OnesSum(s: seq<byte>): (r: nat)
    ensures r <= 0xFFFF
  {
    OnesSumTo(s, |s|)
  }

  // ---------------------------------------------------------------------------
  // Arithmetic: the plain sum of the words, and its one's-complement residue
  // ---------------------------------------------------------------------------

  /** What byte k adds to the sum: itself at an even index, 256 times itself at an odd one. */
  function Weighted(k: nat, b: byte): nat
  {
    if k % 2 == 0 then b else 256 * b
  }

  function WordSumTo(s: seq<byte>, n: nat): nat
    requires n <= |s|
  {
    if n == 0 then 0 else WordSumTo(s, n - 1) + Weighted(n - 1, s[n - 1])
  }

  function WordSum(s: seq<byte>): nat
  {
    WordSumTo(s, |s|)
  }

  /** The representative in 0..0xFFFF modulo 0xFFFF; only zero itself maps to zero. */
  function Residue(x: nat): (r: nat)
    ensures r <= 0xFFFF
    ensures r == 0 <==> x == 0
  {
    if x <= 0xFFFF then x else Residue(x - 0xFFFF)
  }

  lemma {:induction false} ResidueShift(x: nat, k: int)
    requires x > 0 && x + 0xFFFF * k > 0
    ensures Residue(x + 0xFFFF * k) == Residue(x)
    decreases if k < 0 then -k else k
  {
    if k == 0 {
    } else if k > 0 {
      ResidueShift(x, k - 1);
    } else {
      ResidueShift(x, k + 1);
    }
  }

  lemma {:induction false} ResidueMultiple(x: nat)
    ensures exists k: int :: x == Residue(x) + 0xFFFF * k
  {
    if x <= 0xFFFF {
      assert x == Residue(x) + 0xFFFF * 0;
    } else {
      ResidueMultiple(x - 0xFFFF);
      var k :| x - 0xFFFF == Residue(x) + 0xFFFF * k;
      assert x == Residue(x) + 0xFFFF * (k + 1);
    }
  }

  lemma ResidueAdd(x: nat, y: nat)
    ensures Residue(Residue(x) + y) == Residue(x + y)
  {
    if x > 0 {
      ResidueMultiple(x);
      var k :| x == Residue(x) + 0xFFFF * k;
      ResidueShift(Residue(x) + y, k);
    }
  }

  lemma AddCarryResidue(x: nat, w: nat)
    requires w <= 0xFFFF
    ensures AddCarry(Residue(x), w) == Residue(x + w)
  {
    ResidueAdd(x, w);
  }

  lemma WordSumTwo(s: seq<byte>, n: nat)
    requires n % 2 == 0 && n + 2 <= |s|
    ensures WordSumTo(s, n + 2) == WordSumTo(s, n) + Word(s[n], s[n + 1])
  {
    assert WordSumTo(s, n + 1) == WordSumTo(s, n) + s[n];
  }

  lemma {:induction false} OnesSumToIsResidue(s: seq<byte>, n: nat)
    requires n <= |s|
    ensures OnesSumTo(s, n) == Residue(WordSumTo(s, n))
  {
    if n == 0 {
    } else if n % 2 == 1 {
      OnesSumToIsResidue(s, n - 1);
      AddCarryResidue(WordSumTo(s, n - 1), s[n - 1]);
    } else {
      OnesSumToIsResidue(s, n - 2);
      WordSumTwo(s, n - 2);
      AddCarryResidue(WordSumTo(s, n - 2), Word(s[n - 2], s[n - 1]));
    }
  }

  lemma OnesSumIsResidue(s: seq<byte>)
    ensures OnesSum(s) == Residue(WordSum(s))
  {
    OnesSumToIsResidue(s, |s|);
  }

  lemma {:induction false} WordSumPrefix(a: seq<byte>, b: seq<byte>, n: nat)
    requires n <= |a| && n <= |b| && a[..n] == b[..n]
    ensures WordSumTo(a, n) == WordSumTo(b, n)
  {
    if n == 0 {
    } else {
      assert a[n - 1] == a[..n][n - 1] == b[n - 1];
      assert a[..n - 1] == a[..n][..n - 1] == b[..n - 1];
      WordSumPrefix(a, b, n - 1);
    }
  }

  lemma {:induction false} WordSumSuffix(a: seq<byte>, b: seq<byte>, n: nat)
    requires |a| % 2 == 0 && n <= |b|
    ensures WordSumTo(a + b, |a| + n) == WordSum(a) + WordSumTo(b, n)
  {
    if n == 0 {
      WordSumPrefix(a + b, a, |a|);
    } else {
      WordSumSuffix(a, b, n - 1);
      assert (a + b)[|a| + n - 1] == b[n - 1];
    }
  }

  lemma WordSumConcat(a: seq<byte>, b: seq<byte>)
    requires |a| % 2 == 0
    ensures WordSum(a + b) == WordSum(a) + WordSum(b)
  {
    WordSumSuffix(a, b, |b|);
  }

  lemma WordSumPair(b0: byte, b1: byte)
    ensures WordSum([b0, b1]) == Word(b0, b1)
  {
    assert WordSumTo([b0, b1], 1) == b0;
  }

  // ---------------------------------------------------------------------------
  // check_ics and calc_ics
  // ---------------------------------------------------------------------------

  const U32 := 0x1_0000_0000

  /** hcs += s; if (hcs < s) hcs++; on 32-bit unsigned integers. */
  function Accumulate(hcs: nat, s: nat): (r: nat)
    requires hcs < U32 && s < U32
    ensures r < U32
  {
    var sum := (hcs + s) % U32;
    if sum < s then (sum + 1) % U32 else sum
  }

  /** 2^32 - 1 is a multiple of 0xFFFF, so the 32-bit carry keeps the 16-bit residue. */
  lemma AccumulateKeepsResidue(hcs: nat, s: nat)
    requires hcs < U32 && s < U32
    ensures Residue(Accumulate(hcs, s)) == Residue(hcs + s)
  {
    if hcs + s >= U32 {
      assert (hcs + s) % U32 == hcs + s - U32;
      assert hcs + s == Accumulate(hcs, s) + 0xFFFF * 0x10001;
      ResidueShift(Accumulate(hcs, s), 0x10001);
    } else {
      assert (hcs + s) % U32 == hcs + s;
    }
  }

  /** The final loop of both checksums: fold the upper half in until 16 bits are left. */
  method Fold(x: nat) returns (hcs: nat)
    ensures hcs == Residue(x)
  {
    hcs := x;
    while hcs > 0xFFFF
      invariant Residue(hcs) == Residue(x)
      decreases hcs
    {
      assert hcs == hcs % 0x10000 + hcs / 0x10000 + 0xFFFF * (hcs / 0x10000);
      ResidueShift(hcs % 0x10000 + hcs / 0x10000, hcs / 0x10000);
      hcs := hcs % 0x10000 + hcs / 0x10000;
    }
  }

  /** One 32-bit accumulation step over four more bytes. */
  lemma AccumulateFour(hcs: nat, s: seq<byte>, n: nat)
    requires n % 2 == 0 && n + 4 <= |s| && hcs < U32 && Residue(hcs) == Residue(WordSumTo(s, n))
    ensures Residue(Accumulate(hcs, Word(s[n], s[n + 1]) + 0x10000 * Word(s[n + 2], s[n + 3])))
         == Residue(WordSumTo(s, n + 4))
  {
    var lo, hi := Word(s[n], s[n + 1]), Word(s[n + 2], s[n + 3]);
    WordSumTwo(s, n);
    WordSumTwo(s, n + 2);
    AccumulateStep(hcs, WordSumTo(s, n), lo + 0x10000 * hi);
    if lo + hi + WordSumTo(s, n) > 0 {
      ResidueShift(WordSumTo(s, n + 4), hi);
    }
  }

  lemma AccumulateStep(hcs: nat, sum: nat, w: nat)
    requires hcs < U32 && w < U32 && Residue(hcs) == Residue(sum)
    ensures Residue(Accumulate(hcs, w)) == Residue(sum + w)
  {
    AccumulateKeepsResidue(hcs, w);
    ResidueAdd(hcs, w);
    ResidueAdd(sum, w);
  }

  /** One more 32-bit little-endian word, at s[n]. */
  method AddWord(buffer: array<byte>, off: nat, n: nat, sum: nat, ghost s: seq<byte>) returns (hcs: nat)
    requires off + |s| <= buffer.Length && s == buffer[off..off + |s|] && n % 2 == 0 && n + 4 <= |s|
    requires sum < U32 && Residue(sum) == Residue(WordSumTo(s, n))
    ensures hcs < U32 && Residue(hcs) == Residue(WordSumTo(s, n + 4))
  {
    var p := off + n;
    AccumulateFour(sum, s, n);
    hcs := Accumulate(sum, Word(buffer[p], buffer[p + 1]) + 0x10000 * Word(buffer[p + 2], buffer[p + 3]));
  }

  /** How many bytes check_ics looks at. A negative length gives no whole words, but its two lowest
      bits still count. */
  function Looked(len: int): nat
  {
    if len >= 0 then len else len % 4
  }

  /** Division as in C. */
  function Quarter(len: int): int
  {
    if len >= 0 then len / 4 else -(-len / 4)
  }

  /** The first loop of check_ics: the whole 32-bit words. It also gives the position behind them. */
  method SumWords(buffer: array<byte>, off: nat, len: int, ghost s: seq<byte>) returns (hcs: nat, n: nat)
    requires |s| == Looked(len) && off + |s| <= buffer.Length && s == buffer[off..off + |s|]
    ensures n + len % 4 == |s| && n % 2 == 0
    ensures hcs < U32 && Residue(hcs) == Residue(WordSumTo(s, n))
  {
    hcs, n := 0, 0;
    var i := Quarter(len);
    assert i > 0 ==> 4 * i + len % 4 == |s|;
    assert i <= 0 ==> len % 4 == |s|;
    while i > 0
      invariant n % 2 == 0 && hcs < U32 && n + 4 * (if i > 0 then i else 0) + len % 4 == |s|
      invariant Residue(hcs) == Residue(WordSumTo(s, n))
    {
      hcs := AddWord(buffer, off, n, hcs, s);
      n := n + 4;
      i := i - 1;
    }
  }

  /** if (len & 2): one half word more. */
  method SumHalfWord(buffer: array<byte>, off: nat, len: int, sum: nat, n: nat, ghost s: seq<byte>)
    returns (hcs: nat, m: nat)
    requires off + |s| <= buffer.Length && s == buffer[off..off + |s|] && n + len % 4 == |s| && n % 2 == 0
    requires sum < U32 && Residue(sum) == Residue(WordSumTo(s, n))
    ensures m + len % 2 == |s| && m % 2 == 0
    ensures hcs < U32 && Residue(hcs) == Residue(WordSumTo(s, m))
  {
    hcs, m := sum, n;
    LowBits(len);
    if len % 4 >= 2 {
      var w := Word(buffer[off + n], buffer[off + n + 1]);
      AccumulateStep(hcs, WordSumTo(s, n), w);
      WordSumTwo(s, n);
      hcs, m := Accumulate(hcs, w), n + 2;
    }
  }

  lemma LowBits(len: int)
    ensures len % 4 == (if len % 4 >= 2 then 2 else 0) + len % 2
  {
  }

  /** if (len & 1): one byte more. */
  method SumLastByte(buffer: array<byte>, off: nat, len: int, sum: nat, n: nat, ghost s: seq<byte>) returns (hcs: nat)
    requires off + |s| <= buffer.Length && s == buffer[off..off + |s|] && n + len % 2 == |s| && n % 2 == 0
    requires sum < U32 && Residue(sum) == Residue(WordSumTo(s, n))
    ensures hcs < U32 && Residue(hcs) == Residue(WordSum(s))
  {
    hcs := sum;
    if len % 2 == 1 {
      AccumulateStep(hcs, WordSumTo(s, n), buffer[off + n]);
      hcs := Accumulate(hcs, buffer[off + n]);
    }
  }

  /** The end of check_ics: fold to 16 bits, complement, truncate to 16 bits. */
  method FoldAndComplement(sum: nat) returns (ics: nat)
    requires sum < U32
    ensures ics == 0xFFFF - Residue(sum)
  {
    var hcs := Fold(sum);
    assert U32 - 1 - hcs == 0xFFFF * 0x10000 + (0xFFFF - hcs);
    ics := (U32 - 1 - hcs) % 0x10000;
  }

  /** check_ics: a 32-bit accumulator over the buffer, then a fold, then the complement. */
  method CheckIcs(buffer: array<byte>, off: nat, len: int) returns (ics: nat)
    requires off + Looked(len) <= buffer.Length
    ensures ics == 0xFFFF - OnesSum(buffer[off..off + Looked(len)])
  {
    ghost var s := buffer[off..off + Looked(len)];
    OnesSumIsResidue(s);
    var hcs, n := SumWords(buffer, off, len, s);
    hcs, n := SumHalfWord(buffer, off, len, hcs, n, s);
    hcs := SumLastByte(buffer, off, len, hcs, n, s);
    ics := FoldAndComplement(hcs);
  }

  lemma {:induction false} WordSumByte(s: seq<byte>, k: nat, b: byte, n: nat)
    requires k < n <= |s| && s[k] == 0
    ensures WordSumTo(s[k := b], n) == WordSumTo(s, n) + Weighted(k, b)
  {
    if k < n - 1 {
      WordSumByte(s, k, b, n - 1);
    } else {
      WordSumPrefix(s[k := b], s, k);
    }
  }

  /** The buffer with the two bytes of its checksum field set. */
  function WithField(s: seq<byte>, pos: nat, b0: byte, b1: byte): (r: seq<byte>)
    requires pos + 2 <= |s|
    ensures |r| == |s|
  {
    s[..pos] + [b0, b1] + s[pos + 2..]
  }

  lemma WithFieldSum(s: seq<byte>, pos: nat, b0: byte, b1: byte)
    requires pos + 2 <= |s|
    ensures WordSum(WithField(s, pos, b0, b1))
         == WordSum(WithField(s, pos, 0, 0)) + (if pos % 2 == 0 then Word(b0, b1) else Word(b1, b0))
  {
    var cleared := WithField(s, pos, 0, 0);
    var half: seq<byte> := cleared[pos := b0];
    WordSumByte(cleared, pos, b0, |s|);
    WordSumByte(half, pos + 1, b1, |s|);
    assert WithField(s, pos, b0, b1) == half[pos + 1 := b1];
  }

  /** The complement of the cleared buffer's sum, put in the cleared field, brings the sum
      of the whole buffer to all ones exactly when the field is at an even offset or the sum
      of the cleared buffer is a multiple of 257 (the field's two bytes are then equal). */
  lemma FieldCompletes(s: seq<byte>, pos: nat, b0: byte, b1: byte)
    requires pos + 2 <= |s|
    requires Word(b0, b1) == 0xFFFF - OnesSum(WithField(s, pos, 0, 0))
    ensures OnesSum(WithField(s, pos, b0, b1)) == 0xFFFF <==>
            pos % 2 == 0 || OnesSum(WithField(s, pos, 0, 0)) % 257 == 0
  {
    WithFieldSum(s, pos, b0, b1);
    OnesSumIsResidue(WithField(s, pos, 0, 0));
    OnesSumIsResidue(WithField(s, pos, b0, b1));
    var added := if pos % 2 == 0 then Word(b0, b1) else Word(b1, b0);
    ResidueAdd(WordSum(WithField(s, pos, 0, 0)), added);
    assert OnesSum(WithField(s, pos, b0, b1)) == Residue(0xFFFF + added - Word(b0, b1));
    EqualBytes(b0, b1, OnesSum(WithField(s, pos, 0, 0)));
    if pos % 2 == 1 && b0 != b1 {
      NotAMultiple(b0 - b1);
    }
  }

  /** 0xFFFF is 255 times 257, and a word is a multiple of 257 exactly if its bytes are equal. */
  lemma EqualBytes(b0: byte, b1: byte, sum: nat)
    requires sum <= 0xFFFF && Word(b0, b1) == 0xFFFF - sum
    ensures b0 == b1 <==> sum % 257 == 0
  {
    assert sum == 257 * (255 - b1) + (b1 - b0);
    if b1 >= b0 {
      assert sum % 257 == b1 - b0;
    } else {
      assert sum == 257 * (254 - b1) + (257 + b1 - b0);
      assert sum % 257 == 257 + b1 - b0;
    }
  }

  /** At an odd offset the field can miss: three bytes, the field in the last two. */
  lemma OddOffsetFails()
    ensures var s: seq<byte> := [1, 0, 0];
      && Word(0xFE, 0xFF) == 0xFFFF - OnesSum(WithField(s, 1, 0, 0))
      && OnesSum(WithField(s, 1, 0xFE, 0xFF)) != 0xFFFF
  {
    var s: seq<byte> := [1, 0, 0];
    assert WithField(s, 1, 0, 0) == s;
    assert OnesSumTo(s, 2) == 1 && OnesSum(s) == 1;
    FieldCompletes(s, 1, 0xFE, 0xFF);
  }

  /** 257 is prime to 255, so a difference of two bytes times 255 is no multiple of 0xFFFF. */
  lemma NotAMultiple(d: int)
    requires -256 < d < 256 && d != 0
    ensures Residue(0xFFFF + 255 * d) != 0xFFFF
  {
    if d > 0 {
      ResidueShift(255 * d, 1);
    }
  }

  /** calc_ics. At an even offset it makes the buffer verify: re-checking it returns 0. */
  method CalcIcs(buffer: array<byte>, off: nat, len: nat, pos: nat)
    requires off + len <= buffer.Length && pos + 2 <= len
    modifies buffer
    ensures buffer[..off] == old(buffer[..off]) && buffer[off + len..] == old(buffer[off + len..])
    ensures buffer[off..off + len] ==
            WithField(old(buffer[off..off + len]), pos, buffer[off + pos], buffer[off + pos + 1])
    ensures Word(buffer[off + pos], buffer[off + pos + 1]) ==
            0xFFFF - OnesSum(WithField(old(buffer[off..off + len]), pos, 0, 0))
    ensures OnesSum(buffer[off..off + len]) == 0xFFFF
      <==> pos % 2 == 0 || OnesSum(WithField(old(buffer[off..off + len]), pos, 0, 0)) % 257 == 0
  {
    ghost var s := buffer[off..off + len];
    SetField(buffer, off, len, pos, 0, 0);
    var hcs := CheckIcs(buffer, off, len);
    SetField(buffer, off, len, pos, hcs % 256, hcs / 256);
    assert buffer[off..off + len] == WithField(s, pos, hcs % 256, hcs / 256);
    FieldCompletes(s, pos, hcs % 256, hcs / 256);
  }

  /** *ptr_hcs = value, little-endian. */
  method SetField(buffer: array<byte>, off: nat, len: nat, pos: nat, b0: byte, b1: byte)
    requires off + len <= buffer.Length && pos + 2 <= len
    modifies buffer
    ensures buffer[..off] == old(buffer[..off]) && buffer[off + len..] == old(buffer[off + len..])
    ensures buffer[off..off + len] == WithField(old(buffer[off..off + len]), pos, b0, b1)
    ensures buffer[off + pos] == b0 && buffer[off + pos + 1] == b1
  {
    buffer[off + pos], buffer[off + pos + 1] := b0, b1;
  }

  // ---------------------------------------------------------------------------
  // ICMPv6: the pseudo header of section 8.1 of RFC 2460
  // ---------------------------------------------------------------------------

  const IPPROTO_ICMPV6: byte := 58

  /** Source, destination, 32-bit payload length, three zero bytes and the next header. */
  function PseudoHeader(p: seq<byte>): seq<byte>
    requires |p| >= 44
  {
    p[8..40] + [0, 0] + p[4..6] + [0, 0] + [0, p[6]]
  }

  /** What section 2.3 of RFC 4443 asks of a receiver: the one's-complement sum over pseudo
      header and message, with the checksum field in place, is all ones. */
  ghost predicate Verifies(p: seq<byte>)
    requires |p| >= 44
  {
    OnesSum(PseudoHeader(p) + p[40..]) == 0xFFFF
  }

  function Field(p: seq<byte>): nat
    requires |p| >= 44
  {
    Word(p[42], p[43])
  }

  /** The plain sums of the five pieces that the code checksums separately. */
  datatype Sums = Sums(addresses: nat, length: nat, next: nat, kind: nat, rest: nat)

  ghost function Pieces(p: seq<byte>): Sums
    requires |p| >= 44
  {
    Sums(WordSum(p[8..40]), WordSum(p[4..6]), WordSum([0, p[6]]), WordSum(p[40..42]), WordSum(p[44..]))
  }

  ghost function Total(x: Sums): nat
  {
    x.addresses + x.length + x.next + x.kind + x.rest
  }

  ghost function Complement(sum: nat): nat
  {
    0xFFFF - Residue(sum)
  }

  /** The sum of the complements of the pieces. */
  ghost function Complements(x: Sums): nat
  {
    Complement(x.addresses) + Complement(x.length) + Complement(x.next) + Complement(x.kind) + Complement(x.rest)
  }

  lemma PiecesAndField(p: seq<byte>)
    requires |p| >= 44
    ensures WordSum(PseudoHeader(p) + p[40..]) == Total(Pieces(p)) + Field(p)
  {
    var msg := p[40..];
    var next: seq<byte> := [0, p[6]];
    var zeros: seq<byte> := [0, 0];
    assert PseudoHeader(p) + msg == p[8..40] + (zeros + (p[4..6] + (zeros + (next + msg))));
    WordSumConcat(p[8..40], zeros + (p[4..6] + (zeros + (next + msg))));
    WordSumConcat(zeros, p[4..6] + (zeros + (next + msg)));
    WordSumConcat(p[4..6], zeros + (next + msg));
    WordSumConcat(zeros, next + msg);
    WordSumConcat(next, msg);
    assert msg == p[40..42] + (p[42..44] + p[44..]);
    WordSumConcat(p[40..42], p[42..44] + p[44..]);
    WordSumConcat(p[42..44], p[44..]);
    WordSumPair(0, 0);
    WordSumPair(p[42], p[43]);
    assert p[42..44] == [p[42], p[43]];
  }

  lemma ComplementCancels(sum: nat) returns (k: int)
    ensures sum + Complement(sum) == 0xFFFF * k
  {
    ResidueMultiple(sum);
    var j :| sum == Residue(sum) + 0xFFFF * j;
    k := j + 1;
  }

  lemma ComplementsCancel(x: Sums) returns (k: int)
    ensures Total(x) + Complements(x) == 0xFFFF * k
  {
    var k0 := ComplementCancels(x.addresses);
    var k1 := ComplementCancels(x.length);
    var k2 := ComplementCancels(x.next);
    var k3 := ComplementCancels(x.kind);
    var k4 := ComplementCancels(x.rest);
    k := k0 + k1 + k2 + k3 + k4;
  }

  lemma ResidueAllOnes(x: nat)
    requires x > 0
    ensures Residue(x) == 0xFFFF <==> exists k: int :: x == 0xFFFF * k
  {
    if Residue(x) == 0xFFFF {
      ResidueMultiple(x);
      var k :| x == 0xFFFF + 0xFFFF * k;
      assert x == 0xFFFF * (k + 1);
    }
    if k :| x == 0xFFFF * k {
      ResidueShift(0xFFFF, k - 1);
    }
  }

  /** A field value completes the sum exactly when it agrees with the folded complements,
      zero standing for all ones. */
  lemma FieldValue(total: nat, complements: nat, f: nat, k: int)
    requires total > 0 && complements > 0 && total + complements == 0xFFFF * k && f <= 0xFFFF
    ensures f == Residue(complements) <==> Residue(total + f) == 0xFFFF && f != 0
  {
    ResidueAllOnes(total + f);
    if f != 0 {
      if f == Residue(complements) {
        ResidueMultiple(complements);
        var j :| complements == f + 0xFFFF * j;
        assert total + f == 0xFFFF * (k - j);
      }
      if Residue(total + f) == 0xFFFF {
        var j :| total + f == 0xFFFF * j;
        assert complements == f + 0xFFFF * (k - j);
        ResidueShift(f, k - j);
      }
    }
  }

  /** The receiver's test, field == folded sum of complements, accepts exactly the packets
      that verify, except those whose transmitted checksum is 0x0000. */
  lemma AcceptsIffVerifies(p: seq<byte>)
    requires |p| >= 44 && p[6] == IPPROTO_ICMPV6
    ensures Field(p) == Residue(Complements(Pieces(p))) <==> Verifies(p) && Field(p) != 0
  {
    var xs := Pieces(p);
    WordSumPair(0, p[6]);
    PiecesAndField(p);
    OnesSumIsResidue(PseudoHeader(p) + p[40..]);
    var k := ComplementsCancel(xs);
    FieldValue(Total(xs), Complements(xs), Field(p), k);
  }

  /** check_ics of one piece. */
  method PieceIcs(buf: array<byte>, off: nat, len: int, ghost piece: seq<byte>) returns (ics: nat)
    requires off + Looked(len) <= buf.Length && piece == buf[off..off + Looked(len)]
    ensures ics == Complement(WordSum(piece))
  {
    ics := CheckIcs(buf, off, len);
    OnesSumIsResidue(piece);
  }

  /** The part of the buffer that the sum covers. For a packet that ends before the checksum it is as
      if the packet were up to three bytes longer than its headers. */
  function Covered(len: int): nat
  {
    44 + Looked(len - 44)
  }

  /** Five check_ics results added up and folded, as both the sender and the receiver do. */
  method SumOfComplements(buf: array<byte>, len: int) returns (hcs: nat)
    requires Covered(len) <= buf.Length
    ensures hcs == Residue(Complements(Pieces(buf[..Covered(len)])))
  {
    ghost var p := buf[..Covered(len)];
    hcs := PieceIcs(buf, 8, 32, p[8..40]);
    var ics := PieceIcs(buf, 4, 2, p[4..6]);
    hcs := hcs + ics;
    var tbuf := new byte[2];
    tbuf[0], tbuf[1] := 0, buf[6];
    ics := PieceIcs(tbuf, 0, 2, [0, p[6]]);
    hcs := hcs + ics;
    ics := PieceIcs(buf, 40, 2, p[40..42]);
    hcs := hcs + ics;
    ics := PieceIcs(buf, 44, len - 44, p[44..]);
    hcs := Fold(hcs + ics);
  }

  /** The IPv6 and ICMPv6 headers of an echo request, before the checksum is filled in. */
  function Header6(src: seq<byte>, dst: seq<byte>, n: nat, seqnr: byte): (h: seq<byte>)
    requires |src| == |dst| == 16 && n + 8 < 0x10000
    ensures |h| == 48
  {
    [0x60, 0, 0, 0, (n + 8) / 256, (n + 8) % 256, IPPROTO_ICMPV6, 64] + src + dst + [128, 0, 0, 0, 0, 0, 0, seqnr]
  }

  function Payload(n: nat, seqnr: byte): (r: seq<byte>)
  {
    seq(n, i requires 0 <= i => (i + seqnr) % 10 + 48)
  }

  /** The checksum part of the IPv6 sender: the field goes at bytes 42 and 43, and the packet
      then verifies. */
  method FillChecksum6(buf: array<byte>, len: nat)
    requires 44 <= len <= buf.Length && buf[6] == IPPROTO_ICMPV6
    modifies buf
    ensures buf[..] == WithField(old(buf[..]), 42, buf[42], buf[43])
    ensures Verifies(buf[..len]) && Field(buf[..len]) != 0
  {
    var hcs := SumOfComplements(buf, len);
    ghost var p := buf[..len];
    buf[42], buf[43] := hcs % 256, hcs / 256;
    ghost var q := buf[..len];
    assert q[8..40] == p[8..40] && q[4..6] == p[4..6] && q[40..42] == p[40..42] && q[44..] == p[44..];
    AcceptsIffVerifies(q);
  }

  method WriteHeader6(buf: array<byte>, src: seq<byte>, dst: seq<byte>, n: nat, seqnr: byte)
    requires |src| == |dst| == 16 && n + 8 < 0x10000 && buf.Length >= 48
    requires forall k :: 0 <= k < 48 ==> buf[k] == 0
    modifies buf
    ensures buf[..48] == Header6(src, dst, n, seqnr)
  {
    WriteFixed6(buf, n, seqnr);
    CopyIn(buf, 8, src);
    CopyIn(buf, 24, dst);
    assert buf[..48] == buf[..8] + buf[8..24] + buf[24..40] + buf[40..48];
  }

  method WriteFixed6(buf: array<byte>, n: nat, seqnr: byte)
    requires n + 8 < 0x10000 && buf.Length >= 48
    requires forall k :: 0 <= k < 48 ==> buf[k] == 0
    modifies buf
    ensures buf[..8] == [0x60, 0, 0, 0, (n + 8) / 256, (n + 8) % 256, IPPROTO_ICMPV6, 64]
    ensures buf[40..48] == [128, 0, 0, 0, 0, 0, 0, seqnr]
  {
    buf[0], buf[4], buf[5] := 0x60, (n + 8) / 256, (n + 8) % 256;
    buf[6], buf[7] := IPPROTO_ICMPV6, 64;
    buf[40], buf[47] := 128, seqnr;
  }

  /** The IPv6 sender end to end. */
  method BuildEcho6(src: seq<byte>, dst: seq<byte>, n: nat, seqnr: byte) returns (buf: array<byte>)
    requires |src| == |dst| == 16 && n + 48 <= 1500
    ensures fresh(buf) && buf.Length == n + 48
    ensures buf[..] == WithField(Header6(src, dst, n, seqnr) + Payload(n, seqnr), 42, buf[42], buf[43])
    ensures Verifies(buf[..]) && Field(buf[..]) != 0
  {
    buf := new byte[n + 48](_ => 0);
    WriteHeader6(buf, src, dst, n, seqnr);
    var i := 0;
    while i < n
      invariant 0 <= i <= n
      invariant buf[..48] == Header6(src, dst, n, seqnr)
      invariant buf[48..48 + i] == Payload(n, seqnr)[..i]
    {
      buf[48 + i] := (i + seqnr) % 10 + 48;
      i := i + 1;
    }
    assert buf[..n + 48] == buf[..] == buf[..48] + buf[48..48 + n];
    assert Header6(src, dst, n, seqnr)[6] == IPPROTO_ICMPV6;
    FillChecksum6(buf, n + 48);
    assert buf[..n + 48] == buf[..];
  }

  /** The receiver's checksum test on an ICMPv6 packet of `len` bytes, in a buffer that may hold more.
      A packet that is too short has only been logged before. */
  method AcceptReply6(buf: array<byte>, len: int) returns (ok: bool)
    requires Covered(len) <= buf.Length && buf[6] == IPPROTO_ICMPV6
    ensures ok <==> Verifies(buf[..Covered(len)]) && Field(buf[..Covered(len)]) != 0
  {
    var hcs := SumOfComplements(buf, len);
    var plhcs := Word(buf[42], buf[43]);
    AcceptsIffVerifies(buf[..Covered(len)]);
    ok := plhcs == hcs;
  }

  /** A packet with addresses of zeros and a payload of two bytes. */
  const ZERO_FIELD: seq<byte> :=
    [0x60, 0, 0, 0, 0, 6, 58, 64] + seq(32, _ => 0) + [129, 0, 0, 0, 0x7E, 0xBF]

  /** The exception is real: this packet verifies, its checksum field is 0x0000, and the
      receiver's test turns it down. */
  lemma ZeroChecksumRejected()
    ensures |ZERO_FIELD| == 46 && ZERO_FIELD[6] == IPPROTO_ICMPV6
    ensures Verifies(ZERO_FIELD) && Field(ZERO_FIELD) == 0 != Residue(Complements(Pieces(ZERO_FIELD)))
  {
    ExamplePieces(ZERO_FIELD, ZERO_FIELD[8..40]);
    AllOnesVerifies(ZERO_FIELD);
  }

  lemma ExamplePieces(p: seq<byte>, zeros: seq<byte>)
    requires |p| == 46 && p[8..40] == zeros && p[4] == 0 && p[5] == 6 && p[6] == 58 && p[40] == 129 && p[41] == 0
    requires p[44] == 0x7E && p[45] == 0xBF && forall i :: 0 <= i < |zeros| ==> zeros[i] == 0
    ensures Total(Pieces(p)) == 0xFFFF
  {
    WordSumZeros(zeros, |zeros|);
    assert p[4..6] == [0, 6] && p[40..42] == [129, 0] && p[44..] == [0x7E, 0xBF];
    WordSumPair(0, 6);
    WordSumPair(0, 58);
    WordSumPair(129, 0);
    WordSumPair(0x7E, 0xBF);
  }

  /** A zero field with pieces that already sum to all ones. */
  lemma AllOnesVerifies(p: seq<byte>)
    requires |p| >= 44 && p[6] == IPPROTO_ICMPV6 && Total(Pieces(p)) == 0xFFFF && Field(p) == 0
    ensures Verifies(p) && Field(p) != Residue(Complements(Pieces(p)))
  {
    PiecesAndField(p);
    OnesSumIsResidue(PseudoHeader(p) + p[40..]);
    AcceptsIffVerifies(p);
  }

  lemma {:induction false} WordSumZeros(s: seq<byte>, n: nat)
    requires n <= |s| && forall i :: 0 <= i < |s| ==> s[i] == 0
    ensures WordSumTo(s, n) == 0
  {
    if n == 0 {
    } else {
      WordSumZeros(s, n - 1);
    }
  }
}
