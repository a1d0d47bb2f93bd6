/** Reassembly of concatenated SMS messages (section 9.2.3.24.1 of 3GPP TS 23.040): the parts
    are stored in slots of one buffer as they arrive, and compacted in place at the end. */
module SmsConcat {
  import opened Bytes

  const SLOT := 160            // SMS_MAX_PAYLOAD_LEN_CHARS of the modem library
  const HEADER_INFO := 64      // SM_SMS_AT_HEADER_INFO_MAX_LEN
  const MAX_PARTS := 10        // MAX_CONCATENATED_MESSAGE
  const CLOSING := "\"\r\n"

  /** One part of a message. `head` is the printed text up to the payload: the URC name, the
      time and the sender. */
  datatype Part = Part(ref: nat, total: nat, seqNo: nat, head: string, payload: string)

  /** What a part contributes to the notification. */
  function Text(p: Part): string
  {
    if p.seqNo == 1 then p.head + p.payload else p.payload
  }

  /** C strings whose text fits its slot with the terminator, so that a slot never reaches into
      the next one and the whole message fits the buffer. */
  predicate Fits(p: Part)
  {
    && '\0' !in Text(p)
    && |Text(p)| <= if p.seqNo == 1 then HEADER_INFO + SLOT - 4 else SLOT - 1
  }

  predicate Ordinary(p: Part)
  {
    && '\0' !in p.head && '\0' !in p.payload
    && |p.head| < HEADER_INFO && |p.payload| <= SLOT - 3
  }

  lemma OrdinaryPartsFit(p: Part)
    requires Ordinary(p)
    ensures Fits(p)
  {
  }

  // ---------------------------------------------------------------------------
  // Reference: assembly on values
  // ---------------------------------------------------------------------------

  datatype Assembly =
    | Empty
    | Collecting(ref: nat, total: nat, count: nat, texts: seq<string>)

  datatype Outcome = Outcome(next: Assembly, urcs: seq<string>)

  function Blank(total: nat): seq<string>
  {
    seq(total, _ => "")
  }

  /** Store one part; the part that completes the count sends the message. */
  function Store(a: Assembly, p: Part): Outcome
    requires a.Collecting? && |a.texts| == a.total
  {
    if a.total != p.total || p.seqNo == 0 || p.seqNo > a.total then Outcome(Empty, [])
    else
      var texts := a.texts[p.seqNo - 1 := Text(p)];
      if a.count + 1 == a.total then Outcome(Empty, [Concat(texts) + CLOSING])
      else Outcome(Collecting(a.ref, a.total, a.count + 1, texts), [])
  }

  /** A message starts with an empty buffer. Reference number 0 stands for no message, too: after
      a part with that number the next one gets a buffer of its own, whatever message it belongs
      to, but the count and the total go on. */
  function Started(a: Assembly, p: Part): (r: Assembly)
    ensures r.Collecting? && |r.texts| == r.total
  {
    if a.Empty? then Collecting(p.ref, p.total, 0, Blank(p.total))
    else Collecting(p.ref, a.total, a.count, Blank(a.total))
  }

  /** A part of another message starts over; too many parts are ignored. */
  function Receive(a: Assembly, p: Part): Outcome
    requires a.Collecting? ==> |a.texts| == a.total
  {
    var kept := if a.Collecting? && a.ref != 0 && a.ref != p.ref then Empty else a;
    if kept.Collecting? && kept.ref != 0 then Store(kept, p)
    else if p.total > MAX_PARTS then Outcome(Empty, [])
    else Store(Started(kept, p), p)
  }

  /** Parts received one after the other, starting with no message. */
  function ReceiveAll(ps: seq<Part>): (o: Outcome)
    ensures o.next.Collecting? ==> |o.next.texts| == o.next.total
  {
    if ps == [] then Outcome(Empty, [])
    else
      var before := ReceiveAll(ps[..|ps| - 1]);
      var o := Receive(before.next, ps[|ps| - 1]);
      Outcome(o.next, before.urcs + o.urcs)
  }

  /** The parts of one message in sequence order. */
  ghost predicate IsMessage(message: seq<Part>, ref: nat)
  {
    && 1 <= |message| <= MAX_PARTS
    && forall j :: 0 <= j < |message| ==>
         message[j].ref == ref && message[j].total == |message| && message[j].seqNo == j + 1
  }

  function Texts(message: seq<Part>): (r: seq<string>)
    ensures |r| == |message|
  {
    seq(|message|, j requires 0 <= j < |message| => Text(message[j]))
  }

  /** The slots after the parts `seen` of a message have arrived. */
  ghost function Slots(message: seq<Part>, seen: seq<Part>): (r: seq<string>)
    ensures |r| == |message|
  {
    seq(|message|, j requires 0 <= j < |message| => if message[j] in seen then Text(message[j]) else "")
  }

  /** The parts whose text is in the buffer: all that have arrived, but with reference number 0
      only the last one. */
  function Stored(ref: nat, seen: seq<Part>): seq<Part>
  {
    if ref != 0 || seen == [] then seen else seen[|seen| - 1..]
  }

  lemma {:induction false} Collected(message: seq<Part>, ref: nat, ps: seq<Part>)
    requires IsMessage(message, ref) && |ps| < |message|
    requires forall k :: 0 <= k < |ps| ==> ps[k] in message
    ensures ReceiveAll(ps) == Outcome(AfterParts(message, ref, ps), [])
  {
    if ps == [] {
    } else {
      var init, p := ps[..|ps| - 1], ps[|ps| - 1];
      assert ps == init + [p];
      Collected(message, ref, init);
      CollectedMore(message, ref, init, p);
    }
  }

  lemma {:induction false} CollectedMore(message: seq<Part>, ref: nat, init: seq<Part>, p: Part)
    requires IsMessage(message, ref) && |init| < |message| && p in message
    requires ReceiveAll(init) == Outcome(AfterParts(message, ref, init), [])
    ensures ReceiveAll(init + [p]) == AfterNext(message, ref, init + [p])
  {
    NextOfMessage(message, ref, init, p);
    ReceiveOneMore(init, p);
  }

  /** The assembly after a proper part of a message. */
  ghost function AfterParts(message: seq<Part>, ref: nat, seen: seq<Part>): Assembly
  {
    if seen == [] then Empty else Collecting(ref, |message|, |seen|, Slots(message, Stored(ref, seen)))
  }

  ghost function AfterNext(message: seq<Part>, ref: nat, seen: seq<Part>): Outcome
  {
    if |seen| < |message| then Outcome(AfterParts(message, ref, seen), [])
    else Outcome(Empty, [Concat(Slots(message, Stored(ref, seen))) + CLOSING])
  }

  lemma {:induction false} NextOfMessage(message: seq<Part>, ref: nat, init: seq<Part>, p: Part)
    requires IsMessage(message, ref) && |init| < |message| && p in message
    ensures Receive(AfterParts(message, ref, init), p) == AfterNext(message, ref, init + [p])
  {
    StoredStep(message, ref, init, p);
    NextPart(AfterParts(message, ref, init), p, ref, |message|);
  }

  /** The next part of the same message. */
  lemma NextPart(a: Assembly, p: Part, ref: nat, n: nat)
    requires p.ref == ref && p.total == n <= MAX_PARTS && 1 <= p.seqNo <= n
    requires a.Collecting? ==> a.ref == ref && a.total == n == |a.texts|
    ensures var from := if a.Empty? || ref == 0 then Blank(n) else a.texts;
      var count := if a.Empty? then 1 else a.count + 1;
      Receive(a, p) == if count == n then Outcome(Empty, [Concat(from[p.seqNo - 1 := Text(p)]) + CLOSING])
                       else Outcome(Collecting(ref, n, count, from[p.seqNo - 1 := Text(p)]), [])
  {
  }

  /** What Receive makes of the next part of the same message: the slots that it starts from. */
  lemma StoredStep(message: seq<Part>, ref: nat, init: seq<Part>, p: Part)
    requires IsMessage(message, ref) && p in message
    ensures 1 <= p.seqNo <= |message| && p.total == |message| && p.ref == ref
    ensures var from := if init == [] || ref == 0 then Blank(|message|) else Slots(message, Stored(ref, init));
      Slots(message, Stored(ref, init + [p])) == from[p.seqNo - 1 := Text(p)]
  {
    assert Slots(message, []) == Blank(|message|);
    if ref == 0 {
      SlotsStep(message, ref, [], p);
      assert Stored(ref, init + [p]) == [] + [p];
    } else {
      SlotsStep(message, ref, init, p);
    }
  }

  lemma SlotsStep(message: seq<Part>, ref: nat, seen: seq<Part>, p: Part)
    requires IsMessage(message, ref) && p in message
    ensures 1 <= p.seqNo <= |message| && p.total == |message| && p.ref == ref
    ensures Slots(message, seen + [p]) == Slots(message, seen)[p.seqNo - 1 := Text(p)]
  {
    var j :| 0 <= j < |message| && message[j] == p;
    assert p.seqNo == j + 1;
    forall i | 0 <= i < |message|
      ensures Slots(message, seen + [p])[i] == Slots(message, seen)[p.seqNo - 1 := Text(p)][i]
    {
      assert message[i] == p ==> i == j;
    }
  }

  lemma SameParts(message: seq<Part>, ps: seq<Part>)
    requires multiset(ps) == multiset(message)
    ensures |ps| == |message|
    ensures forall k :: 0 <= k < |ps| ==> ps[k] in message
    ensures Slots(message, ps) == Texts(message)
  {
    assert |multiset(ps)| == |ps| && |multiset(message)| == |message|;
    forall k | 0 <= k < |ps| ensures ps[k] in message {
      assert ps[k] in multiset(ps);
    }
    forall j | 0 <= j < |message| ensures Slots(message, ps)[j] == Texts(message)[j] {
      assert message[j] in multiset(message);
      assert message[j] in multiset(ps);
    }
  }

  lemma ReceiveOneMore(init: seq<Part>, p: Part)
    ensures ReceiveAll(init + [p]).next == Receive(ReceiveAll(init).next, p).next
    ensures ReceiveAll(init + [p]).urcs == ReceiveAll(init).urcs + Receive(ReceiveAll(init).next, p).urcs
  {
    assert (init + [p])[..|init|] == init;
  }

  /** Whatever order the parts arrive in, there is one notification, and nothing is left behind. */
  lemma OneNotification(message: seq<Part>, ref: nat, ps: seq<Part>)
    requires IsMessage(message, ref) && multiset(ps) == multiset(message)
    ensures ReceiveAll(ps) == Outcome(Empty, [Concat(Slots(message, Stored(ref, ps))) + CLOSING])
  {
    SameParts(message, ps);
    var init, p := ps[..|ps| - 1], ps[|ps| - 1];
    assert ps == init + [p];
    Collected(message, ref, init);
    CollectedMore(message, ref, init, p);
  }

  /** It has the header, the payloads in sequence order and the closing quote. */
  lemma OrderIndependent(message: seq<Part>, ref: nat, ps: seq<Part>)
    requires IsMessage(message, ref) && multiset(ps) == multiset(message) && ref != 0
    ensures ReceiveAll(ps) == Outcome(Empty, [Concat(Texts(message)) + CLOSING])
  {
    SameParts(message, ps);
    OneNotification(message, ref, ps);
  }

  /** Not so with reference number 0: then it has the text of the part that arrived last. */
  lemma ZeroKeepsLast(message: seq<Part>, ps: seq<Part>)
    requires IsMessage(message, 0) && multiset(ps) == multiset(message)
    ensures ps != [] && ReceiveAll(ps) == Outcome(Empty, [Text(ps[|ps| - 1]) + CLOSING])
  {
    SameParts(message, ps);
    OneNotification(message, 0, ps);
    var p := ps[|ps| - 1];
    assert Stored(0, ps) == [p];
    SlotsStep(message, 0, [], p);
    assert Slots(message, []) == Blank(|message|) && [] + [p] == [p];
    OneText(|message|, p.seqNo - 1, Text(p));
  }

  /** The notification is right exactly if the reference number is not 0, or no other part than
      the last to arrive has a text. */
  lemma RightIff(message: seq<Part>, ref: nat, ps: seq<Part>)
    requires IsMessage(message, ref) && multiset(ps) == multiset(message)
    ensures ps != []
    ensures ReceiveAll(ps).urcs == [Concat(Texts(message)) + CLOSING] <==>
            ref != 0 || forall j :: 0 <= j < |message| && message[j] != ps[|ps| - 1] ==> Text(message[j]) == ""
  {
    SameParts(message, ps);
    if ref != 0 {
      OrderIndependent(message, ref, ps);
    } else {
      ZeroKeepsLast(message, ps);
      OthersOf(message, ref, ps[|ps| - 1]);
      SameClosing(Text(ps[|ps| - 1]), Concat(Texts(message)));
    }
  }

  lemma SameClosing(a: string, b: string)
    ensures a + CLOSING == b + CLOSING <==> a == b
  {
    assert (a + CLOSING)[..|a|] == a && (b + CLOSING)[..|b|] == b;
    assert |a + CLOSING| == |a| + |CLOSING| && |b + CLOSING| == |b| + |CLOSING|;
  }

  lemma OthersOf(message: seq<Part>, ref: nat, last: Part)
    requires IsMessage(message, ref) && last in message
    ensures Concat(Texts(message)) == Text(last)
       <==> forall j :: 0 <= j < |message| && message[j] != last ==> Text(message[j]) == ""
  {
    var i :| 0 <= i < |message| && message[i] == last;
    OthersEmpty(Texts(message), i);
    assert forall j :: 0 <= j < |message| ==> (message[j] != last <==> j != i);
    assert forall j :: 0 <= j < |message| ==> Texts(message)[j] == Text(message[j]);
  }

  /** And such a message spoils the next one: a single part of it counts as the first of two. */
  lemma ZeroSpoilsNext(p: Part, q: Part)
    requires p.ref == 0 && p.total == 2 && 1 <= p.seqNo <= 2
    requires q.ref != 0 && q.total == 2 && 1 <= q.seqNo <= 2
    ensures ReceiveAll([p, q]) == Outcome(Empty, [Text(q) + CLOSING])
  {
    ReceiveOneMore([], p);
    ReceiveOneMore([p], q);
    assert [] + [p] == [p] && [p] + [q] == [p, q];
    OneText(2, q.seqNo - 1, Text(q));
  }

  /** A part of another message is received as if nothing had been there: the buffer holds it alone. */
  lemma OtherStartsOver(a: Assembly, p: Part)
    requires a.Collecting? && |a.texts| == a.total && a.ref != 0 && p.ref != a.ref
    ensures Receive(a, p) == Receive(Empty, p)
    ensures 1 <= p.seqNo <= p.total <= MAX_PARTS && p.total > 1 ==>
              Receive(a, p) == Outcome(Collecting(p.ref, p.total, 1, Blank(p.total)[p.seqNo - 1 := Text(p)]), [])
  {
  }

  /** So an unfinished message does no harm to the next one. */
  lemma NextMessage(first: seq<Part>, a: nat, ps: seq<Part>, message: seq<Part>, b: nat, qs: seq<Part>)
    requires IsMessage(first, a) && |ps| < |first| && forall k :: 0 <= k < |ps| ==> ps[k] in first
    requires IsMessage(message, b) && multiset(qs) == multiset(message) && a != 0 && b != 0 && a != b
    ensures ReceiveAll(ps + qs) == Outcome(Empty, [Concat(Texts(message)) + CLOSING])
  {
    Collected(first, a, ps);
    SameParts(message, qs);
    OrderIndependent(message, b, qs);
    AsIfFirst(ps, message, b, qs, |qs|);
    assert qs[..|qs|] == qs;
  }

  lemma {:induction false} AsIfFirst(ps: seq<Part>, message: seq<Part>, b: nat, qs: seq<Part>, n: nat)
    requires var o := ReceiveAll(ps); o.urcs == [] && (o.next.Collecting? ==> o.next.ref != 0 && o.next.ref != b)
    requires IsMessage(message, b) && 0 < n <= |qs| && forall k :: 0 <= k < |qs| ==> qs[k] in message
    ensures ReceiveAll(ps + qs[..n]) == ReceiveAll(qs[..n])
  {
    var p := qs[n - 1];
    var j :| 0 <= j < |message| && message[j] == p;
    assert ps + qs[..n] == ps + qs[..n - 1] + [p] && qs[..n] == qs[..n - 1] + [p];
    ReceiveOneMore(ps + qs[..n - 1], p);
    ReceiveOneMore(qs[..n - 1], p);
    if n > 1 {
      AsIfFirst(ps, message, b, qs, n - 1);
    } else {
      assert ps + qs[..0] == ps && qs[..0] == [];
      if ReceiveAll(ps).next.Collecting? {
        OtherStartsOver(ReceiveAll(ps).next, p);
      }
    }
  }

  lemma {:induction false} NothingJoined(texts: seq<string>)
    ensures Concat(texts) == "" <==> forall j :: 0 <= j < |texts| ==> texts[j] == ""
  {
    if texts == [] {
    } else {
      NothingJoined(texts[1..]);
      assert forall j :: 1 <= j < |texts| ==> texts[j] == texts[1..][j - 1];
    }
  }

  lemma {:induction false} JoinedAtLeast(texts: seq<string>, i: nat)
    requires i < |texts|
    ensures |texts[i]| <= |Concat(texts)|
  {
    if i == 0 {
    } else {
      JoinedAtLeast(texts[1..], i - 1);
    }
  }

  lemma {:induction false} OthersEmpty(texts: seq<string>, i: nat)
    requires i < |texts|
    ensures Concat(texts) == texts[i] <==> forall j :: 0 <= j < |texts| && j != i ==> texts[j] == ""
  {
    var rest := texts[1..];
    assert forall j :: 1 <= j < |texts| ==> texts[j] == rest[j - 1];
    if i == 0 {
      NothingJoined(rest);
      assert Concat(texts) == texts[0] <==> Concat(rest) == "";
    } else {
      OthersEmpty(rest, i - 1);
      JoinedAtLeast(rest, i - 1);
      assert Concat(texts) == texts[i] <==> texts[0] == "" && Concat(rest) == rest[i - 1];
    }
  }

  lemma {:induction false} OneText(n: nat, i: nat, text: string)
    requires i < n
    ensures Concat(Blank(n)[i := text]) == text
  {
    var texts := Blank(n)[i := text];
    OthersEmpty(texts, i);
  }

  // ---------------------------------------------------------------------------
  // The buffer
  // ---------------------------------------------------------------------------

  /** A C string s is stored at `at`. */
  predicate Holds(buf: seq<char>, at: nat, s: string)
  {
    at + |s| < |buf| && buf[at..at + |s|] == s && buf[at + |s|] == '\0'
  }

  lemma HoldsFrame(a: seq<char>, b: seq<char>, at: nat, s: string)
    requires |a| == |b| && Holds(a, at, s) && a[at..at + |s| + 1] == b[at..at + |s| + 1]
    ensures Holds(b, at, s)
  {
    assert a[at..at + |s|] == a[at..at + |s| + 1][..|s|];
    assert b[at..at + |s|] == b[at..at + |s| + 1][..|s|];
    assert a[at + |s|] == a[at..at + |s| + 1][|s|];
    assert b[at + |s|] == b[at..at + |s| + 1][|s|];
  }

  /** snprintf(buf + at, size, "%s", s) */
  method Snprintf(buf: array<char>, at: nat, size: nat, s: string)
    requires |s| < size && at + |s| < buf.Length
    modifies buf
    ensures Holds(buf[..], at, s)
    ensures buf[..at] == old(buf[..at]) && buf[at + |s| + 1..] == old(buf[at + |s| + 1..])
  {
    CopyIn(buf, at, s + ['\0']);
    assert buf[at..at + |s| + 1] == s + ['\0'];
    assert buf[at..at + |s|] == buf[at..at + |s| + 1][..|s|];
    assert buf[at + |s|] == buf[at..at + |s| + 1][|s|];
  }

  lemma HoldsChars(buf: seq<char>, at: nat, s: string)
    requires Holds(buf, at, s) && '\0' !in s
    ensures forall k :: at <= k < at + |s| ==> buf[k] == s[k - at] && buf[k] != '\0'
  {
    forall k | at <= k < at + |s| ensures buf[k] == s[k - at] && s[k - at] != '\0' {
      assert buf[at..at + |s|][k - at] == buf[k];
    }
  }

  method Strlen(buf: array<char>, ghost s: string) returns (n: nat)
    requires Holds(buf[..], 0, s) && '\0' !in s
    ensures n == |s|
  {
    HoldsChars(buf[..], 0, s);
    n := 0;
    while buf[n] != '\0'
      invariant n <= |s|
      decreases |s| - n
    {
      n := n + 1;
    }
  }

  /** strncat(buf, buf + src, n), as a forward byte copy inside one buffer. The source lies
      behind the end of the destination, so no byte is read after it was overwritten. */
  method Strncat(buf: array<char>, src: nat, n: nat, ghost a: string, ghost b: string)
    requires Holds(buf[..], 0, a) && Holds(buf[..], src, b)
    requires '\0' !in a && '\0' !in b && |a| < src && |b| <= n
    modifies buf
    ensures Holds(buf[..], 0, a + b)
    ensures buf[|a| + |b| + 1..] == old(buf[|a| + |b| + 1..])
  {
    HoldsChars(buf[..], 0, a);
    HoldsChars(buf[..], src, b);
    var d := Strlen(buf, a);
    var i := 0;
    while i < n && buf[src + i] != '\0'
      invariant 0 <= i <= |b|
      invariant buf[..d + i] == a + b[..i]
      invariant forall k :: d + i <= k < buf.Length ==> buf[k] == old(buf[k])
    {
      buf[d + i] := buf[src + i];
      i := i + 1;
    }
    buf[d + i] := '\0';
    assert b[..|b|] == b;
    assert buf[..][0..|a + b|] == a + b;
  }

  /** Where the text of part k is stored: the first one, with its header, at the front. */
  function SlotAt(k: nat): nat
    requires k >= 1
  {
    if k == 1 then 0 else HEADER_INFO + (k - 1) * SLOT
  }

  /** Texts that fit their slots. */
  predicate TextsFit(texts: seq<string>)
  {
    forall j :: 0 <= j < |texts| ==>
      '\0' !in texts[j] && |texts[j]| <= if j == 0 then HEADER_INFO + SLOT - 4 else SLOT - 1
  }

  /** The slots from part k on hold their texts; nothing arrived means an empty string. */
  predicate SlotsHold(buf: seq<char>, texts: seq<string>, k: nat)
  {
    forall j :: k <= j < |texts| ==> Holds(buf, SlotAt(j + 1), texts[j])
  }

  lemma {:induction false} JoinedLength(texts: seq<string>, i: nat)
    requires TextsFit(texts) && 1 <= i <= |texts|
    ensures |Concat(texts[..i])| <= HEADER_INFO + SLOT - 4 + (i - 1) * (SLOT - 1)
    ensures '\0' !in Concat(texts[..i])
  {
    if i == 1 {
      assert texts[..1] == [texts[0]];
      assert [texts[0]][1..] == [];
    } else {
      JoinedLength(texts, i - 1);
      assert texts[..i] == texts[..i - 1] + [texts[i - 1]];
      ConcatAppend(texts[..i - 1], texts[i - 1]);
    }
  }

  /** The loop that appends slot after slot to the front of the buffer. */
  method Compact(buf: array<char>, total: nat, ghost texts: seq<string>)
    requires total == |texts| >= 1 && buf.Length == HEADER_INFO + SLOT * total
    requires TextsFit(texts) && SlotsHold(buf[..], texts, 0)
    modifies buf
    ensures Holds(buf[..], 0, Concat(texts))
  {
    var i := 1;
    assert texts[..1] == [texts[0]] && [texts[0]][1..] == [];
    while i < total
      invariant 1 <= i <= total
      invariant Holds(buf[..], 0, Concat(texts[..i]))
      invariant SlotsHold(buf[..], texts, i)
    {
      CompactOne(buf, i, texts);
      i := i + 1;
    }
    assert texts[..total] == texts;
  }

  method CompactOne(buf: array<char>, i: nat, ghost texts: seq<string>)
    requires 1 <= i < |texts| && buf.Length == HEADER_INFO + SLOT * |texts|
    requires TextsFit(texts) && SlotsHold(buf[..], texts, i) && Holds(buf[..], 0, Concat(texts[..i]))
    modifies buf
    ensures SlotsHold(buf[..], texts, i + 1) && Holds(buf[..], 0, Concat(texts[..i + 1]))
  {
    JoinedLength(texts, i);
    ghost var a, b := Concat(texts[..i]), texts[i];
    ghost var before := buf[..];
    Strncat(buf, HEADER_INFO + i * SLOT, SLOT, a, b);
    assert texts[..i + 1] == texts[..i] + [b];
    ConcatAppend(texts[..i], b);
    forall j | i + 1 <= j < |texts| ensures Holds(buf[..], SlotAt(j + 1), texts[j]) {
      HoldsOutside(before, buf[..], 0, |a| + |b| + 1, SlotAt(j + 1), texts[j]);
    }
  }

  /** Two strings with their terminators do not overlap. */
  lemma SlotsApart(texts: seq<string>, i: nat, j: nat)
    requires TextsFit(texts) && i < |texts| && j < |texts| && i != j
    ensures SlotAt(i + 1) + |texts[i]| + 1 <= SlotAt(j + 1) || SlotAt(j + 1) + |texts[j]| + 1 <= SlotAt(i + 1)
    ensures SlotAt(i + 1) + |texts[i]| < HEADER_INFO + SLOT * |texts|
  {
  }

  lemma HoldsOutside(a: seq<char>, b: seq<char>, lo: nat, hi: nat, at: nat, s: string)
    requires |a| == |b| && lo <= hi <= |a| && a[..lo] == b[..lo] && a[hi..] == b[hi..]
    requires Holds(a, at, s) && (at + |s| + 1 <= lo || hi <= at)
    ensures Holds(b, at, s)
  {
    forall k | at <= k < at + |s| + 1
      ensures a[k] == b[k]
    {
      if k < lo {
        assert a[k] == a[..lo][k] && b[k] == b[..lo][k];
      } else {
        assert a[k] == a[hi..][k - hi] && b[k] == b[hi..][k - hi];
      }
    }
    HoldsFrame(a, b, at, s);
  }

  /** Writing one slot leaves the others alone. */
  method StorePart(buf: array<char>, p: Part, ghost texts: seq<string>)
    requires Fits(p) && 1 <= p.seqNo <= |texts| && buf.Length == HEADER_INFO + SLOT * |texts|
    requires TextsFit(texts) && SlotsHold(buf[..], texts, 0)
    modifies buf
    ensures TextsFit(texts[p.seqNo - 1 := Text(p)]) && SlotsHold(buf[..], texts[p.seqNo - 1 := Text(p)], 0)
  {
    ghost var i, after, before := p.seqNo - 1, texts[p.seqNo - 1 := Text(p)], buf[..];
    if p.seqNo == 1 {
      Snprintf(buf, 0, buf.Length, p.head + p.payload);
    } else {
      Snprintf(buf, HEADER_INFO + (p.seqNo - 1) * SLOT, SLOT + 1, p.payload);
    }
    SlotsStay(before, buf[..], texts, i, Text(p));
  }

  /** A text written into slot i leaves the other slots alone. */
  lemma SlotsStay(before: seq<char>, after: seq<char>, texts: seq<string>, i: nat, text: string)
    requires i < |texts| && TextsFit(texts[i := text]) && SlotsHold(before, texts, 0) &&
             Holds(after, SlotAt(i + 1), text)
    requires |before| == |after| && SlotAt(i + 1) + |text| + 1 <= |before|
    requires before[..SlotAt(i + 1)] == after[..SlotAt(i + 1)]
    requires before[SlotAt(i + 1) + |text| + 1..] == after[SlotAt(i + 1) + |text| + 1..]
    ensures SlotsHold(after, texts[i := text], 0)
  {
    var now, lo := texts[i := text], SlotAt(i + 1);
    forall j | 0 <= j < |now| ensures Holds(after, SlotAt(j + 1), now[j]) {
      if j != i {
        SlotsApart(now, i, j);
        HoldsOutside(before, after, lo, lo + |text| + 1, SlotAt(j + 1), texts[j]);
      }
    }
  }

  /** A text of exactly SLOT characters puts its terminator on the first character of the next slot:
      what was stored there reads as empty. Shorter texts leave it alone. */
  method StoreBeforeOther(buf: array<char>, k: nat, text: string, ghost next: string)
    requires k >= 2 && |text| <= SLOT && next != "" && '\0' !in next && Holds(buf[..], SlotAt(k + 1), next)
    modifies buf
    ensures Holds(buf[..], SlotAt(k), text)
    ensures Holds(buf[..], SlotAt(k + 1), next) <==> |text| < SLOT
    ensures |text| == SLOT ==> Holds(buf[..], SlotAt(k + 1), "")
  {
    ghost var before, lo := buf[..], SlotAt(k);
    HoldsChars(before, SlotAt(k + 1), next);
    Snprintf(buf, HEADER_INFO + (k - 1) * SLOT, SLOT + 1, text);
    if |text| < SLOT {
      HoldsOutside(before, buf[..], lo, lo + |text| + 1, SlotAt(k + 1), next);
    } else {
      assert buf[..][SlotAt(k + 1)] == '\0';
      assert buf[..][SlotAt(k + 1)..SlotAt(k + 1) + |next|][0] == '\0';
    }
  }

  /** strcat of the closing quote, and the text that is then sent. */
  method Close(buf: array<char>, ghost joined: string) returns (urc: string)
    requires Holds(buf[..], 0, joined) && '\0' !in joined && |joined| + |CLOSING| < buf.Length
    modifies buf
    ensures urc == joined + CLOSING
  {
    HoldsChars(buf[..], 0, joined);
    var n := Strlen(buf, joined);
    Snprintf(buf, n, |CLOSING| + 1, CLOSING);
    assert buf[..][0..n + |CLOSING|] == buf[..n] + buf[..][n..n + |CLOSING|];
    assert '\0' !in CLOSING;
    var m := Strlen(buf, joined + CLOSING);
    urc := buf[..m];
  }

  // ---------------------------------------------------------------------------
  // sms_concat_handle
  // ---------------------------------------------------------------------------

  class SmsContext {
    var refNumber: nat
    var totalMsgs: nat
    var count: nat
    var buf: array?<char>             // concat_rsp_buf
    var urcs: seq<string>             // notifications sent so far
    ghost var texts: seq<string>

    ghost function View(): Assembly
      reads this
    {
      if buf == null then Empty else Collecting(refNumber, totalMsgs, count, texts)
    }

    ghost predicate Valid()
      reads this, buf
    {
      if buf == null then refNumber == 0 && totalMsgs == 0 && count == 0
      else
        && count < totalMsgs == |texts| && buf.Length == HEADER_INFO + SLOT * totalMsgs
        && TextsFit(texts) && SlotsHold(buf[..], texts, 0)
    }

    constructor ()
      ensures Valid() && View() == Empty && urcs == []
    {
      refNumber, totalMsgs, count, buf, urcs, texts := 0, 0, 0, null, [], [];
    }

    /** sms_concat_clear, also run three minutes after the last part. */
    method Clear()
      modifies this
      ensures Valid() && View() == Empty && urcs == old(urcs)
    {
      buf, refNumber, totalMsgs, count := null, 0, 0, 0;
    }

    /** A buffer for p is in place; it is the right one if the totals agree. */
    ghost predicate Open(p: Part)
      reads this, buf
    {
      && buf != null && totalMsgs == |texts|
      && (totalMsgs == p.total ==>
            && (totalMsgs > 0 ==> count < totalMsgs) && buf.Length == HEADER_INFO + SLOT * totalMsgs
            && TextsFit(texts) && SlotsHold(buf[..], texts, 0))
    }

    /** Without a reference number: an empty buffer of the size the part asks for. */
    method Begin(p: Part)
      requires Valid() && refNumber == 0 && p.total <= MAX_PARTS
      modifies this
      ensures Open(p) && fresh(buf) && urcs == old(urcs)
      ensures Collecting(refNumber, totalMsgs, count, texts) == Started(old(View()), p)
    {
      refNumber := p.ref;
      buf := new char[HEADER_INFO + SLOT * p.total](_ => '\0');
      if totalMsgs == 0 {
        totalMsgs := p.total;
      }
      texts := Blank(totalMsgs);
    }

    /** The rest of sms_concat_handle. */
    method StoreAndSend(p: Part)
      requires Open(p) && Fits(p)
      modifies this, buf
      ensures Valid() && (buf == old(buf) || buf == null)
      ensures View() == Store(old(Collecting(refNumber, totalMsgs, count, texts)), p).next
      ensures urcs == old(urcs) + Store(old(Collecting(refNumber, totalMsgs, count, texts)), p).urcs
    {
      if totalMsgs != p.total || p.seqNo == 0 || p.seqNo > totalMsgs {
        Clear();
        return;
      }
      StorePart(buf, p, texts);
      texts := texts[p.seqNo - 1 := Text(p)];
      count := count + 1;
      if count == totalMsgs {
        SendMessage();
      }
    }

    /** All parts are there: compact, close, send, forget. */
    method SendMessage()
      requires totalMsgs == |texts| >= 1 && buf != null && buf.Length == HEADER_INFO + SLOT * totalMsgs
      requires TextsFit(texts) && SlotsHold(buf[..], texts, 0)
      modifies this, buf
      ensures Valid() && View() == Empty && buf == null
      ensures urcs == old(urcs) + [Concat(old(texts)) + CLOSING]
    {
      Compact(buf, totalMsgs, texts);
      JoinedLength(texts, totalMsgs);
      assert texts[..totalMsgs] == texts;
      var urc := Close(buf, Concat(texts));
      urcs := urcs + [urc];
      Clear();
    }

    /** sms_concat_handle: the buffer does what the assembly on values does. */
    method Handle(p: Part)
      requires Valid() && Fits(p)
      modifies this, buf
      ensures Valid() && (buf == old(buf) || buf == null || fresh(buf))
      ensures View() == Receive(old(View()), p).next
      ensures urcs == old(urcs) + Receive(old(View()), p).urcs
    {
      if refNumber != 0 && refNumber != p.ref {
        Clear();
      }
      if refNumber == 0 {
        if p.total > MAX_PARTS {
          Clear();
          return;
        }
        Begin(p);
      }
      StoreAndSend(p);
    }

    method HandleAs(p: Part, ghost next: Outcome)
      requires Valid() && Fits(p) && next == Receive(View(), p)
      modifies this, buf
      ensures Valid() && (buf == old(buf) || buf == null || fresh(buf))
      ensures View() == next.next && urcs == old(urcs) + next.urcs
    {
      Handle(p);
    }

    /** The first i of the parts have been received. */
    ghost predicate Received(ps: seq<Part>, i: nat, first: seq<string>)
      requires i <= |ps|
      reads this
    {
      View() == ReceiveAll(ps[..i]).next && urcs == first + ReceiveAll(ps[..i]).urcs
    }

    /** One more part. */
    method HandleNext(ps: seq<Part>, i: nat, ghost first: seq<string>)
      requires i < |ps| && Valid() && Fits(ps[i]) && Received(ps, i, first)
      modifies this, buf
      ensures Valid() && (buf == old(buf) || buf == null || fresh(buf))
      ensures Received(ps, i + 1, first)
    {
      ghost var before := ReceiveAll(ps[..i]);
      ghost var next := Receive(before.next, ps[i]);
      ReceiveOneMore(ps[..i], ps[i]);
      assert ps[..i] + [ps[i]] == ps[..i + 1];
      Associate(first, before.urcs, next.urcs);
      HandleAs(ps[i], next);
    }

    /** Parts received one after the other. */
    method HandleEach(ps: seq<Part>)
      requires Valid() && View() == Empty
      requires forall k :: 0 <= k < |ps| ==> Fits(ps[k])
      modifies this
      ensures Valid() && View() == ReceiveAll(ps).next
      ensures urcs == old(urcs) + ReceiveAll(ps).urcs
    {
      var i := 0;
      while i < |ps|
        invariant 0 <= i <= |ps| && Valid()
        invariant buf != null ==> fresh(buf)
        invariant Received(ps, i, old(urcs))
      {
        HandleNext(ps, i, old(urcs));
        i := i + 1;
      }
      assert ps[..|ps|] == ps;
    }

    /** All parts of one message, in any order. */
    method HandleMessage(ps: seq<Part>, ghost message: seq<Part>, ghost ref: nat)
      requires Valid() && View() == Empty
      requires IsMessage(message, ref) && multiset(ps) == multiset(message)
      requires forall k :: 0 <= k < |ps| ==> Fits(ps[k])
      modifies this
      ensures Valid() && View() == Empty && ps != []
      ensures ref != 0 ==> urcs == old(urcs) + [Concat(Texts(message)) + CLOSING]
      ensures ref == 0 ==> urcs == old(urcs) + [Text(ps[|ps| - 1]) + CLOSING]
    {
      if ref != 0 {
        OrderIndependent(message, ref, ps);
      } else {
        ZeroKeepsLast(message, ps);
      }
      HandleEach(ps);
    }

    /** The same for parts as they come: a header of less than 64 characters, and payloads at least
        three characters below the slot size. */
    method HandleOrdinary(ps: seq<Part>, ghost message: seq<Part>, ghost ref: nat)
      requires Valid() && View() == Empty
      requires IsMessage(message, ref) && multiset(ps) == multiset(message)
      requires forall k :: 0 <= k < |ps| ==> Ordinary(ps[k])
      modifies this
      ensures Valid() && View() == Empty && ps != []
      ensures ref != 0 ==> urcs == old(urcs) + [Concat(Texts(message)) + CLOSING]
      ensures ref == 0 ==> urcs == old(urcs) + [Text(ps[|ps| - 1]) + CLOSING]
    {
      forall k | 0 <= k < |ps|
        ensures Fits(ps[k])
      {
        OrdinaryPartsFit(ps[k]);
      }
      HandleMessage(ps, message, ref);
    }
  }
}
