/** The response side of an HTTP request: finding the end of the headers in whatever pieces the
    socket delivers, and handing the body on, at once or when the host asks. */
module HttpBody {
  import opened Bytes
  import opened Reports

  const RECV_BUF_SIZE := 2049        // HTTP_RECV_BUF_SIZE
  const CR: byte := 13
  const LF: byte := 10
  const NUL: byte := 0

  // ---------------------------------------------------------------------------
  // The end of the headers
  // ---------------------------------------------------------------------------

  /** A blank line (CR LF CR LF) stands at position h. */
  predicate BlankAt(s: seq<byte>, h: nat)
  {
    h + 4 <= |s| && s[h] == CR && s[h + 1] == LF && s[h + 2] == CR && s[h + 3] == LF
  }

  /** The first blank line stands at h. */
  predicate FirstBlank(s: seq<byte>, h: nat)
  {
    BlankAt(s, h) && forall k :: 0 <= k < h ==> !BlankAt(s, k)
  }

  /** The headers end at h, for a search that stops at a NUL. */
  predicate HeaderEnd(s: seq<byte>, h: nat)
  {
    FirstBlank(s, h) && forall k :: 0 <= k < h ==> s[k] != NUL
  }

  lemma FirstBlankStays(s: seq<byte>, more: seq<byte>, h: nat)
    requires FirstBlank(s, h)
    ensures FirstBlank(s + more, h)
  {
    forall k | 0 <= k < h
      ensures !BlankAt(s + more, k)
    {
      assert !BlankAt(s, k);
    }
  }

  /** strstr(buf, "\r\n\r\n") on a string that ends at `len`: the first blank line, unless a NUL
      comes before it. It reads nothing behind the end of the string. */
  method StrStr(buf: array<byte>, len: nat) returns (h: int)
    requires len < buf.Length && buf[len] == NUL
    ensures h >= 0 ==> HeaderEnd(buf[..len], h)
    ensures h < 0 ==> forall k :: !HeaderEnd(buf[..len], k)
  {
    h := 0;
    while buf[h] != NUL
      invariant 0 <= h <= len
      invariant forall k :: 0 <= k < h ==> buf[k] != NUL && !BlankAt(buf[..len], k)
      decreases len - h
    {
      if buf[h] == CR && buf[h + 1] == LF && buf[h + 2] == CR && buf[h + 3] == LF {
        return;
      }
      h := h + 1;
    }
    ghost var stop := h;
    forall k: nat
      ensures !HeaderEnd(buf[..len], k)
    {
      if BlankAt(buf[..len], k) {
        assert k > stop && buf[..len][stop] == NUL;
      }
    }
    h := -1;
  }

  /** chunked_eof: the data ends with the last chunk of a chunked body. */
  predicate ChunkedEof(data: seq<byte>)
  {
    |data| >= 5 && data[|data| - 5..] == [0x30, CR, LF, CR, LF]
  }

  // ---------------------------------------------------------------------------
  // The request
  // ---------------------------------------------------------------------------

  /** What zsock_recv does. */
  datatype Recv = Data(bytes: seq<byte>) | Eof | Again | Error

  /** What the header lines say; -1 stands for no Content-Length. */
  datatype Header = Header(status: int, contentLength: int)

  datatype Event =
    | Poll(err: bool, hup: bool, ready: bool, recv: Recv, header: Header)
    | Pull(len: nat, recv: Recv)
    | Timeout
    | Cancel

  /** Auto mode: the body is over with these bytes, `sent` bytes in all. A Content-Length of 0 ends it
      with the headers. */
  predicate AutoEnds(cl: int, hup: bool, got: seq<byte>, sent: nat, withHeaders: bool)
  {
    if withHeaders then hup || 0 <= cl <= sent || (cl < 0 && ChunkedEof(got))
    else hup || 0 < cl <= sent || ChunkedEof(got)
  }

  /** Manual mode: the body is over when these bytes have been pulled and nothing is left. */
  predicate PullEnds(cl: int, last: seq<byte>, sent: nat, left: nat)
  {
    0 < cl <= sent || (cl < 0 && left == 0 && ChunkedEof(last))
  }

  function First(s: seq<byte>, n: nat): (r: seq<byte>)
    ensures r <= s && |r| == if |s| <= n then |s| else n
  {
    if |s| <= n then s else s[..n]
  }

  /** How much is asked for: 0, or too much, means a whole buffer. */
  function Asked(len: nat): (n: nat)
    ensures 0 < n < RECV_BUF_SIZE
  {
    if len == 0 || len >= RECV_BUF_SIZE then RECV_BUF_SIZE - 1 else len
  }

  /** #XHTTPCSTAT: the status, or -1, and the number of bytes. */
  datatype Stat = Stat(status: int, total: int)

  class HttpRequest {
    const buf: array<byte>            // recv_buf
    const manual: bool                // manual_mode
    const head: bool                  // the method is HEAD
    var recvLen: nat                  // recv_buf_len
    var total: int                    // total_received
    var bytesSent: nat
    var header: Header                // status_code and content_length
    var headersComplete: bool
    var live: bool                    // not yet closed
    var reports: seq<Report>          // #XHTTPCDATA notifications
    var stats: seq<Stat>              // #XHTTPCSTAT notifications
    ghost var stream: seq<byte>       // everything read from the socket
    ghost var bodyAt: nat             // where the body starts in it

    /** Once the headers are complete the body is what follows the first blank line, the counters
        count body bytes, and what has been delivered is a prefix of the body. */
    ghost predicate Counted()
      reads this
    {
      && Contiguous(reports) && bytesSent == |Delivered(reports)|
      && (!headersComplete ==> reports == [] && total == |stream|)
      && (headersComplete ==>
        && 4 <= bodyAt <= |stream| && FirstBlank(stream, bodyAt - 4)
        && total == |stream| - bodyAt
        && Delivered(reports) <= stream[bodyAt..])
    }

    /** While the request lives the buffer holds what has been read and not yet used. */
    ghost predicate Buffered()
      reads this, buf
    {
      && buf.Length == RECV_BUF_SIZE && recvLen < RECV_BUF_SIZE
      && (live && !headersComplete ==> stream == buf[..recvLen])
      && (live && headersComplete ==> bodyAt <= |stream| && Delivered(reports) + buf[..recvLen] == stream[bodyAt..])
    }

    /** A request that is over has sent one final notification, with the number of bytes received or,
        when it was cancelled, delivered. */
    ghost predicate Valid()
      reads this, buf
    {
      && Counted() && Buffered()
      && |stats| == (if live then 0 else 1)
      && (!live ==> stats[0].total == total || stats[0] == Stat(-1, bytesSent))
      && (live && headersComplete && !manual ==> recvLen == 0)
      && (live && !headersComplete ==> forall h :: !HeaderEnd(stream, h))
    }

    constructor (manual: bool, head: bool)
      ensures Valid() && live && !headersComplete && this.manual == manual && this.head == head
      ensures reports == [] && stats == [] && stream == [] && fresh(buf)
    {
      this.manual, this.head := manual, head;
      buf := new byte[RECV_BUF_SIZE];
      recvLen, total, bytesSent, header := 0, 0, 0, Header(0, -1);
      headersComplete, live, reports, stats, stream, bodyAt := false, true, [], [], [], 0;
    }

    /** While the request lives and its headers are complete, every body byte received has been
        sent or is in the buffer. */
    lemma TotalIsSentPlusBuffered()
      requires Valid() && live && headersComplete
      ensures total == bytesSent + recvLen
    {
      assert |stream[bodyAt..]| == bytesSent + |buf[..recvLen]|;
    }

    /** http_finish_request and http_fail_request. */
    method Close(ok: bool)
      requires live && Counted() && Buffered() && stats == []
      modifies this`live, this`stats
      ensures Valid() && !live && stats == [Stat(if ok then header.status else -1, total)]
    {
      stats := stats + [Stat(if ok then header.status else -1, total)];
      live := false;
    }

    /** http_send_data: one notification with the first n buffered bytes from `from` on. The caller
        removes them from the buffer. */
    method SendData(data: seq<byte>)
      requires Counted() && headersComplete && Delivered(reports) + data <= stream[bodyAt..]
      modifies this`reports, this`bytesSent
      ensures Counted() && Delivered(reports) == old(Delivered(reports)) + data
      ensures data != [] ==> reports == old(reports) + [Report(old(bytesSent), data)]
      ensures data == [] ==> reports == old(reports)
    {
      if data == [] {
        return;
      }
      DeliverMore(reports, Report(bytesSent, data));
      reports := reports + [Report(bytesSent, data)];
      bytesSent := bytesSent + |data|;
    }

    /** http_recv_read: at most as much as fits in front of a final NUL. */
    method RecvRead(recv: Recv) returns (ret: Recv)
      requires live && Counted() && Buffered()
      modifies this`recvLen, this`total, this`stream, buf
      ensures Counted() && Buffered()
      ensures old(stream) <= stream
      ensures ret.Data? ==> recv.Data? && ret.bytes != [] && ret.bytes <= recv.bytes && buf[recvLen] == NUL
      ensures ret.Data? ==> recvLen == old(recvLen) + |ret.bytes| && stream == old(stream) + ret.bytes
      ensures ret.Data? ==> buf[..recvLen] == old(buf[..recvLen]) + ret.bytes
      ensures !ret.Data? ==> recvLen == old(recvLen) && stream == old(stream)
      ensures !recv.Data? ==> ret == recv
      ensures recv.Data? && 0 < |recv.bytes| < RECV_BUF_SIZE - old(recvLen) ==> ret == recv
      ensures recv.Data? && !ret.Data? ==> ret == Eof && (recv.bytes == [] || recvLen == RECV_BUF_SIZE - 1)
      ensures stream == old(stream) + old(Got(recv)) && (ret.Data? <==> old(Got(recv)) != [])
    {
      if !recv.Data? {
        return recv;
      }
      var room := RECV_BUF_SIZE - recvLen - 1;
      var n := if |recv.bytes| <= room then |recv.bytes| else room;
      if n == 0 {
        return Eof;
      }
      Append(recv.bytes[..n]);
      ret := Data(recv.bytes[..n]);
    }

    /** The bytes land behind the others, with a NUL after them. */
    method Append(got: seq<byte>)
      requires live && Counted() && Buffered() && recvLen + |got| < RECV_BUF_SIZE
      modifies this`recvLen, this`total, this`stream, buf
      ensures Counted() && Buffered() && buf[recvLen] == NUL
      ensures recvLen == old(recvLen) + |got| && stream == old(stream) + got
      ensures buf[..recvLen] == old(buf[..recvLen]) + got
    {
      ghost var was := buf[..recvLen];
      CopyIn(buf, recvLen, got);
      recvLen := recvLen + |got|;
      buf[recvLen] := NUL;
      assert buf[..recvLen] == was + got;
      Grow(got);
      total := total + |got|;
    }

    /** More of the stream: what was the body is extended. */
    ghost method Grow(got: seq<byte>)
      requires Counted()
      modifies this`stream
      ensures stream == old(stream) + got
      ensures headersComplete ==> stream[bodyAt..] == old(stream)[bodyAt..] + got && FirstBlank(stream, bodyAt - 4)
    {
      if headersComplete {
        FirstBlankStays(stream, got, bodyAt - 4);
      }
      stream := stream + got;
    }

    /** Auto mode: everything in the buffer from `from` on goes out, and the buffer is empty. */
    method SendAll(from: nat)
      requires live && headersComplete && buf.Length == RECV_BUF_SIZE && from <= recvLen < RECV_BUF_SIZE && Counted()
      requires Delivered(reports) + buf[from..recvLen] == stream[bodyAt..]
      modifies this`recvLen, this`reports, this`bytesSent
      ensures Counted() && Buffered() && recvLen == 0 && Delivered(reports) == stream[bodyAt..]
    {
      SendData(buf[from..recvLen]);
      recvLen := 0;
      assert buf[..recvLen] == [];
    }

    /** The first n buffered bytes leave the buffer; the rest moves to its front. */
    method DropFront(n: nat)
      requires n <= recvLen <= buf.Length
      modifies this`recvLen, buf
      ensures recvLen == old(recvLen) - n && buf[..recvLen] == old(buf[..recvLen])[n..]
    {
      SlideToFront(buf, n, recvLen - n);
      recvLen := recvLen - n;
    }

    /** A response without a body: to HEAD, or with status 1xx, 204 or 304. */
    predicate Bodiless()
      reads this`header
    {
      head || 100 <= header.status < 200 || header.status == 204 || header.status == 304
    }

    /** The buffered headers become complete: from here on the counters count body bytes. */
    method EndHeaders(h: nat, header: Header)
      requires live && !headersComplete && Counted() && Buffered() && FirstBlank(buf[..recvLen], h)
      modifies this`headersComplete, this`total, this`bodyAt, this`header
      ensures Counted() && headersComplete && bodyAt == h + 4 <= recvLen && this.header == header
      ensures reports == [] && stream[bodyAt..] == buf[bodyAt..recvLen]
    {
      this.header := header;
      headersComplete := true;
      total := total - (h + 4);
      bodyAt := h + 4;
    }

    /** http_headers_complete, with the blank line at h. */
    method HeadersComplete(h: nat, hup: bool, header: Header)
      requires live && !headersComplete && Counted() && Buffered() && stats == [] && FirstBlank(buf[..recvLen], h)
      modifies this`headersComplete, this`total, this`bodyAt, this`header, this`recvLen, this`reports, this`bytesSent,
               this`live, this`stats, buf
      ensures Valid() && headersComplete && bodyAt == h + 4 && this.header == header
      ensures Bodiless() ==> !live && reports == []
      ensures !Bodiless() && manual ==> live && reports == []
      ensures !Bodiless() && !manual ==> Delivered(reports) == stream[bodyAt..]
      ensures !Bodiless() && !manual ==>
                (live <==> !AutoEnds(header.contentLength, hup, stream[bodyAt..], |stream| - bodyAt, true))
      ensures !live ==> stats == [Stat(header.status, total)]
    {
      EndHeaders(h, header);
      if Bodiless() {
        live := false;
        stats := [Stat(header.status, total)];
      } else if manual {
        DropFront(h + 4);
      } else {
        AutoBody(h + 4, hup);
      }
    }

    /** The part of the body that came with the headers, in auto mode. */
    method AutoBody(from: nat, hup: bool)
      requires live && headersComplete && !manual && buf.Length == RECV_BUF_SIZE && from <= recvLen < RECV_BUF_SIZE
      requires Counted() && stats == [] && Delivered(reports) + buf[from..recvLen] == stream[bodyAt..]
      modifies this`recvLen, this`reports, this`bytesSent, this`live, this`stats
      ensures Valid() && Delivered(reports) == stream[bodyAt..]
      ensures live <==> !AutoEnds(header.contentLength, hup, old(buf[from..recvLen]), bytesSent, true)
      ensures !live ==> stats == [Stat(header.status, total)]
    {
      var body := buf[from..recvLen];
      SendAll(from);
      var cl := header.contentLength;
      if hup || (cl >= 0 && bytesSent >= cl) || (cl < 0 && ChunkedEof(body)) {
        Close(true);
      }
    }

    /** When a request ends with its headers. */
    ghost predicate HeadersEnd(hup: bool)
      reads this
    {
      && bodyAt <= |stream|
      && (live <==>
            && !Bodiless()
            && (manual || !AutoEnds(header.contentLength, hup, stream[bodyAt..], |stream| - bodyAt, true)))
    }

    /** http_process_recv_headers, after a read. */
    method ProcessRecvHeaders(hup: bool, header: Header)
      requires live && !headersComplete && Counted() && Buffered() && stats == [] && buf[recvLen] == NUL
      modifies this`headersComplete, this`total, this`bodyAt, this`header, this`recvLen, this`reports, this`bytesSent,
               this`live, this`stats, buf
      ensures Valid()
      ensures headersComplete && !manual && !Bodiless() ==> Delivered(reports) == stream[bodyAt..]
      ensures !headersComplete ==> recvLen == old(recvLen) && (live <==> recvLen < RECV_BUF_SIZE - 1)
      ensures headersComplete && manual && !Bodiless() ==> live && reports == []
      ensures headersComplete ==> this.header == header
      ensures headersComplete <==> exists h :: HeaderEnd(stream, h)
      ensures headersComplete ==> HeadersEnd(hup)
      ensures !live ==> stats == [Stat(if headersComplete then header.status else -1, total)]
    {
      var h := StrStr(buf, recvLen);
      if h >= 0 {
        HeadersComplete(h, hup, header);
      } else if recvLen >= RECV_BUF_SIZE - 1 {
        Close(false);
      }
    }

    /** http_process_recv_body, after a read. */
    method ProcessRecvBody(hup: bool)
      requires live && headersComplete && Counted() && Buffered() && stats == []
      modifies this`recvLen, this`reports, this`bytesSent, this`live, this`stats
      ensures Valid()
      ensures !manual ==> Delivered(reports) == stream[bodyAt..]
      ensures !manual ==> (live <==> !AutoEnds(header.contentLength, hup, old(buf[..recvLen]), bytesSent, false))
      ensures !live ==> stats == [Stat(header.status, total)]
      ensures manual ==> live && reports == old(reports) && recvLen == old(recvLen)
    {
      if manual {
        return;
      }
      var done := ChunkedEof(buf[..recvLen]);
      assert buf[0..recvLen] == buf[..recvLen];
      SendAll(0);
      if done || (header.contentLength > 0 && bytesSent >= header.contentLength) || hup {
        Close(true);
      }
    }

    /** http_process_request in the two receiving states. Once the headers are complete, a request in
        manual mode is ended exactly by a socket error, by POLLHUP alone, or by a read at the end of
        the input; in each case what is still buffered is not delivered. */
    method ProcessRequest(err: bool, hup: bool, ready: bool, recv: Recv, header: Header)
      requires Valid() && live
      modifies this, buf
      ensures Valid() && old(stream) <= stream
      ensures err || !ready ==> stream == old(stream) && reports == old(reports)
      ensures err || (hup && !ready) ==> !live
      ensures !err && !hup && !ready ==> live
      ensures old(headersComplete) ==> headersComplete && bodyAt == old(bodyAt)
      ensures old(headersComplete) && manual ==> reports == old(reports)
      ensures old(headersComplete) && manual ==>
        (!live <==> err || (hup && !ready) || (ready && old(EndOfInput(recv))))
      ensures old(headersComplete) && !manual ==>
        (!live <==> err || (hup && !ready) || (ready && old(EndOfInput(recv) || BodyOver(hup, recv))))
      ensures stream == old(stream) + (if ready && !err then old(Got(recv)) else [])
      ensures headersComplete && !old(headersComplete) ==> this.header == header && HeadersEnd(hup)
      ensures !old(headersComplete) && ready && !err && old(Got(recv)) != [] ==>
                (headersComplete <==> exists h :: HeaderEnd(stream, h))
      ensures !live ==> stats == [Stat(if err || !headersComplete || (old(headersComplete) && ready && recv.Error?)
                                       then -1 else this.header.status, total)]
      ensures old(headersComplete) ==> this.header == old(this.header)
    {
      if err {
        Close(false);
        return;
      }
      if !ready {
        if hup {
          Close(headersComplete);
        }
        return;
      }
      Receive(hup, recv, header);
    }

    /** The read brings nothing that could be appended: the connection has ended or failed, or there
        is no room, which looks like its end. */
    predicate EndOfInput(recv: Recv)
      reads this`recvLen
    {
      recv.Eof? || recv.Error? || (recv.Data? && (recv.bytes == [] || recvLen == RECV_BUF_SIZE - 1))
    }

    /** What a read appends. */
    function Got(recv: Recv): seq<byte>
      requires recvLen < RECV_BUF_SIZE
      reads this`recvLen
    {
      if recv.Data? then First(recv.bytes, RECV_BUF_SIZE - 1 - recvLen) else []
    }

    /** One read, and what follows from it. */
    method Receive(hup: bool, recv: Recv, header: Header)
      requires Valid() && live
      modifies this, buf
      ensures Valid() && old(stream) <= stream
      ensures old(headersComplete) ==> headersComplete && bodyAt == old(bodyAt)
      ensures old(headersComplete) && manual ==> (!live <==> old(EndOfInput(recv))) && reports == old(reports)
      ensures old(headersComplete) && !manual ==> (!live <==> old(EndOfInput(recv) || BodyOver(hup, recv)))
      ensures stream == old(stream) + old(Got(recv))
      ensures headersComplete && !old(headersComplete) ==> this.header == header && HeadersEnd(hup)
      ensures !old(headersComplete) && old(Got(recv)) != [] ==> (headersComplete <==> exists h :: HeaderEnd(stream, h))
      ensures !live ==> stats == [Stat(if !headersComplete || (old(headersComplete) && recv.Error?) then -1
                                       else this.header.status, total)]
      ensures old(headersComplete) ==> this.header == old(this.header)
    {
      if headersComplete {
        ReceiveBody(hup, recv);
      } else {
        ReceiveHeaders(hup, recv, header);
      }
    }

    method ReceiveHeaders(hup: bool, recv: Recv, header: Header)
      requires Valid() && live && !headersComplete
      modifies this, buf
      ensures Valid() && old(stream) <= stream
      ensures recv.Data? && 0 < |recv.bytes| < RECV_BUF_SIZE - old(recvLen) ==> stream == old(stream) + recv.bytes
      ensures recv.Data? && 0 < |recv.bytes| < RECV_BUF_SIZE - 1 - old(recvLen) && !headersComplete ==> live
      ensures headersComplete && manual && !Bodiless() ==> live && reports == []
      ensures headersComplete ==> this.header == header && HeadersEnd(hup)
      ensures stream == old(stream) + old(Got(recv))
      ensures !headersComplete && !recv.Again? ==> (live <==> !old(EndOfInput(recv)) && |stream| < RECV_BUF_SIZE - 1)
      ensures recv.Again? ==> live && !headersComplete
      ensures old(Got(recv)) != [] ==> (headersComplete <==> exists h :: HeaderEnd(stream, h))
      ensures !live ==> stats == [Stat(if headersComplete then header.status else -1, total)]
    {
      var ret := RecvRead(recv);
      if ret.Data? {
        ProcessRecvHeaders(hup, header);
      } else if !ret.Again? {
        Close(false);
      }
    }

    /** What one read brings in auto mode ends the body. */
    predicate BodyOver(hup: bool, recv: Recv)
      requires recvLen < RECV_BUF_SIZE
      reads this
    {
      Got(recv) != [] && AutoEnds(header.contentLength, hup, Got(recv), bytesSent + |Got(recv)|, false)
    }

    /** Once the headers are complete, a request in manual mode is ended exactly by the end of the
        input; what is still buffered is then not delivered. */
    method ReceiveBody(hup: bool, recv: Recv)
      requires Valid() && live && headersComplete
      modifies this`recvLen, this`total, this`stream, this`reports, this`bytesSent, this`live, this`stats, buf
      ensures Valid() && old(stream) <= stream
      ensures manual ==> (!live <==> old(EndOfInput(recv))) && reports == old(reports)
      ensures recv.Data? && 0 < |recv.bytes| < RECV_BUF_SIZE - old(recvLen) ==> stream == old(stream) + recv.bytes
      ensures old(EndOfInput(recv)) ==> stream == old(stream)
      ensures stream == old(stream) + old(Got(recv))
      ensures !manual ==> Delivered(reports) == stream[bodyAt..]
      ensures !manual ==> (!live <==> old(EndOfInput(recv)) || old(BodyOver(hup, recv)))
      ensures !live ==> stats == [Stat(if recv.Error? then -1 else header.status, total)]
    {
      TotalIsSentPlusBuffered();
      var ret := RecvRead(recv);
      if ret.Data? {
        BodyBytes(hup, old(Got(recv)));
      } else if !ret.Again? {
        Close(ret.Eof?);
      }
    }

    /** The bytes of one read; in auto mode they are all that is in the buffer. */
    method BodyBytes(hup: bool, ghost got: seq<byte>)
      requires live && headersComplete && Counted() && Buffered() && stats == []
      requires !manual ==> buf[..recvLen] == got && bytesSent + |got| == |stream| - bodyAt
      modifies this`recvLen, this`reports, this`bytesSent, this`live, this`stats
      ensures Valid()
      ensures !manual ==> Delivered(reports) == stream[bodyAt..]
      ensures !manual ==> (live <==> !AutoEnds(header.contentLength, hup, got, old(bytesSent) + |got|, false))
      ensures !live ==> stats == [Stat(header.status, total)]
      ensures manual ==> live && reports == old(reports)
    {
      ProcessRecvBody(hup);
    }

    /** pull_data, when bytes are in the buffer: some of them go, the rest moves to the front. */
    method PullBuffered(len: nat)
      requires Valid() && live && headersComplete && manual && recvLen > 0 && len > 0
      modifies this`recvLen, this`reports, this`bytesSent, buf
      ensures Valid() && live
      ensures reports == old(reports) + [Report(old(bytesSent), old(First(buf[..recvLen], len)))]
      ensures recvLen == old(recvLen) - old(|First(buf[..recvLen], len)|)
      ensures bytesSent == old(bytesSent) + old(|First(buf[..recvLen], len)|)
    {
      ghost var was := buf[..recvLen];
      ghost var n := |First(was, len)|;
      Regroup(Delivered(reports), was, n);
      SendFront(First(buf[..recvLen], len));
      assert Delivered(reports) + buf[..recvLen] == stream[bodyAt..];
    }

    method SendFront(data: seq<byte>)
      requires Counted() && headersComplete && buf.Length == RECV_BUF_SIZE && recvLen < RECV_BUF_SIZE
      requires data != [] && data <= buf[..recvLen] && Delivered(reports) + data <= stream[bodyAt..]
      modifies this`recvLen, this`reports, this`bytesSent, buf
      ensures Counted() && Delivered(reports) == old(Delivered(reports)) + data
      ensures reports == old(reports) + [Report(old(bytesSent), data)] && bytesSent == old(bytesSent) + |data|
      ensures recvLen == old(recvLen) - |data| && buf[..recvLen] == old(buf[..recvLen])[|data|..]
    {
      SendData(data);
      DropFront(|data|);
    }

    /** What one read brings goes straight on. */
    method PullFresh(got: seq<byte>)
      requires Valid() && live && headersComplete && manual && recvLen == 0 && 0 < |got| < RECV_BUF_SIZE
      modifies this`reports, this`bytesSent, this`total, this`stream, this`live, this`stats, buf
      ensures Valid() && stream == old(stream) + got && bytesSent == old(bytesSent) + |got|
      ensures reports == old(reports) + [Report(old(bytesSent), got)]
      ensures live <==> !PullEnds(header.contentLength, got, bytesSent, recvLen)
      ensures buf[..|got|] == got
      ensures !live ==> stats == [Stat(header.status, total)]
    {
      CopyIn(buf, 0, got);
      Grow(got);
      total := total + |got|;
      assert Delivered(reports) + got == stream[bodyAt..];
      SendData(got);
      assert Delivered(reports) + buf[..recvLen] == stream[bodyAt..];
      CheckComplete(got);
    }

    /** No data yet: a notification of length 0. */
    method ReportNothing()
      requires Valid()
      requires live && headersComplete
      modifies this`reports
      ensures Valid() && reports == old(reports) + [Report(bytesSent, [])]
    {
      var more := reports + [Report(bytesSent, [])];
      DeliverMore(reports, Report(bytesSent, []));
      assert Delivered(more) == Delivered(reports);
      reports := more;
    }

    /** The end of pull_data. */
    method CheckComplete(last: seq<byte>)
      requires Valid() && live && headersComplete
      modifies this`live, this`stats
      ensures Valid()
      ensures live <==> !PullEnds(header.contentLength, last, bytesSent, recvLen)
      ensures !live ==> stats == [Stat(header.status, total)]
    {
      var cl := header.contentLength;
      if (cl > 0 && bytesSent >= cl) || (cl < 0 && recvLen == 0 && ChunkedEof(last)) {
        Close(true);
      }
    }

    /** What a pull brings: the first bytes in the buffer, or of one read if it is empty. */
    function Pulled(asked: nat, recv: Recv): seq<byte>
      requires recvLen < RECV_BUF_SIZE == buf.Length
      reads this`recvLen, buf
    {
      PulledUpTo(Asked(asked), recv)
    }

    function PulledUpTo(len: nat, recv: Recv): seq<byte>
      requires recvLen < RECV_BUF_SIZE == buf.Length
      reads this`recvLen, buf
    {
      if recvLen > 0 then First(buf[..recvLen], len)
      else if recv.Data? then First(recv.bytes, len)
      else []
    }

    /** pull_data for AT#XHTTPCDATA; a length of 0, or one that is too large, means a whole buffer.
        One notification for the bytes that are there, or for none when there will be others. The
        request ends with the body, or with the connection. */
    method PullData(asked: nat, recv: Recv)
      requires Valid() && live
      modifies this, buf
      ensures Valid() && old(stream) <= stream
      ensures headersComplete == old(headersComplete) && bodyAt == old(bodyAt) && header == old(header)
      ensures !manual || !headersComplete ==> reports == old(reports) && live && stream == old(stream)
      ensures manual && headersComplete && old(Pulled(asked, recv)) != [] ==>
        && reports == old(reports) + [Report(old(bytesSent), old(Pulled(asked, recv)))]
        && stream == old(stream) + (if old(recvLen) > 0 then [] else old(Pulled(asked, recv)))
        && (live <==> !PullEnds(header.contentLength, old(Pulled(asked, recv)), bytesSent, recvLen))
        && (!live ==> stats == [Stat(header.status, total)])
      ensures manual && headersComplete && old(Pulled(asked, recv)) == [] ==>
        && (live <==> recv.Again?) && stream == old(stream)
        && reports == old(reports) + (if live then [Report(bytesSent, [])] else [])
        && (!live ==> stats == [Stat(if recv.Error? then -1 else header.status, total)])
    {
      var len := if asked == 0 || asked >= RECV_BUF_SIZE then RECV_BUF_SIZE - 1 else asked;
      if manual && headersComplete {
        PullManual(len, recv);
      }
    }

    method PullManual(len: nat, recv: Recv)
      requires Valid() && live && headersComplete && manual && 0 < len < RECV_BUF_SIZE
      modifies this`recvLen, this`reports, this`bytesSent, this`total, this`stream, this`live, this`stats, buf
      ensures Valid() && old(stream) <= stream
      ensures old(PulledUpTo(len, recv)) != [] ==>
        && reports == old(reports) + [Report(old(bytesSent), old(PulledUpTo(len, recv)))]
        && stream == old(stream) + (if old(recvLen) > 0 then [] else old(PulledUpTo(len, recv)))
        && (live <==> !PullEnds(header.contentLength, old(PulledUpTo(len, recv)), bytesSent, recvLen))
        && (!live ==> stats == [Stat(header.status, total)])
      ensures old(PulledUpTo(len, recv)) == [] ==>
        && (live <==> recv.Again?) && stream == old(stream)
        && reports == old(reports) + (if live then [Report(bytesSent, [])] else [])
        && (!live ==> stats == [Stat(if recv.Error? then -1 else header.status, total)])
    {
      if recvLen > 0 {
        PullHeld(len);
      } else {
        PullRecv(len, recv);
      }
    }

    method PullHeld(len: nat)
      requires Valid() && live && headersComplete && manual && recvLen > 0 && len > 0
      modifies this`recvLen, this`reports, this`bytesSent, this`live, this`stats, buf
      ensures Valid() && reports == old(reports) + [Report(old(bytesSent), old(First(buf[..recvLen], len)))]
      ensures live <==> !PullEnds(header.contentLength, old(First(buf[..recvLen], len)), bytesSent, recvLen)
      ensures !live ==> stats == [Stat(header.status, total)]
    {
      var last := First(buf[..recvLen], len);
      PullBuffered(len);
      CheckComplete(last);
    }

    /** pull_data, when the buffer is empty. */
    method PullRecv(len: nat, recv: Recv)
      requires Valid() && live && headersComplete && manual && recvLen == 0 && 0 < len < RECV_BUF_SIZE
      modifies this`reports, this`bytesSent, this`total, this`stream, this`live, this`stats, buf
      ensures Valid() && old(stream) <= stream
      ensures recv.Again? ==> live && reports == old(reports) + [Report(bytesSent, [])] && stream == old(stream)
      ensures recv.Data? && recv.bytes != [] ==>
        && reports == old(reports) + [Report(old(bytesSent), First(recv.bytes, len))]
        && stream == old(stream) + First(recv.bytes, len)
        && (live <==> !PullEnds(header.contentLength, First(recv.bytes, len), bytesSent, 0))
        && (!live ==> stats == [Stat(header.status, total)])
      ensures recv.Eof? || recv.Error? || (recv.Data? && recv.bytes == []) ==>
        && !live && reports == old(reports) && stream == old(stream)
        && stats == [Stat(if recv.Error? then -1 else header.status, total)]
    {
      if recv.Again? {
        ReportNothing();
      } else if recv.Data? && recv.bytes != [] {
        PullFresh(First(recv.bytes, len));
      } else {
        Close(!recv.Error?);
      }
    }

    /** A body of known length in auto mode, in whatever pieces it comes: the request ends with the
        piece that completes it and not before, and all of it is handed on. */
    method FeedBody(pieces: seq<seq<byte>>) returns (n: nat)
      requires Valid() && live && headersComplete && !manual && bytesSent < header.contentLength
      requires forall i :: 0 <= i < |pieces| ==> 0 < |pieces[i]| < RECV_BUF_SIZE && !ChunkedEof(pieces[i])
      modifies this, buf
      ensures Valid() && n <= |pieces| && headersComplete && header == old(header) && bodyAt == old(bodyAt)
      ensures stream == old(stream) + Concat(pieces[..n]) && Delivered(reports) == stream[bodyAt..]
      ensures live ==> n == |pieces| && |stream[bodyAt..]| < header.contentLength
      ensures !live ==> n > 0 && |stream[bodyAt..]| >= header.contentLength && stats == [Stat(header.status, total)]
      ensures !live ==> |stream[bodyAt..]| - |pieces[n - 1]| < header.contentLength
    {
      n := 0;
      TotalIsSentPlusBuffered();
      while n < |pieces| && live
        invariant n <= |pieces| && Valid() && headersComplete && header == old(header) && bodyAt == old(bodyAt)
        invariant stream == old(stream) + Concat(pieces[..n]) && Delivered(reports) == stream[bodyAt..]
        invariant live ==> |stream[bodyAt..]| < header.contentLength
        invariant !live ==> n > 0 && |stream[bodyAt..]| >= header.contentLength && stats == [Stat(header.status, total)]
        invariant !live ==> |stream[bodyAt..]| - |pieces[n - 1]| < header.contentLength
      {
        FeedPiece(pieces[n]);
        ConcatAppend(pieces[..n], pieces[n]);
        assert pieces[..n + 1] == pieces[..n] + [pieces[n]];
        Associate(old(stream), Concat(pieces[..n]), pieces[n]);
        n := n + 1;
      }
    }

    method FeedPiece(piece: seq<byte>)
      requires Valid() && live && headersComplete && !manual && 0 < header.contentLength
      requires 0 < |piece| < RECV_BUF_SIZE && !ChunkedEof(piece)
      modifies this, buf
      ensures Valid() && headersComplete && header == old(header) && stream == old(stream) + piece
      ensures bodyAt == old(bodyAt) && Delivered(reports) == stream[bodyAt..]
      ensures live <==> |stream[bodyAt..]| < header.contentLength
      ensures !live ==> stats == [Stat(header.status, total)]
    {
      TotalIsSentPlusBuffered();
      assert Got(Data(piece)) == piece;
      ReceiveBody(false, Data(piece));
    }

    /** AT#XHTTPCDATA again and again, until the buffer is empty or the body is over. */
    method Drain(asked: nat)
      requires Valid() && live && headersComplete && manual
      modifies this, buf
      ensures Valid() && headersComplete && stream == old(stream) && bodyAt == old(bodyAt) && header == old(header)
      ensures live ==> Delivered(reports) == stream[bodyAt..]
      ensures !live ==> header.contentLength > 0 ==> bytesSent >= header.contentLength
    {
      while live && recvLen > 0
        invariant Valid() && headersComplete && stream == old(stream) && bodyAt == old(bodyAt) && header == old(header)
        invariant !live ==> header.contentLength > 0 ==> bytesSent >= header.contentLength
        decreases live, recvLen
      {
        PullOnce(asked);
      }
      assert live ==> Delivered(reports) + buf[..recvLen] == Delivered(reports);
    }

    method PullOnce(asked: nat)
      requires Valid() && live && headersComplete && manual && recvLen > 0
      modifies this, buf
      ensures Valid() && headersComplete && stream == old(stream) && bodyAt == old(bodyAt) && header == old(header)
      ensures !live ==> header.contentLength > 0 ==> bytesSent >= header.contentLength
      ensures live ==> recvLen < old(recvLen)
    {
      TotalIsSentPlusBuffered();
      ghost var pulled := Pulled(asked, Again);
      PullData(asked, Again);
      DeliverMore(old(reports), Report(old(bytesSent), pulled));
      if live {
        TotalIsSentPlusBuffered();
      }
    }

    /** What an observer sees. */
    ghost function Now(): Snapshot
      requires recvLen <= buf.Length
      reads this, buf
    {
      Snapshot(live, headersComplete, header, buf[..recvLen], stream, bytesSent, reports, stats, total)
    }

    /** Any event; a closed request does not react. */
    method Handle(e: Event)
      requires Valid()
      modifies this, buf
      ensures Valid() && old(stream) <= stream
      ensures old(headersComplete) ==> headersComplete && bodyAt == old(bodyAt)
      ensures !old(live) ==> !live && reports == old(reports) && stats == old(stats)
      ensures EventOk(manual, e, old(Now()), Now())
    {
      if !live {
        return;
      }
      match e
      case Poll(err, hup, ready, recv, header) => HandlePoll(err, hup, ready, recv, header);
      case Pull(len, recv) => HandlePull(len, recv);
      case Timeout => Close(false);
      case Cancel =>
        stats := [Stat(-1, bytesSent)];
        live := false;
    }

    method HandlePoll(err: bool, hup: bool, ready: bool, recv: Recv, header: Header)
      requires Valid() && live
      modifies this, buf
      ensures Valid() && old(stream) <= stream
      ensures old(headersComplete) ==> headersComplete && bodyAt == old(bodyAt)
      ensures PollOk(manual, err, hup, ready, recv, old(Now()), Now())
    {
      ghost var was := Now();
      ghost var got := Read(recv, |was.held|);
      assert got == Got(recv) && (AtEnd(recv, |was.held|) <==> EndOfInput(recv));
      ProcessRequest(err, hup, ready, recv, header);
    }

    method HandlePull(len: nat, recv: Recv)
      requires Valid() && live
      modifies this, buf
      ensures Valid() && old(stream) <= stream
      ensures headersComplete == old(headersComplete) && bodyAt == old(bodyAt)
      ensures PullOk(manual, len, recv, old(Now()), Now())
    {
      PullData(len, recv);
    }

    method HandleNext(events: seq<Event>, i: nat, ghost trace: seq<Snapshot>) returns (ghost more: seq<Snapshot>)
      requires Valid() && i < |events| && |trace| == i + 1 && trace[i] == Now() && Traced(manual, events, trace)
      modifies this, buf
      ensures Valid() && |more| == i + 2 && more[0] == trace[0] && more[i + 1] == Now()
      ensures Traced(manual, events, more)
    {
      ghost var was := Now();
      Handle(events[i]);
      more := trace + [Now()];
      assert more[..i + 1] == trace;
    }

    method Play(events: seq<Event>) returns (ghost trace: seq<Snapshot>)
      requires Valid()
      modifies this, buf
      ensures Valid() && |trace| == |events| + 1 && Traced(manual, events, trace)
      ensures trace[0] == old(Now()) && trace[|events|] == Now()
    {
      trace := [Now()];
      var i := 0;
      while i < |events|
        invariant 0 <= i <= |events| && Valid() && |trace| == i + 1 && Traced(manual, events, trace)
        invariant trace[0] == old(Now()) && trace[i] == Now()
      {
        trace := HandleNext(events, i, trace);
        i := i + 1;
      }
    }

    /** Every run: whatever pieces the socket delivers and whatever the host asks for, the
        notifications carry, in order and at true offsets (Reports.OffsetsAreTrue), a prefix of what
        follows the first blank line; and in auto mode nothing is held back. `trace` is what an
        observer sees between the events: no read and no pull is passed over. */
    method Run(events: seq<Event>) returns (ghost trace: seq<Snapshot>)
      requires Valid()
      modifies this, buf
      ensures Valid() && Contiguous(reports)
      ensures headersComplete ==> 4 <= bodyAt <= |stream| && FirstBlank(stream, bodyAt - 4)
      ensures headersComplete ==> Delivered(reports) <= stream[bodyAt..] && total == |stream| - bodyAt
      ensures headersComplete && live ==> total == bytesSent + recvLen
      ensures headersComplete && live && !manual ==> Delivered(reports) == stream[bodyAt..]
      ensures !live ==> |stats| == 1 && (stats[0].total == total || stats[0] == Stat(-1, bytesSent))
      ensures !headersComplete ==> reports == [] && (live ==> forall h :: !HeaderEnd(stream, h))
      ensures |trace| == |events| + 1 && trace[0] == old(Now()) && trace[|events|] == Now()
      ensures forall i :: 0 <= i < |events| ==> EventOk(manual, events[i], trace[i], trace[i + 1])
    {
      trace := Play(events);
      EveryStep(manual, events, trace);
      WhatIsKept();
    }

    /** What every run keeps. */
    lemma WhatIsKept()
      requires Valid()
      ensures Contiguous(reports)
      ensures headersComplete ==> 4 <= bodyAt <= |stream| && FirstBlank(stream, bodyAt - 4)
      ensures headersComplete ==> Delivered(reports) <= stream[bodyAt..] && total == |stream| - bodyAt
      ensures headersComplete && live ==> total == bytesSent + recvLen
      ensures headersComplete && live && !manual ==> Delivered(reports) == stream[bodyAt..]
      ensures !live ==> |stats| == 1 && (stats[0].total == total || stats[0] == Stat(-1, bytesSent))
      ensures !headersComplete ==> reports == [] && (live ==> forall h :: !HeaderEnd(stream, h))
    {
      if headersComplete && live {
        TotalIsSentPlusBuffered();
      }
    }
  }

  datatype Snapshot = Snapshot(
    live: bool, complete: bool, header: Header, held: seq<byte>, stream: seq<byte>, sent: nat,
    reports: seq<Report>, stats: seq<Stat>, total: int)

  /** Each snapshot comes from the one before by the event in between. */
  ghost predicate Traced(manual: bool, events: seq<Event>, trace: seq<Snapshot>)
    requires 0 < |trace| <= |events| + 1
  {
    |trace| == 1 ||
    var n := |trace| - 1;
    Traced(manual, events, trace[..n]) && EventOk(manual, events[n - 1], trace[n - 1], trace[n])
  }

  lemma {:induction false} EveryStep(manual: bool, events: seq<Event>, trace: seq<Snapshot>)
    requires 0 < |trace| <= |events| + 1 && Traced(manual, events, trace)
    ensures forall i :: 0 <= i < |trace| - 1 ==> EventOk(manual, events[i], trace[i], trace[i + 1])
  {
    if |trace| > 1 {
      EveryStep(manual, events, trace[..|trace| - 1]);
    }
  }

  /** What an event does, a before and b after. */
  ghost predicate EventOk(manual: bool, e: Event, a: Snapshot, b: Snapshot)
  {
    if !a.live then b == a
    else match e
      case Poll(err, hup, ready, recv, _) => PollOk(manual, err, hup, ready, recv, a, b)
      case Pull(len, recv) => PullOk(manual, len, recv, a, b)
      case Timeout => b == a.(live := false, stats := [Stat(-1, a.total)])
      case Cancel => b == a.(live := false, stats := [Stat(-1, a.sent)])
  }

  /** What a read appends to a buffer that holds `held` bytes. */
  function Read(recv: Recv, held: nat): seq<byte>
    requires held < RECV_BUF_SIZE
  {
    if recv.Data? then First(recv.bytes, RECV_BUF_SIZE - 1 - held) else []
  }

  /** A read that appends nothing and will not later. */
  predicate AtEnd(recv: Recv, held: nat)
    requires held < RECV_BUF_SIZE
  {
    !recv.Again? && Read(recv, held) == []
  }

  /** Events on the socket. */
  ghost predicate PollOk(manual: bool, err: bool, hup: bool, ready: bool, recv: Recv, a: Snapshot, b: Snapshot)
  {
    |a.held| < RECV_BUF_SIZE &&
    var got := if ready && !err then Read(recv, |a.held|) else [];
    && b.stream == a.stream + got
    && (a.complete ==> PollInBody(manual, err, hup, ready, ready && AtEnd(recv, |a.held|), got, a, b))
    && (!a.complete && got != [] ==> (b.complete <==> exists h :: HeaderEnd(b.stream, h)))
    && (!b.live ==> b.stats == [Stat(if err || !b.complete || (a.complete && ready && recv.Error?) then -1
                                     else b.header.status, b.total)])
  }

  predicate PollInBody(manual: bool, err: bool, hup: bool, ready: bool, ended: bool, got: seq<byte>,
                       a: Snapshot, b: Snapshot)
  {
    && b.complete && b.header == a.header && (manual ==> b.reports == a.reports)
    && (!b.live <==> err || (hup && !ready) || ended
                     || (!manual && got != []
                         && AutoEnds(a.header.contentLength, hup, got, a.sent + |got|, false)))
  }

  /** AT#XHTTPCDATA. */
  ghost predicate PullOk(manual: bool, len: nat, recv: Recv, a: Snapshot, b: Snapshot)
  {
    if !manual || !a.complete then b.reports == a.reports && b.stream == a.stream && b.live
    else
      var pulled := if a.held != [] then First(a.held, Asked(len))
                    else if recv.Data? then First(recv.bytes, Asked(len)) else [];
      if pulled != [] then
        && b.reports == a.reports + [Report(a.sent, pulled)]
        && b.stream == a.stream + (if a.held != [] then [] else pulled)
        && (b.live <==> !PullEnds(a.header.contentLength, pulled, b.sent, |b.held|))
      else
        && (b.live <==> recv.Again?) && b.stream == a.stream
        && b.reports == a.reports + (if b.live then [Report(a.sent, [])] else [])
  }

  /** A manual request whose buffer has filled up: the next report of POLLIN ends it, and the 2048 bytes
      are never delivered. */
  method FullBufferEndsRequest() returns (r: HttpRequest)
    ensures r.Valid() && !r.live && r.headersComplete && r.total == 2048 && r.reports == []
  {
    r := new HttpRequest(true, false);
    r.ReceiveHeaders(false, Data([CR, LF, CR, LF]), Header(200, -1));
    assert HeaderEnd(r.stream, 0);
    FillAndEnd(r);
  }

  method FillAndEnd(r: HttpRequest)
    requires r.Valid() && r.live && r.headersComplete && r.manual && r.reports == [] && |r.stream| == 4
    modifies r, r.buf
    ensures r.Valid() && !r.live && r.headersComplete && r.total == 2048 && r.reports == []
  {
    r.TotalIsSentPlusBuffered();
    r.ReceiveBody(false, Data(seq(2048, _ => 1)));
    r.TotalIsSentPlusBuffered();
    r.ReceiveBody(false, Data([1]));
  }

  /** A manual request with a byte in its buffer: the server closes the connection, POLLHUP is
      reported alone, and the byte is never delivered. */
  method HangUpEndsRequest() returns (r: HttpRequest)
    ensures r.Valid() && !r.live && r.headersComplete && r.total == 1 && r.reports == []
  {
    r := new HttpRequest(true, false);
    r.ReceiveHeaders(false, Data([CR, LF, CR, LF, 1]), Header(200, -1));
    assert HeaderEnd(r.stream, 0);
    HangUp(r);
  }

  method HangUp(r: HttpRequest)
    requires r.Valid() && r.live && r.headersComplete && r.manual && r.reports == []
    requires r.stream == [CR, LF, CR, LF, 1]
    modifies r, r.buf
    ensures r.Valid() && !r.live && r.headersComplete && r.total == 1 && r.reports == []
  {
    assert BlankAt(r.stream, 0) && !BlankAt(r.stream, 1);
    assert r.bodyAt == 4;
    r.ProcessRequest(false, true, false, Again, Header(200, -1));
  }
}
