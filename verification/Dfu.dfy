/** Full modem firmware update, end to end: the host script cuts segments into chunks and retries
    them; the device gets every chunk through data mode in fragments, writes each fragment at an
    address that advances, and reports per chunk. */
module Dfu {
  import opened Bytes

  const EINVAL := 22
  const EIO := 5

  type Flash = map<nat, byte>

  // ---------------------------------------------------------------------------
  // Memory
  // ---------------------------------------------------------------------------

  predicate SameAt(f: Flash, g: Flash, a: nat)
  {
    (a in f <==> a in g) && (a in f ==> f[a] == g[a])
  }

  /** Nothing outside [lo, hi) is different. */
  ghost predicate SameOutside(f: Flash, g: Flash, lo: nat, hi: nat)
  {
    forall a: nat :: !(lo <= a < hi) ==> SameAt(f, g, a)
  }

  /** The memory holds the data at addr. */
  ghost predicate Holds(f: Flash, addr: nat, data: seq<byte>)
  {
    forall a: nat :: addr <= a < addr + |data| ==> a in f && f[a] == data[a - addr]
  }

  lemma SameTwice(f: Flash, g: Flash, h: Flash, lo: nat, hi: nat)
    requires SameOutside(f, g, lo, hi) && SameOutside(g, h, lo, hi)
    ensures SameOutside(f, h, lo, hi)
  {
    forall a: nat | !(lo <= a < hi)
      ensures SameAt(f, h, a)
    {
      assert SameAt(f, g, a) && SameAt(g, h, a);
    }
  }

  lemma SameWider(f: Flash, g: Flash, lo: nat, hi: nat, low: nat, high: nat)
    requires SameOutside(f, g, lo, hi) && low <= lo && hi <= high
    ensures SameOutside(f, g, low, high)
  {
    forall a: nat | !(low <= a < high)
      ensures SameAt(f, g, a)
    {
      assert !(lo <= a < hi);
    }
  }

  /** Changes elsewhere leave data in place. */
  lemma HoldsStays(f: Flash, g: Flash, addr: nat, data: seq<byte>, lo: nat, hi: nat)
    requires Holds(f, addr, data) && SameOutside(f, g, lo, hi)
    requires addr + |data| <= lo || hi <= addr || data == [] || lo >= hi
    ensures Holds(g, addr, data)
  {
    forall a: nat | addr <= a < addr + |data|
      ensures a in g && g[a] == data[a - addr]
    {
      assert SameAt(f, g, a);
    }
  }

  lemma HoldsInTwo(f: Flash, addr: nat, data: seq<byte>, a: seq<byte>, b: seq<byte>)
    requires data == a + b
    ensures Holds(f, addr, data) <==> Holds(f, addr, a) && Holds(f, addr + |a|, b)
  {
  }

  function Range(lo: nat, n: nat): (r: set<nat>)
    ensures forall a: nat :: a in r <==> lo <= a < lo + n
  {
    if n == 0 then {} else Range(lo, n - 1) + {lo + n - 1}
  }

  function Written(f: Flash, addr: nat, data: seq<byte>): (g: Flash)
    ensures Holds(g, addr, data) && SameOutside(f, g, addr, addr + |data|)
  {
    f + map a | a in Range(addr, |data|) :: data[a - addr]
  }

  /** A failed write may leave anything behind, but only where it was to write. */
  function Spoiled(f: Flash, addr: nat, n: nat, garbage: Flash): (g: Flash)
    ensures SameOutside(f, g, addr, addr + n)
  {
    f + map a | a in garbage && addr <= a < addr + n :: garbage[a]
  }

  // ---------------------------------------------------------------------------
  // The device
  // ---------------------------------------------------------------------------

  datatype SegmentType = BootloaderSegment | FirmwareSegment

  /** How data mode hands over the next bytes, n at a time, and what the modem library answers. */
  datatype Fragment = Fragment(n: nat, err: int, garbage: Flash)

  class Device {
    var segmentType: SegmentType      // full_mfw_dfu_segment_type
    var addr: nat                     // xdfu_full_mfw_datamode_context
    var len: nat
    var written: nat                  // xdfu_bytes_written
    var status: int                   // xdfu_status
    var inData: bool                  // data mode, with the callback as its handler
    var missing: nat                  // bytes that data mode still waits for
    var flash: Flash                  // what nrf_modem_bootloader_fw_write has written
    var staged: seq<byte>             // what nrf_modem_bootloader_bl_write has taken
    ghost var start: nat              // where the chunk of the session starts

    /** In a session the address lies between the start of the chunk and the bytes received: a failure
        leaves it behind, never ahead. */
    ghost predicate Valid()
      reads this
    {
      inData ==>
        && 0 < missing <= len
        && (segmentType == FirmwareSegment ==> start <= addr <= start + len - missing)
        && (status == 0 ==> written == len - missing)
        && (status == 0 && segmentType == FirmwareSegment ==> addr == start + written)
    }

    constructor ()
      ensures Valid() && !inData && flash == map[] && segmentType == BootloaderSegment && staged == []
    {
      segmentType, addr, len, written, status := BootloaderSegment, 0, 0, 0, 0;
      inData, missing, flash, staged, start := false, 0, map[], [], 0;
    }

    ghost function Now(): Snapshot
      reads this
    {
      Snapshot(segmentType, inData, missing, start, staged, flash)
    }

    /** AT#XDFUINIT=2: the device restarts and expects the bootloader segment. */
    method XdfuInit()
      modifies this`segmentType, this`staged, this`inData
      ensures Valid() && !inData && segmentType == BootloaderSegment && staged == []
    {
      segmentType, staged, inData := BootloaderSegment, [], false;
    }

    /** AT#XDFUWRITE=2,addr,len; `entered` is what enter_datamode returns. */
    method XdfuWrite(addr: nat, len: nat, entered: int) returns (err: int)
      requires !inData
      modifies this`addr, this`len, this`written, this`status, this`inData, this`missing, this`start
      ensures Valid()
      ensures err == if len == 0 then -EINVAL else entered
      ensures inData <==> err == 0
      ensures err == 0 ==> this.addr == start == addr && this.len == missing == len && written == 0 && status == 0
    {
      this.addr, this.len, start := addr, len, addr;
      if len == 0 {
        return -EINVAL;
      }
      written, status := 0, 0;
      if entered == 0 {
        inData, missing := true, len;
      }
      err := entered;
    }

    /** DATAMODE_SEND in xdfu_datamode_callback. After a failure the address stays where it is. */
    method DatamodeSend(data: seq<byte>, err: int, garbage: Flash) returns (ret: int)
      modifies this`addr, this`written, this`status, this`flash, this`staged
      ensures data == [] ==> ret == -EINVAL && flash == old(flash) && status == old(status) && written == old(written)
                             && addr == old(addr) && staged == old(staged)
      ensures data != [] ==> ret == |data|
      ensures data != [] ==> status == if err != 0 then err else old(status)
      ensures data != [] ==> written == old(written) + if status == 0 then |data| else 0
      ensures SameOutside(old(flash), flash, old(addr), old(addr) + |data|)
      ensures segmentType == FirmwareSegment ==> staged == old(staged)
      ensures segmentType == FirmwareSegment && err == 0 ==> Holds(flash, old(addr), data) && addr == old(addr) + |data|
      ensures segmentType == FirmwareSegment && err != 0 ==> addr == old(addr)
      ensures segmentType == FirmwareSegment && err != 0 && data != [] ==>
                flash == Spoiled(old(flash), old(addr), |data|, garbage)
      ensures segmentType == BootloaderSegment ==> flash == old(flash) && addr == old(addr)
      ensures segmentType == BootloaderSegment && err == 0 ==> staged == old(staged) + data
    {
      if data == [] {
        return -EINVAL;
      }
      if segmentType == BootloaderSegment {
        if err != 0 {
          status := err;
        } else {
          staged := staged + data;
        }
      } else {
        if err != 0 {
          flash := Spoiled(flash, addr, |data|, garbage);
          status := err;
        } else {
          flash := Written(flash, addr, data);
          addr := addr + |data|;
        }
      }
      if status == 0 {
        written := written + |data|;
      }
      ret := |data|;
    }

    /** DATAMODE_EXIT: the status in the #XDFU notification. */
    method DatamodeExit() returns (urc: int)
      modifies this`written, this`status
      ensures urc == if old(status) == 0 && old(written) == len then 0 else -1
      ensures written == 0 && status == 0
    {
      if status == 0 && written != len {
        status := -EIO;
      }
      urc := if status != 0 then -1 else 0;
      written, status := 0, 0;
    }

    /** AT#XDFUAPPLY=2; `err` is what nrf_modem_bootloader_update returns. */
    method XdfuApply(err: int) returns (urc: int)
      requires !inData
      modifies this`segmentType
      ensures Valid() && urc == if err == 0 then 0 else -1
      ensures err != 0 ==> segmentType == old(segmentType)
      ensures err == 0 ==> segmentType != old(segmentType)
    {
      if err == 0 {
        segmentType := if segmentType == BootloaderSegment then FirmwareSegment else BootloaderSegment;
      }
      urc := if err == 0 then 0 else -1;
    }
  }

  // ---------------------------------------------------------------------------
  // One chunk
  // ---------------------------------------------------------------------------

  /** One try of dfu_write: the text of the command, whether data mode was entered and the host saw it,
      what arrived of the data, in which fragments, and whether the host saw the notification. */
  datatype Attempt = Attempt(
    text: seq<byte>, entered: int, ok: bool, arrived: seq<byte>, fragments: nat -> Fragment, heard: bool)

  /** The bytes that reach the device: all of them, or others but fewer. */
  function Arrived(data: seq<byte>, t: Attempt): (r: seq<byte>)
    ensures |r| <= |data| && (|r| == |data| ==> r == data)
  {
    if |t.arrived| < |data| then t.arrived else data
  }

  ghost predicate NoErrors(fragments: nat -> Fragment)
  {
    forall k: nat :: fragments(k).err == 0
  }

  /** A try in which nothing goes wrong with n bytes. */
  ghost predicate Works(t: Attempt, n: nat)
  {
    t.entered == 0 && t.ok && t.heard && n <= |t.arrived| && NoErrors(t.fragments)
  }

  /** A try that leaves data mode behind, if it gets there. */
  predicate Clean(t: Attempt, n: nat)
  {
    t.entered == 0 ==> t.ok && n <= |t.arrived|
  }

  /** Bytes that arrive in data mode, in whatever fragments. Whatever fails, no byte outside the
      chunk's range changes; and in a session without a failure they are in place. */
  method Receive(d: Device, bytes: seq<byte>, fragments: nat -> Fragment)
    requires d.Valid() && d.inData && d.segmentType == FirmwareSegment && |bytes| <= d.missing
    modifies d`addr, d`written, d`status, d`missing, d`flash, d`staged
    ensures SameOutside(old(d.flash), d.flash, d.start, d.start + d.len) && d.staged == old(d.staged)
    ensures d.missing == old(d.missing) - |bytes| && (d.missing > 0 ==> d.Valid())
    ensures d.status == 0 ==> d.written == d.len - d.missing
    ensures d.status == 0 && old(d.missing) == d.len ==> Holds(d.flash, d.start, bytes)
    ensures NoErrors(fragments) && old(d.status) == 0 ==> d.status == 0
  {
    var sent, k := 0, 0;
    while sent < |bytes|
      invariant 0 <= sent <= |bytes| && d.missing == old(d.missing) - sent && d.staged == old(d.staged)
      invariant Session(d) && (old(d.missing) == d.len && d.status == 0 ==> Holds(d.flash, d.start, bytes[..sent]))
      invariant SameOutside(old(d.flash), d.flash, d.start, d.start + d.len)
      invariant NoErrors(fragments) && old(d.status) == 0 ==> d.status == 0
      decreases |bytes| - sent
    {
      ghost var was := d.flash;
      var f := fragments(k);
      var n := if f.n == 0 then 1 else if f.n <= |bytes| - sent then f.n else |bytes| - sent;
      ghost var before := if old(d.missing) == d.len then bytes[..sent] else [];
      ReceiveFragment(d, bytes[sent..sent + n], f.err, f.garbage, before);
      SameTwice(old(d.flash), was, d.flash, d.start, d.start + d.len);
      assert bytes[..sent] + bytes[sent..sent + n] == bytes[..sent + n];
      sent, k := sent + n, k + 1;
    }
    assert bytes[..|bytes|] == bytes;
  }

  /** What Valid says of a session, also when it has just received its last byte. */
  ghost predicate Session(d: Device)
    reads d
  {
    && d.missing <= d.len && d.start <= d.addr <= d.start + d.len - d.missing
    && (d.status == 0 ==> d.written == d.len - d.missing && d.addr == d.start + d.written)
  }

  /** One fragment; `before` is what this session has put in place, if all of it is known. */
  method ReceiveFragment(d: Device, piece: seq<byte>, err: int, garbage: Flash, ghost before: seq<byte>)
    requires d.segmentType == FirmwareSegment && Session(d) && 0 < |piece| <= d.missing
    requires d.status == 0 ==> Holds(d.flash, d.start, before)
    modifies d`addr, d`written, d`status, d`missing, d`flash, d`staged
    ensures Session(d) && d.missing == old(d.missing) - |piece| && d.staged == old(d.staged)
    ensures SameOutside(old(d.flash), d.flash, d.start, d.start + d.len)
    ensures d.status == 0 && |before| == d.len - old(d.missing) ==> Holds(d.flash, d.start, before + piece)
    ensures err == 0 && old(d.status) == 0 ==> d.status == 0
  {
    ghost var was, at := d.flash, d.addr;
    var _ := d.DatamodeSend(piece, err, garbage);
    d.missing := d.missing - |piece|;
    SameWider(was, d.flash, at, at + |piece|, d.start, d.start + d.len);
    if d.status == 0 && |before| == d.len - old(d.missing) {
      HoldsStays(was, d.flash, d.start, before, at, at + |piece|);
      HoldsInTwo(d.flash, d.start, before + piece, before, piece);
    }
  }

  /** dfu_write in the firmware phase: it reports success only if the memory holds the chunk. If
      bytes of an earlier try are still missing, the device is in data mode and takes the command
      as data: the host waits for OK in vain. */
  method DfuWrite(d: Device, addr: nat, data: seq<byte>, t: Attempt) returns (success: bool)
    requires d.segmentType == FirmwareSegment && d.Valid() && (d.inData ==> d.start == addr && d.len == |data|)
    modifies d`addr, d`len, d`written, d`status, d`inData, d`missing, d`start, d`flash, d`staged
    ensures d.Valid() && (d.inData ==> d.start == addr && d.len == |data|)
    ensures SameOutside(old(d.flash), d.flash, addr, addr + |data|) && d.staged == old(d.staged)
    ensures success ==> data != [] && !d.inData && Holds(d.flash, addr, data)
    ensures old(d.inData) ==> !success
    ensures !old(d.inData) && Clean(t, |data|) ==> !d.inData
    ensures !old(d.inData) && Works(t, |data|) ==> (success <==> data != [])
  {
    if d.inData {
      var n := if |t.text| <= d.missing then |t.text| else d.missing;
      var _ := ReceiveAndReport(d, t.text[..n], t.fragments);
      return false;
    }
    var err := d.XdfuWrite(addr, |data|, t.entered);
    if err != 0 || !t.ok {
      return false;
    }
    var arrived := Arrived(data, t);
    var urc := ReceiveAndReport(d, arrived, t.fragments);
    success := t.heard && urc == 0;
  }

  /** Data mode ends with the last declared byte; 1 stands for no notification yet. */
  method ReceiveAndReport(d: Device, bytes: seq<byte>, fragments: nat -> Fragment) returns (urc: int)
    requires d.Valid() && d.inData && d.segmentType == FirmwareSegment && |bytes| <= d.missing
    modifies d`addr, d`written, d`status, d`inData, d`missing, d`flash, d`staged
    ensures d.Valid() && d.staged == old(d.staged) && (d.inData <==> |bytes| < old(d.missing))
    ensures d.missing == old(d.missing) - |bytes| && (urc == 1 <==> d.inData)
    ensures SameOutside(old(d.flash), d.flash, d.start, d.start + d.len)
    ensures urc == 0 ==> !d.inData
    ensures urc == 0 && old(d.missing) == d.len ==> Holds(d.flash, d.start, bytes)
    ensures NoErrors(fragments) && old(d.status) == 0 && |bytes| == old(d.missing) ==> urc == 0
  {
    Receive(d, bytes, fragments);
    urc := 1;
    if d.missing == 0 {
      urc := d.DatamodeExit();
      d.inData := false;
    }
  }

  /** Up to the j-th try all are clean, and that one works. */
  ghost predicate WorksAt(tries: nat -> Attempt, j: nat, n: nat)
  {
    Works(tries(j), n) && forall i: nat :: i < j ==> Clean(tries(i), n)
  }

  ghost predicate Recovers(tries: nat -> Attempt, retries: nat, n: nat)
  {
    exists j: nat :: j < retries && WorksAt(tries, j, n)
  }

  /** The retry loop of do_dfu_full: at most `retries` attempts. Failed tries do no harm as long as
      none of them leaves the device in data mode. */
  method WriteWithRetries(d: Device, addr: nat, data: seq<byte>, retries: nat, tries: nat -> Attempt)
    returns (success: bool)
    requires d.segmentType == FirmwareSegment && d.Valid() && !d.inData
    modifies d`addr, d`len, d`written, d`status, d`inData, d`missing, d`start, d`flash, d`staged
    ensures d.Valid() && SameOutside(old(d.flash), d.flash, addr, addr + |data|) && d.staged == old(d.staged)
    ensures success ==> data != [] && !d.inData && Holds(d.flash, addr, data)
    ensures data != [] && Recovers(tries, retries, |data|) ==> success
  {
    success := false;
    ghost var good: nat := FirstGood(tries, retries, |data|);
    var j := 0;
    while j < retries && !success
      invariant 0 <= j <= retries && d.staged == old(d.staged)
      invariant d.Valid() && (d.inData ==> d.start == addr && d.len == |data|)
      invariant SameOutside(old(d.flash), d.flash, addr, addr + |data|)
      invariant success ==> data != [] && !d.inData && Holds(d.flash, addr, data)
      invariant data != [] && good < retries ==> success || (j <= good && !d.inData)
    {
      ghost var was := d.flash;
      success := DfuWrite(d, addr, data, tries(j));
      SameTwice(old(d.flash), was, d.flash, addr, addr + |data|);
      j := j + 1;
    }
  }

  /** A try that works, with clean ones before it. */
  lemma FirstGood(tries: nat -> Attempt, retries: nat, n: nat) returns (good: nat)
    ensures good < retries <==> Recovers(tries, retries, n)
    ensures good < retries ==> WorksAt(tries, good, n)
  {
    good := retries;
    if Recovers(tries, retries, n) {
      good :| good < retries && WorksAt(tries, good, n);
    }
  }

  /** The bootloader phase of one chunk: the bytes are appended to the staged segment. */
  method BootWrite(d: Device, addr: nat, data: seq<byte>, t: Attempt) returns (success: bool)
    requires d.segmentType == BootloaderSegment && d.Valid() && !d.inData
    modifies d`addr, d`len, d`written, d`status, d`inData, d`missing, d`start, d`flash, d`staged
    ensures d.Valid() && d.flash == old(d.flash)
    ensures success ==> data != [] && !d.inData && d.staged == old(d.staged) + data
    ensures Works(t, |data|) ==> (success <==> data != [])
    ensures t.entered == 0 && t.ok ==> (d.inData <==> |Arrived(data, t)| < |data|)
  {
    var err := d.XdfuWrite(addr, |data|, t.entered);
    if err != 0 || !t.ok {
      return false;
    }
    BootReceive(d, Arrived(data, t), t.fragments);
    if d.missing > 0 {
      return false;
    }
    var urc := d.DatamodeExit();
    d.inData := false;
    success := t.heard && urc == 0;
  }

  method BootReceive(d: Device, bytes: seq<byte>, fragments: nat -> Fragment)
    requires d.segmentType == BootloaderSegment && d.Valid() && d.inData && |bytes| <= d.missing
    modifies d`addr, d`written, d`status, d`missing, d`flash, d`staged
    ensures d.flash == old(d.flash) && d.missing == old(d.missing) - |bytes| && (d.missing > 0 ==> d.Valid())
    ensures d.status == 0 ==> d.written == d.len - d.missing
    ensures d.status == 0 && old(d.status) == 0 ==> d.staged == old(d.staged) + bytes
    ensures NoErrors(fragments) && old(d.status) == 0 ==> d.status == 0
  {
    var sent, k := 0, 0;
    while sent < |bytes|
      invariant 0 <= sent <= |bytes| && d.flash == old(d.flash) && d.missing == old(d.missing) - sent
      invariant d.status == 0 ==> d.written == d.len - d.missing
      invariant d.status == 0 && old(d.status) == 0 ==> d.staged == old(d.staged) + bytes[..sent]
      invariant NoErrors(fragments) && old(d.status) == 0 ==> d.status == 0
      decreases |bytes| - sent
    {
      var f := fragments(k);
      var n := if f.n == 0 then 1 else if f.n <= |bytes| - sent then f.n else |bytes| - sent;
      var _ := d.DatamodeSend(bytes[sent..sent + n], f.err, f.garbage);
      assert bytes[..sent] + bytes[sent..sent + n] == bytes[..sent + n];
      d.missing := d.missing - n;
      sent, k := sent + n, k + 1;
    }
    assert bytes[..|bytes|] == bytes;
  }

  // ---------------------------------------------------------------------------
  // The point of no return
  // ---------------------------------------------------------------------------

  /** What a host may do with the device. */
  datatype Command =
    | Init
    | Write(addr: nat, len: nat, entered: int)
    | Bytes(data: seq<byte>, fragments: nat -> Fragment)
    | Apply(err: int)

  /** What an observer sees of the device. */
  datatype Snapshot = Snapshot(
    segmentType: SegmentType, inData: bool, missing: nat, start: nat, staged: seq<byte>, flash: Flash)

  /** What a command does, a before and b after: in data mode only bytes count. */
  ghost predicate CommandOk(c: Command, a: Snapshot, b: Snapshot)
  {
    if a.inData then
      if c.Bytes? then
        && (b.inData <==> |c.data| < a.missing) && (b.inData ==> b.missing == a.missing - |c.data|)
        && b.segmentType == a.segmentType && b.start == a.start
      else b == a
    else match c
      case Bytes(_, _) => b == a
      case Init => b == a.(segmentType := BootloaderSegment, staged := [])
      case Write(addr, len, entered) =>
        && b.segmentType == a.segmentType && b.staged == a.staged && b.flash == a.flash
        && (b.inData <==> len > 0 && entered == 0) && (b.inData ==> b.missing == len && b.start == addr)
      case Apply(err) => b == a.(segmentType := if err == 0 then Other(a.segmentType) else a.segmentType)
  }

  function Other(t: SegmentType): SegmentType
  {
    if t == BootloaderSegment then FirmwareSegment else BootloaderSegment
  }

  /** Any commands, in any order. Until the bootloader has been applied nothing is written to the
      modem's memory. */
  method RunCommands(d: Device, commands: seq<Command>) returns (ghost trace: seq<Snapshot>)
    requires d.Valid()
    modifies d
    ensures d.Valid()
    ensures old(d.segmentType) == BootloaderSegment && (forall i :: 0 <= i < |commands| ==> commands[i] != Apply(0))
      ==> d.flash == old(d.flash) && d.segmentType == BootloaderSegment
    ensures |trace| == |commands| + 1 && trace[0] == old(d.Now()) && trace[|commands|] == d.Now()
    ensures forall i :: 0 <= i < |commands| ==> CommandOk(commands[i], trace[i], trace[i + 1])
  {
    trace := [d.Now()];
    var i := 0;
    while i < |commands|
      invariant 0 <= i <= |commands| && d.Valid()
      invariant old(d.segmentType) == BootloaderSegment && (forall k :: 0 <= k < |commands| ==> commands[k] != Apply(0))
        ==> d.flash == old(d.flash) && d.segmentType == BootloaderSegment
      invariant |trace| == i + 1 && trace[0] == old(d.Now()) && trace[i] == d.Now()
      invariant forall k :: 0 <= k < i ==> CommandOk(commands[k], trace[k], trace[k + 1])
    {
      TakeCommand(d, commands[i]);
      trace := trace + [d.Now()];
      i := i + 1;
    }
  }

  /** In data mode only bytes count. */
  method TakeCommand(d: Device, c: Command)
    requires d.Valid()
    modifies d
    ensures d.Valid()
    ensures old(d.segmentType) == BootloaderSegment && c != Apply(0) ==>
            d.flash == old(d.flash) && d.segmentType == BootloaderSegment
    ensures CommandOk(c, old(d.Now()), d.Now())
  {
    if c.Bytes? {
      if d.inData {
        TakeBytes(d, c.data[..if |c.data| <= d.missing then |c.data| else d.missing], c.fragments);
      }
    } else if !d.inData {
      match c
      case Init => d.XdfuInit();
      case Write(addr, len, entered) => var _ := d.XdfuWrite(addr, len, entered);
      case Apply(err) => var _ := d.XdfuApply(err);
    }
  }

  method TakeBytes(d: Device, bytes: seq<byte>, fragments: nat -> Fragment)
    requires d.Valid() && d.inData && |bytes| <= d.missing
    modifies d`addr, d`written, d`status, d`inData, d`missing, d`flash, d`staged
    ensures d.Valid() && (d.segmentType == BootloaderSegment ==> d.flash == old(d.flash))
    ensures d.missing == old(d.missing) - |bytes| && (d.inData <==> d.missing > 0)
  {
    if d.segmentType == FirmwareSegment {
      var _ := ReceiveAndReport(d, bytes, fragments);
    } else {
      BootReceive(d, bytes, fragments);
      if d.missing == 0 {
        var _ := d.DatamodeExit();
        d.inData := false;
      }
    }
  }

  // ---------------------------------------------------------------------------
  // Chunks
  // ---------------------------------------------------------------------------

  datatype Chunk = Chunk(addr: nat, data: seq<byte>)
  datatype Segment = Segment(addr: nat, length: nat, offset: nat)

  /** data[lo:hi] in Python. */
  function Slice(data: seq<byte>, lo: nat, hi: nat): (r: seq<byte>)
    ensures |r| <= if lo <= hi then hi - lo else 0
  {
    var h := if hi <= |data| then hi else |data|;
    if lo <= h then data[lo..h] else []
  }

  /** How many bytes of the segment are in a file of n bytes. */
  function Available(n: nat, s: Segment): nat
  {
    if s.offset + s.length <= n then s.length else if s.offset <= n then n - s.offset else 0
  }

  /** The segment's bytes in the file; fewer than its length if the file ends early. */
  function SegmentData(raw: seq<byte>, s: Segment): (r: seq<byte>)
    ensures |r| == Available(|raw|, s) <= s.length
    ensures s.offset + s.length <= |raw| ==> r == raw[s.offset..s.offset + s.length]
  {
    Slice(raw, s.offset, s.offset + s.length)
  }

  /** The chunks of a segment from position i on. */
  function ChunksFrom(s: Segment, data: seq<byte>, size: nat, i: nat): seq<Chunk>
    requires size > 0
    decreases s.length - i
  {
    if i >= s.length then [] else [Chunk(s.addr + i, Slice(data, i, i + size))] + ChunksFrom(s, data, size, i + size)
  }

  /** The inner loop of parse_chunks_cbor. */
  method SplitSegment(s: Segment, raw: seq<byte>, size: nat) returns (chunks: seq<Chunk>)
    requires size > 0
    ensures chunks == ChunksFrom(s, SegmentData(raw, s), size, 0)
  {
    var data := SegmentData(raw, s);
    ghost var all := ChunksFrom(s, data, size, 0);
    chunks := [];
    var i := 0;
    while i < s.length
      invariant chunks + ChunksFrom(s, data, size, i) == all
      decreases s.length - i
    {
      NextChunk(s, data, size, i, chunks);
      chunks := chunks + [Chunk(s.addr + i, Slice(data, i, i + size))];
      i := i + size;
    }
    assert ChunksFrom(s, data, size, i) == [] && chunks + [] == chunks;
  }

  lemma NextChunk(s: Segment, data: seq<byte>, size: nat, i: nat, done: seq<Chunk>)
    requires size > 0 && i < s.length
    ensures done + ChunksFrom(s, data, size, i)
         == done + [Chunk(s.addr + i, Slice(data, i, i + size))] + ChunksFrom(s, data, size, i + size)
  {
    var first, rest := [Chunk(s.addr + i, Slice(data, i, i + size))], ChunksFrom(s, data, size, i + size);
    assert done + (first + rest) == done + first + rest;
  }

  /** The memory holds every chunk. */
  ghost predicate AllHeld(f: Flash, chunks: seq<Chunk>)
  {
    chunks == [] || (Holds(f, chunks[0].addr, chunks[0].data) && AllHeld(f, chunks[1..]))
  }

  lemma {:induction false} AllHeldParts(f: Flash, a: seq<Chunk>, b: seq<Chunk>)
    ensures AllHeld(f, a + b) <==> AllHeld(f, a) && AllHeld(f, b)
  {
    if a == [] {
      assert a + b == b;
    } else {
      AllHeldParts(f, a[1..], b);
      assert (a + b)[1..] == a[1..] + b;
    }
  }

  /** Changes elsewhere leave chunks in place. */
  lemma {:induction false} AllHeldStays(f: Flash, g: Flash, chunks: seq<Chunk>, lo: nat, hi: nat)
    requires AllHeld(f, chunks) && SameOutside(f, g, lo, hi)
    requires forall i :: 0 <= i < |chunks| ==> chunks[i].addr + |chunks[i].data| <= lo || hi <= chunks[i].addr
    ensures AllHeld(g, chunks)
  {
    if chunks == [] {
    } else {
      HoldsStays(f, g, chunks[0].addr, chunks[0].data, lo, hi);
      AllHeldStays(f, g, chunks[1..], lo, hi);
    }
  }

  lemma SliceInTwo(data: seq<byte>, i: nat, j: nat, k: nat)
    requires i <= j && |data| <= k
    ensures Slice(data, i, j) + Slice(data, j, k) == Slice(data, i, k)
  {
  }

  /** The memory holds data[lo..hi] where it belongs when data start at addr. */
  ghost predicate HoldsPart(f: Flash, addr: nat, data: seq<byte>, lo: nat, hi: nat)
  {
    forall a: nat :: addr + lo <= a < addr + hi && a < addr + |data| ==> a in f && f[a] == data[a - addr]
  }

  lemma PartIsSlice(f: Flash, addr: nat, data: seq<byte>, lo: nat, hi: nat)
    ensures HoldsPart(f, addr, data, lo, hi) <==> Holds(f, addr + lo, Slice(data, lo, hi))
  {
  }

  lemma PartInTwo(f: Flash, addr: nat, data: seq<byte>, lo: nat, mid: nat, hi: nat)
    requires lo <= mid && |data| <= hi
    ensures HoldsPart(f, addr, data, lo, hi) <==> HoldsPart(f, addr, data, lo, mid) && HoldsPart(f, addr, data, mid, hi)
  {
  }

  /** The first chunk and the others. */
  lemma ChunksStep(s: Segment, data: seq<byte>, size: nat, i: nat)
    requires size > 0 && i < s.length
    ensures var c := ChunksFrom(s, data, size, i);
      && c != [] && c[0] == Chunk(s.addr + i, Slice(data, i, i + size))
      && c[1..] == ChunksFrom(s, data, size, i + size)
  {
  }

  lemma FirstChunkHeld(f: Flash, s: Segment, data: seq<byte>, size: nat, i: nat)
    requires size > 0 && i < s.length
    ensures AllHeld(f, ChunksFrom(s, data, size, i))
       <==> HoldsPart(f, s.addr, data, i, i + size) && AllHeld(f, ChunksFrom(s, data, size, i + size))
  {
    ChunksStep(s, data, size, i);
    AllHeldFirst(f, ChunksFrom(s, data, size, i), Chunk(s.addr + i, Slice(data, i, i + size)),
                 ChunksFrom(s, data, size, i + size));
    PartIsSlice(f, s.addr, data, i, i + size);
  }

  lemma AllHeldFirst(f: Flash, chunks: seq<Chunk>, first: Chunk, rest: seq<Chunk>)
    requires chunks != [] && chunks[0] == first && chunks[1..] == rest
    ensures AllHeld(f, chunks) <==> Holds(f, first.addr, first.data) && AllHeld(f, rest)
  {
  }

  /** The chunks are the segment, cut up: a memory holds all of them exactly if it holds the
      segment. */
  lemma {:induction false} ChunksCoverSegment(f: Flash, s: Segment, data: seq<byte>, size: nat, i: nat)
    requires size > 0 && |data| <= s.length
    ensures AllHeld(f, ChunksFrom(s, data, size, i)) <==> HoldsPart(f, s.addr, data, i, s.length)
    decreases s.length - i
  {
    if i >= s.length {
    } else {
      FirstChunkHeld(f, s, data, size, i);
      PartInTwo(f, s.addr, data, i, i + size, s.length);
      ChunksCoverSegment(f, s, data, size, i + size);
    }
  }

  /** The chunks of a segment from i on lie between position i and the end, one after the other. */
  lemma {:induction false} ChunksInOrder(s: Segment, data: seq<byte>, size: nat, i: nat)
    requires size > 0 && |data| <= s.length
    ensures var c := ChunksFrom(s, data, size, i);
      && DisjointChunks(c)
      && forall k :: 0 <= k < |c| ==> s.addr + i <= c[k].addr && c[k].addr + |c[k].data| <= s.addr + s.length
    decreases s.length - i
  {
    if i >= s.length {
    } else {
      ChunksInOrder(s, data, size, i + size);
      ChunksStep(s, data, size, i);
      var c := ChunksFrom(s, data, size, i);
      assert forall k :: 1 <= k < |c| ==> c[k] == c[1..][k - 1];
    }
  }

  function Joined(chunks: seq<Chunk>): seq<byte>
  {
    if chunks == [] then [] else chunks[0].data + Joined(chunks[1..])
  }

  /** The chunks of a segment, joined, are the segment. */
  lemma {:induction false} ChunksJoin(s: Segment, data: seq<byte>, size: nat, i: nat)
    requires size > 0 && |data| <= s.length
    ensures Joined(ChunksFrom(s, data, size, i)) == Slice(data, i, s.length)
    decreases s.length - i
  {
    if i >= s.length {
    } else {
      ChunksJoin(s, data, size, i + size);
      ChunksStep(s, data, size, i);
      SliceInTwo(data, i, i + size, s.length);
    }
  }

  predicate NoneEmpty(chunks: seq<Chunk>)
  {
    forall k :: 0 <= k < |chunks| ==> chunks[k].data != []
  }

  predicate AllSmall(chunks: seq<Chunk>, size: nat)
  {
    forall k :: 0 <= k < |chunks| ==> |chunks[k].data| <= size
  }

  /** No chunk is too long, and none is empty exactly if the file reaches them all. */
  predicate Sized(chunks: seq<Chunk>, size: nat, reached: bool)
  {
    AllSmall(chunks, size) && (NoneEmpty(chunks) <==> reached)
  }

  /** The file has at least one byte for the last chunk of the segment. */
  predicate Reached(n: nat, s: Segment, size: nat)
    requires size > 0
  {
    s.length == 0 || LastStart(s.length, size, 0) < Available(n, s)
  }

  /** Where the last of the chunks from position i on starts. */
  function LastStart(length: nat, size: nat, i: nat): (last: nat)
    requires size > 0 && i < length
    ensures i <= last < length <= last + size
    decreases length - i
  {
    if i + size >= length then i else LastStart(length, size, i + size)
  }

  /** For position 0 it is the last multiple of the size before the end. */
  lemma {:induction false} LastStartIs(length: nat, size: nat, i: nat, n: nat)
    requires size > 0 && i < length && i == n * size
    ensures LastStart(length, size, i) == (length - 1) / size * size
    decreases length - i
  {
    if i + size >= length {
      Quotient(length - 1, size, n);
    } else {
      assert (n + 1) * size == i + size;
      LastStartIs(length, size, i + size, n + 1);
    }
  }

  lemma Quotient(x: nat, size: nat, n: nat)
    requires size > 0 && n * size <= x < n * size + size
    ensures x / size * size == n * size
  {
    var q := x / size;
    assert x == q * size + x % size;
    if q < n {
      MulMonotone(q + 1, n, size);
    } else if q > n {
      MulMonotone(n + 1, q, size);
    }
  }

  lemma MulMonotone(a: nat, b: nat, c: nat)
    requires a <= b
    ensures a * c <= b * c
  {
    assert (b - a) * c >= 0;
  }

  /** No chunk is longer than the size, and none is empty exactly if the data reach the last one. */
  lemma {:induction false} ChunkSizes(s: Segment, data: seq<byte>, size: nat, i: nat)
    requires size > 0 && |data| <= s.length
    ensures AllSmall(ChunksFrom(s, data, size, i), size)
    ensures NoneEmpty(ChunksFrom(s, data, size, i)) <==> i >= s.length || LastStart(s.length, size, i) < |data|
    decreases s.length - i
  {
    if i >= s.length {
    } else {
      ChunkSizes(s, data, size, i + size);
      ChunksStep(s, data, size, i);
      NotEmptyStep(ChunksFrom(s, data, size, i), size);
      assert Slice(data, i, i + size) == [] <==> |data| <= i;
    }
  }

  lemma NotEmptyStep(chunks: seq<Chunk>, size: nat)
    requires chunks != []
    ensures NoneEmpty(chunks) <==> chunks[0].data != [] && NoneEmpty(chunks[1..])
    ensures AllSmall(chunks, size) <==> |chunks[0].data| <= size && AllSmall(chunks[1..], size)
  {
    assert forall k :: 1 <= k < |chunks| ==> chunks[k] == chunks[1..][k - 1];
  }

  // ---------------------------------------------------------------------------
  // Segments and their chunks
  // ---------------------------------------------------------------------------

  predicate Apart(a: nat, m: nat, b: nat, n: nat)
  {
    a + m <= b || b + n <= a
  }

  predicate DisjointChunks(chunks: seq<Chunk>)
  {
    forall i, j :: 0 <= i < j < |chunks| ==>
      Apart(chunks[i].addr, |chunks[i].data|, chunks[j].addr, |chunks[j].data|)
  }

  predicate InChunks(a: nat, chunks: seq<Chunk>)
  {
    exists i :: 0 <= i < |chunks| && chunks[i].addr <= a < chunks[i].addr + |chunks[i].data|
  }

  /** The firmware segments are all but the first. Their address ranges do not overlap. */
  predicate DisjointFirmware(segments: seq<Segment>)
  {
    forall i, j :: 1 <= i < j < |segments| ==>
      Apart(segments[i].addr, segments[i].length, segments[j].addr, segments[j].length)
  }

  predicate InFirmware(a: nat, segments: seq<Segment>)
  {
    exists i :: 1 <= i < |segments| && segments[i].addr <= a < segments[i].addr + segments[i].length
  }

  /** The memory holds the firmware segments before the n-th as the file has them. */
  ghost predicate FirmwareHeld(f: Flash, raw: seq<byte>, segments: seq<Segment>, n: nat)
    requires n <= |segments|
  {
    n <= 1 || (FirmwareHeld(f, raw, segments, n - 1)
               && Holds(f, segments[n - 1].addr, SegmentData(raw, segments[n - 1])))
  }

  lemma {:induction false} EverySegmentHeld(f: Flash, raw: seq<byte>, segments: seq<Segment>, n: nat, i: nat)
    requires 1 <= i < n <= |segments| && FirmwareHeld(f, raw, segments, n)
    ensures Holds(f, segments[i].addr, SegmentData(raw, segments[i]))
  {
    if i == n - 1 {
    } else {
      EverySegmentHeld(f, raw, segments, n - 1, i);
    }
  }

  /** A segment together with its chunks. */
  datatype Cutting = Cutting(segment: Segment, data: seq<byte>, size: nat, chunks: seq<Chunk>)

  predicate IsCut(c: Cutting)
  {
    c.size > 0 && |c.data| <= c.segment.length && c.chunks == ChunksFrom(c.segment, c.data, c.size, 0)
  }

  type Cut = c: Cutting | IsCut(c) witness Cutting(Segment(0, 0, 0), [], 1, [])

  /** A memory holds all chunks of a segment exactly if it holds the segment. */
  lemma CutCovers(f: Flash, c: Cut)
    ensures AllHeld(f, c.chunks) <==> Holds(f, c.segment.addr, c.data)
  {
    ChunksCoverSegment(f, c.segment, c.data, c.size, 0);
  }

  lemma CutInOrder(c: Cut)
    ensures DisjointChunks(c.chunks)
    ensures forall k :: 0 <= k < |c.chunks| ==> Within(c.chunks[k], c.segment)
  {
    ChunksInOrder(c.segment, c.data, c.size, 0);
  }

  lemma CutJoins(c: Cut)
    ensures Joined(c.chunks) == c.data
  {
    ChunksJoin(c.segment, c.data, c.size, 0);
    assert Slice(c.data, 0, c.segment.length) == c.data;
  }

  lemma CutSizes(raw: seq<byte>, c: Cut)
    requires c.data == SegmentData(raw, c.segment)
    ensures Sized(c.chunks, c.size, Reached(|raw|, c.segment, c.size))
  {
    ChunkSizes(c.segment, c.data, c.size, 0);
  }

  predicate CutTo(cuts: seq<Cut>, size: nat)
  {
    forall k :: 0 <= k < |cuts| ==> cuts[k].size == size
  }

  /** The cuts are those of the segments. */
  predicate CutsOf(cuts: seq<Cut>, raw: seq<byte>, segments: seq<Segment>)
  {
    && |cuts| <= |segments|
    && forall k :: 0 <= k < |cuts| ==> cuts[k].segment == segments[k] && cuts[k].data == SegmentData(raw, segments[k])
  }

  /** The chunks of the firmware segments before the n-th, in order. */
  function FwChunks(cuts: seq<Cut>, n: nat): seq<Chunk>
    requires n <= |cuts|
  {
    if n <= 1 then [] else FwChunks(cuts, n - 1) + cuts[n - 1].chunks
  }

  lemma {:induction false} FwChunksPrefix(a: seq<Cut>, b: seq<Cut>, n: nat)
    requires n <= |a| <= |b| && forall k :: 0 <= k < n ==> a[k] == b[k]
    ensures FwChunks(a, n) == FwChunks(b, n)
  {
    if n <= 1 {
    } else {
      FwChunksPrefix(a, b, n - 1);
    }
  }

  /** The chunk lies in the segment. */
  predicate Within(c: Chunk, s: Segment)
  {
    s.addr <= c.addr && c.addr + |c.data| <= s.addr + s.length
  }

  /** The chunk lies in one of the firmware segments before the n-th. */
  predicate Inside(c: Chunk, segments: seq<Segment>, n: nat)
    requires n <= |segments|
  {
    exists i :: 1 <= i < n && Within(c, segments[i])
  }

  predicate AllInside(chunks: seq<Chunk>, segments: seq<Segment>, n: nat)
    requires n <= |segments|
  {
    forall k :: 0 <= k < |chunks| ==> Inside(chunks[k], segments, n)
  }

  /** Chunks of disjoint segments are disjoint, and lie in the segments. */
  lemma {:induction false} FwChunksDisjoint(cuts: seq<Cut>, raw: seq<byte>, segments: seq<Segment>, n: nat)
    requires CutsOf(cuts, raw, segments) && n <= |cuts| && DisjointFirmware(segments)
    ensures DisjointChunks(FwChunks(cuts, n)) && AllInside(FwChunks(cuts, n), segments, n)
  {
    if n <= 1 {
    } else {
      FwChunksDisjoint(cuts, raw, segments, n - 1);
      CutInOrder(cuts[n - 1]);
      MoreDisjoint(FwChunks(cuts, n - 1), cuts[n - 1].chunks, segments, n);
    }
  }

  lemma MoreDisjoint(init: seq<Chunk>, more: seq<Chunk>, segments: seq<Segment>, n: nat)
    requires 1 < n <= |segments| && DisjointFirmware(segments)
    requires DisjointChunks(init) && AllInside(init, segments, n - 1) && DisjointChunks(more)
    requires forall k :: 0 <= k < |more| ==> Within(more[k], segments[n - 1])
    ensures DisjointChunks(init + more) && AllInside(init + more, segments, n)
  {
    var s := segments[n - 1];
    forall k | 0 <= k < |init|
      ensures Inside(init[k], segments, n) && Apart(init[k].addr, |init[k].data|, s.addr, s.length)
    {
      assert Inside(init[k], segments, n - 1);
    }
    assert forall k :: 0 <= k < |more| ==> Inside(more[k], segments, n);
  }

  /** A memory holds all chunks exactly if it holds all firmware segments. */
  lemma {:induction false} ChunksCoverSegments(f: Flash, cuts: seq<Cut>, raw: seq<byte>, segments: seq<Segment>, n: nat)
    requires CutsOf(cuts, raw, segments) && n <= |cuts|
    ensures AllHeld(f, FwChunks(cuts, n)) <==> FirmwareHeld(f, raw, segments, n)
  {
    if n <= 1 {
    } else {
      ChunksCoverSegments(f, cuts, raw, segments, n - 1);
      AllHeldParts(f, FwChunks(cuts, n - 1), cuts[n - 1].chunks);
      CutCovers(f, cuts[n - 1]);
    }
  }

  /** The firmware segments before the n-th have data for all their chunks. */
  predicate FwReached(len: nat, segments: seq<Segment>, size: nat, n: nat)
    requires size > 0 && n <= |segments|
  {
    forall i :: 1 <= i < n ==> Reached(len, segments[i], size)
  }

  predicate FwTrue(reached: seq<bool>, n: nat)
    requires n <= |reached|
  {
    n <= 1 || (FwTrue(reached, n - 1) && reached[n - 1])
  }

  lemma {:induction false} FwTrueIs(reached: seq<bool>, n: nat)
    requires n <= |reached|
    ensures FwTrue(reached, n) <==> forall i :: 1 <= i < n ==> reached[i]
  {
    if n <= 1 {
    } else {
      FwTrueIs(reached, n - 1);
    }
  }

  /** The chunks of all firmware segments together. `reached` says which segments are reached. */
  lemma {:induction false} FwSizes(cuts: seq<Cut>, size: nat, reached: seq<bool>, n: nat)
    requires n <= |cuts| == |reached|
    requires forall k :: 0 <= k < |cuts| ==> Sized(cuts[k].chunks, size, reached[k])
    ensures Sized(FwChunks(cuts, n), size, FwTrue(reached, n))
  {
    if n <= 1 {
    } else {
      FwSizes(cuts, size, reached, n - 1);
      PartsSized(FwChunks(cuts, n - 1), cuts[n - 1].chunks, size, FwTrue(reached, n - 1), reached[n - 1]);
    }
  }

  lemma FwSizesOf(cuts: seq<Cut>, raw: seq<byte>, segments: seq<Segment>, size: nat)
    requires size > 0 && CutsOf(cuts, raw, segments) && CutTo(cuts, size) && |cuts| == |segments|
    ensures Sized(FwChunks(cuts, |cuts|), size, FwReached(|raw|, segments, size, |segments|))
  {
    var reached := seq(|cuts|, k requires 0 <= k < |cuts| => Reached(|raw|, segments[k], size));
    forall k | 0 <= k < |cuts|
      ensures Sized(cuts[k].chunks, size, reached[k])
    {
      CutSizes(raw, cuts[k]);
    }
    FwSizes(cuts, size, reached, |cuts|);
    FwTrueIs(reached, |cuts|);
  }

  lemma PartsSized(a: seq<Chunk>, b: seq<Chunk>, size: nat, p: bool, q: bool)
    requires Sized(a, size, p) && Sized(b, size, q)
    ensures Sized(a + b, size, p && q)
  {
    assert forall k :: 0 <= k < |a| ==> (a + b)[k] == a[k];
    assert forall k :: 0 <= k < |b| ==> (a + b)[|a| + k] == b[k];
  }

  // ---------------------------------------------------------------------------
  // The whole update
  // ---------------------------------------------------------------------------

  /** Phase 2: every firmware chunk, each with its retries, until one fails for good. */
  method WriteChunks(d: Device, chunks: seq<Chunk>, ghost size: nat, retries: nat, tries: (nat, nat) -> Attempt)
    returns (ok: bool)
    requires d.segmentType == FirmwareSegment && d.Valid() && !d.inData && DisjointChunks(chunks)
    modifies d`addr, d`len, d`written, d`status, d`inData, d`missing, d`start, d`flash, d`staged
    ensures d.staged == old(d.staged)
    ensures ok ==> AllHeld(d.flash, chunks) && NoneEmpty(chunks)
    ensures NoneEmpty(chunks) && AllSmall(chunks, size) && AllRecover(tries, retries, size) ==> ok
    ensures forall a: nat :: !InChunks(a, chunks) ==> SameAt(old(d.flash), d.flash, a)
  {
    var k := 0;
    while k < |chunks|
      invariant 0 <= k <= |chunks| && d.staged == old(d.staged) && d.Valid() && !d.inData
      invariant AllHeld(d.flash, chunks[..k]) && forall i :: 0 <= i < k ==> chunks[i].data != []
      invariant forall a: nat :: !InChunks(a, chunks) ==> SameAt(old(d.flash), d.flash, a)
    {
      ghost var was := d.flash;
      var c := chunks[k];
      var now: nat := k;
      ok := WriteWithRetries(d, c.addr, c.data, retries, (j: nat) => tries(now, j));
      if AllRecover(tries, retries, size) && |c.data| <= size {
        RecoversHere((j: nat) => tries(now, j), tries, k, retries, size, |c.data|);
      }
      ChunkDone(old(d.flash), was, d.flash, chunks, k);
      if !ok {
        return;
      }
      assert chunks[..k + 1] == chunks[..k] + [c];
      AllHeldParts(d.flash, chunks[..k], [c]);
      k := k + 1;
    }
    assert chunks[..k] == chunks;
    ok := true;
  }

  /** For every chunk some try works, and those before it are clean. */
  ghost predicate AllRecover(tries: (nat, nat) -> Attempt, retries: nat, size: nat)
  {
    forall k: nat :: RecoversAt(tries, k, retries, size)
  }

  ghost predicate RecoversAt(tries: (nat, nat) -> Attempt, k: nat, retries: nat, size: nat)
  {
    exists j: nat :: j < retries && Works(tries(k, j), size) && forall i: nat :: i < j ==> Clean(tries(k, i), size)
  }

  lemma RecoversHere(here: nat -> Attempt, tries: (nat, nat) -> Attempt, k: nat, retries: nat, size: nat, n: nat)
    requires RecoversAt(tries, k, retries, size) && n <= size && forall j: nat :: here(j) == tries(k, j)
    ensures Recovers(here, retries, n)
  {
    var j: nat :| j < retries && Works(tries(k, j), size) && forall i: nat :: i < j ==> Clean(tries(k, i), size);
    assert here(j) == tries(k, j);
    assert WorksAt(here, j, n);
  }

  /** What was written before chunk k stays, and so does what belongs to no chunk. */
  lemma ChunkDone(start: Flash, was: Flash, now: Flash, chunks: seq<Chunk>, k: nat)
    requires k < |chunks| && DisjointChunks(chunks) && AllHeld(was, chunks[..k])
    requires SameOutside(was, now, chunks[k].addr, chunks[k].addr + |chunks[k].data|)
    requires forall a: nat :: !InChunks(a, chunks) ==> SameAt(start, was, a)
    ensures AllHeld(now, chunks[..k])
    ensures forall a: nat :: !InChunks(a, chunks) ==> SameAt(start, now, a)
  {
    forall i | 0 <= i < k
      ensures chunks[i].addr + |chunks[i].data| <= chunks[k].addr || chunks[k].addr + |chunks[k].data| <= chunks[i].addr
    {
      assert Apart(chunks[i].addr, |chunks[i].data|, chunks[k].addr, |chunks[k].data|);
    }
    AllHeldStays(was, now, chunks[..k], chunks[k].addr, chunks[k].addr + |chunks[k].data|);
    forall a: nat | !InChunks(a, chunks)
      ensures SameAt(start, now, a)
    {
      assert SameAt(start, was, a) && SameAt(was, now, a);
    }
  }

  /** A segment list as the manifest has it: address and length; the data follow each other in the
      file from `blob` on. */
  type Manifest = seq<(nat, nat)>

  /** Where the data of segment i start in the file. */
  function Offset(flat: Manifest, blob: nat, i: nat): nat
    requires i <= |flat|
  {
    if i == 0 then blob else Offset(flat, blob, i - 1) + flat[i - 1].1
  }

  function SegmentAt(flat: Manifest, blob: nat, i: nat): Segment
    requires i < |flat|
  {
    Segment(flat[i].0, flat[i].1, Offset(flat, blob, i))
  }

  /** The first loop of parse_chunks_cbor. */
  method BuildSegments(flat: Manifest, blob: nat) returns (segments: seq<Segment>)
    ensures FromManifest(flat, blob, segments)
  {
    segments := [];
    var offset := blob;
    var i := 0;
    while i < |flat|
      invariant 0 <= i == |segments| <= |flat| && offset == Offset(flat, blob, i)
      invariant forall k :: 0 <= k < i ==> segments[k] == SegmentAt(flat, blob, k)
    {
      var s := Segment(flat[i].0, flat[i].1, offset);
      assert s == SegmentAt(flat, blob, i);
      segments := segments + [s];
      offset, i := offset + flat[i].1, i + 1;
    }
  }

  /** The chunks that parse_chunks_cbor returns: joined, the bootloader chunks are the first segment;
      and a memory holds all firmware chunks exactly if it holds all other segments. */
  method SplitAll(raw: seq<byte>, segments: seq<Segment>, size: nat)
    returns (boot: seq<Chunk>, fw: seq<Chunk>, ghost cuts: seq<Cut>)
    requires size > 0
    ensures Joined(boot) == if segments == [] then [] else SegmentData(raw, segments[0])
    ensures forall f :: AllHeld(f, fw) <==> FirmwareHeld(f, raw, segments, |segments|)
    ensures |cuts| == |segments| && CutsOf(cuts, raw, segments) && fw == FwChunks(cuts, |cuts|)
    ensures Sized(boot, size, segments == [] || Reached(|raw|, segments[0], size))
    ensures Sized(fw, size, FwReached(|raw|, segments, size, |segments|))
  {
    boot, fw, cuts := CutAll(raw, segments, size);
    if segments != [] {
      CutJoins(cuts[0]);
      CutSizes(raw, cuts[0]);
    }
    FwSizesOf(cuts, raw, segments, size);
    forall f
      ensures AllHeld(f, fw) <==> FirmwareHeld(f, raw, segments, |segments|)
    {
      ChunksCoverSegments(f, cuts, raw, segments, |cuts|);
    }
  }

  /** The second loop of parse_chunks_cbor: the first segment is the bootloader. */
  method CutAll(raw: seq<byte>, segments: seq<Segment>, size: nat)
    returns (boot: seq<Chunk>, fw: seq<Chunk>, ghost cuts: seq<Cut>)
    requires size > 0
    ensures |cuts| == |segments| && CutsOf(cuts, raw, segments) && CutTo(cuts, size)
    ensures boot == (if segments == [] then [] else cuts[0].chunks) && fw == FwChunks(cuts, |cuts|)
  {
    boot, fw, cuts := [], [], [];
    var i := 0;
    while i < |segments|
      invariant 0 <= i == |cuts| <= |segments| && CutsOf(cuts, raw, segments) && CutTo(cuts, size)
      invariant boot == (if i == 0 then [] else cuts[0].chunks) && fw == FwChunks(cuts, i)
    {
      var chunks, c := CutSegment(segments[i], raw, size);
      if i == 0 {
        boot := chunks;
      } else {
        fw := fw + chunks;
      }
      cuts := OneMore(cuts, c, raw, segments, size);
      i := i + 1;
    }
  }

  lemma OneMore(cuts: seq<Cut>, c: Cut, raw: seq<byte>, segments: seq<Segment>, size: nat) returns (r: seq<Cut>)
    requires CutsOf(cuts, raw, segments) && |cuts| < |segments|
    requires c.segment == segments[|cuts|] && c.data == SegmentData(raw, c.segment)
    requires CutTo(cuts, size) && c.size == size
    ensures |r| == |cuts| + 1 && CutsOf(r, raw, segments) && CutTo(r, size)
    ensures r[0].chunks == if cuts == [] then c.chunks else cuts[0].chunks
    ensures FwChunks(r, |r|) == if cuts == [] then [] else FwChunks(cuts, |cuts|) + c.chunks
  {
    r := cuts + [c];
    CutsMore(cuts, c, raw, segments);
    FwChunksMore(cuts, c);
  }

  lemma CutsMore(cuts: seq<Cut>, c: Cut, raw: seq<byte>, segments: seq<Segment>)
    requires CutsOf(cuts, raw, segments) && |cuts| < |segments|
    requires c.segment == segments[|cuts|] && c.data == SegmentData(raw, c.segment)
    ensures CutsOf(cuts + [c], raw, segments)
  {
  }

  lemma FwChunksMore(cuts: seq<Cut>, c: Cut)
    ensures FwChunks(cuts + [c], |cuts| + 1) == if cuts == [] then [] else FwChunks(cuts, |cuts|) + c.chunks
  {
    var more: seq<Cut> := cuts + [c];
    FwChunksPrefix(cuts, more, |cuts|);
    assert more[|cuts|] == c;
  }

  method CutSegment(s: Segment, raw: seq<byte>, size: nat) returns (chunks: seq<Chunk>, ghost c: Cut)
    requires size > 0
    ensures c.segment == s && c.data == SegmentData(raw, s) && c.chunks == chunks && c.size == size
  {
    chunks := SplitSegment(s, raw, size);
    c := Cutting(s, SegmentData(raw, s), size, chunks);
  }

  /** parse_chunks_bin: the file is one segment at address 0, so ChunksCoverSegment and ChunksJoin
      apply to it as well. */
  method ParseChunksBin(data: seq<byte>, size: nat) returns (chunks: seq<Chunk>)
    requires size > 0
    ensures chunks == ChunksFrom(Segment(0, |data|, 0), data, size, 0)
  {
    ghost var whole := Segment(0, |data|, 0);
    ghost var all := ChunksFrom(whole, data, size, 0);
    chunks := [];
    var offset := 0;
    var chunk := Slice(data, 0, size);
    while chunk != []
      invariant offset <= |data| && chunk == Slice(data, offset, offset + size)
      invariant chunks + ChunksFrom(whole, data, size, offset) == all
      decreases |data| - offset
    {
      ReadOn(whole, data, size, offset, chunks);
      chunks := chunks + [Chunk(offset, chunk)];
      offset := offset + |chunk|;
      chunk := Slice(data, offset, offset + size);
    }
    assert offset == |data| && chunks + [] == chunks;
  }

  /** A short read is the last one. */
  lemma ReadOn(s: Segment, data: seq<byte>, size: nat, i: nat, done: seq<Chunk>)
    requires size > 0 && i < |data| == s.length
    ensures var chunk := Slice(data, i, i + size);
      && 0 < |chunk| && i + |chunk| <= |data|
      && done + ChunksFrom(s, data, size, i) ==
         done + [Chunk(s.addr + i, chunk)] + ChunksFrom(s, data, size, i + |chunk|)
  {
    if i + size > |data| {
      assert ChunksFrom(s, data, size, |data|) == [] == ChunksFrom(s, data, size, i + size);
    }
    NextChunk(s, data, size, i, done);
  }

  /** Phase 1: the bootloader chunks, without retries. */
  method WriteBoot(d: Device, chunks: seq<Chunk>, ghost size: nat, tries: nat -> Attempt) returns (ok: bool)
    requires d.segmentType == BootloaderSegment && d.Valid() && !d.inData
    modifies d`addr, d`len, d`written, d`status, d`inData, d`missing, d`start, d`flash, d`staged
    ensures d.flash == old(d.flash)
    ensures ok ==> d.Valid() && !d.inData && d.staged == old(d.staged) + Joined(chunks) && NoneEmpty(chunks)
    ensures NoneEmpty(chunks) && AllSmall(chunks, size) && AllWork(tries, size) ==> ok
  {
    var k := 0;
    while k < |chunks|
      invariant 0 <= k <= |chunks| && d.flash == old(d.flash) && d.Valid() && !d.inData
      invariant d.staged + Joined(chunks[k..]) == old(d.staged) + Joined(chunks)
      invariant forall i :: 0 <= i < k ==> chunks[i].data != []
    {
      var c := chunks[k];
      ok := BootWrite(d, c.addr, c.data, tries(k));
      if !ok {
        return;
      }
      assert chunks[k..][1..] == chunks[k + 1..];
      k := k + 1;
    }
    ok := true;
  }

  ghost predicate AllWork(tries: nat -> Attempt, size: nat)
  {
    forall k: nat :: Works(tries(k), size)
  }

  /** Nothing goes wrong but what retries make good. */
  ghost predicate LinkWorks(size: nat, retries: nat, ready: bool, boot: nat -> Attempt, update: int, heard: bool,
                            tries: (nat, nat) -> Attempt)
  {
    ready && AllWork(boot, size) && update == 0 && heard && AllRecover(tries, retries, size)
  }

  predicate AllReached(len: nat, segments: seq<Segment>, size: nat)
    requires size > 0
  {
    forall i :: 0 <= i < |segments| ==> Reached(len, segments[i], size)
  }

  lemma ReachedParts(len: nat, segments: seq<Segment>, size: nat)
    requires size > 0
    ensures AllReached(len, segments, size) <==>
            (segments == [] || Reached(len, segments[0], size)) && FwReached(len, segments, size, |segments|)
  {
  }

  /** do_dfu_full up to the last apply: for every segment list, chunk size, fragmentation and
      pattern of failures. If it gets to the end, the bootloader was staged completely before any
      firmware was written, and the memory holds every firmware segment as the file has it; and on
      a link that works it gets there exactly if the file reaches into the last chunk of every
      segment. In
      every case nothing outside the firmware segments is touched, and nothing at all unless the
      bootloader was applied. */
  method DoDfuFull(d: Device, raw: seq<byte>, segments: seq<Segment>, size: nat, retries: nat,
                   ready: bool, boot: nat -> Attempt, update: int, heard: bool, tries: (nat, nat) -> Attempt)
    returns (ok: bool)
    requires size > 0 && DisjointFirmware(segments) && !d.inData
    modifies d
    ensures ok ==> d.segmentType == FirmwareSegment
    ensures ok && segments != [] ==> d.staged == SegmentData(raw, segments[0])
    ensures ok ==> FirmwareHeld(d.flash, raw, segments, |segments|)
    ensures forall a: nat :: !InFirmware(a, segments) ==> SameAt(old(d.flash), d.flash, a)
    ensures d.segmentType == BootloaderSegment ==> d.flash == old(d.flash)
    ensures ok ==> AllReached(|raw|, segments, size) && ready && heard && update == 0
    ensures LinkWorks(size, retries, ready, boot, update, heard, tries) ==> (ok <==> AllReached(|raw|, segments, size))
  {
    var bootChunks, fwChunks, cuts := SplitAll(raw, segments, size);
    ReachedParts(|raw|, segments, size);
    d.XdfuInit();
    if !ready {
      return false;
    }
    ok := WriteBoot(d, bootChunks, size, boot);
    if !ok {
      return;
    }
    var urc := d.XdfuApply(update);
    if urc != 0 || !heard {
      return false;
    }
    ok := WriteFirmware(d, segments, raw, cuts, fwChunks, size, retries, tries);
  }

  /** The firmware phase, in terms of segments. */
  method WriteFirmware(d: Device, ghost segments: seq<Segment>, ghost raw: seq<byte>, ghost cuts: seq<Cut>,
                       chunks: seq<Chunk>, ghost size: nat, retries: nat, tries: (nat, nat) -> Attempt)
    returns (ok: bool)
    requires d.segmentType == FirmwareSegment && d.Valid() && !d.inData && DisjointFirmware(segments)
    requires |cuts| == |segments| && CutsOf(cuts, raw, segments) && chunks == FwChunks(cuts, |cuts|)
    requires forall f :: AllHeld(f, chunks) <==> FirmwareHeld(f, raw, segments, |segments|)
    modifies d`addr, d`len, d`written, d`status, d`inData, d`missing, d`start, d`flash, d`staged
    ensures d.staged == old(d.staged)
    ensures ok ==> FirmwareHeld(d.flash, raw, segments, |segments|) && NoneEmpty(chunks)
    ensures NoneEmpty(chunks) && AllSmall(chunks, size) && AllRecover(tries, retries, size) ==> ok
    ensures forall a: nat :: !InFirmware(a, segments) ==> SameAt(old(d.flash), d.flash, a)
  {
    FwChunksDisjoint(cuts, raw, segments, |cuts|);
    ok := WriteChunks(d, chunks, size, retries, tries);
    forall a: nat | !InFirmware(a, segments)
      ensures SameAt(old(d.flash), d.flash, a)
    {
      NotInChunks(a, chunks, segments);
    }
  }

  lemma NotInChunks(a: nat, chunks: seq<Chunk>, segments: seq<Segment>)
    requires !InFirmware(a, segments) && AllInside(chunks, segments, |segments|)
    ensures !InChunks(a, chunks)
  {
    forall k | 0 <= k < |chunks|
      ensures !(chunks[k].addr <= a < chunks[k].addr + |chunks[k].data|)
    {
      assert Inside(chunks[k], segments, |segments|);
      var i :| 1 <= i < |segments| && Within(chunks[k], segments[i]);
      assert !(segments[i].addr <= a < segments[i].addr + segments[i].length);
    }
  }

  // ---------------------------------------------------------------------------
  // The update of a file
  // ---------------------------------------------------------------------------

  predicate InManifest(a: nat, flat: Manifest)
  {
    exists i :: 1 <= i < |flat| && flat[i].0 <= a < flat[i].0 + flat[i].1
  }

  predicate DisjointManifest(flat: Manifest)
  {
    forall i, j :: 1 <= i < j < |flat| ==> Apart(flat[i].0, flat[i].1, flat[j].0, flat[j].1)
  }

  /** The memory holds every firmware segment of the manifest at its address. */
  ghost predicate ManifestHeld(f: Flash, raw: seq<byte>, flat: Manifest, blob: nat)
  {
    forall i :: 1 <= i < |flat| ==> Holds(f, flat[i].0, SegmentData(raw, SegmentAt(flat, blob, i)))
  }

  /** Every segment of the manifest has data for all its chunks. */
  predicate ManifestReached(len: nat, flat: Manifest, blob: nat, size: nat)
    requires size > 0
  {
    forall i :: 0 <= i < |flat| ==> Reached(len, SegmentAt(flat, blob, i), size)
  }

  /** Every segment is in the file at its full length. */
  predicate FullLength(len: nat, flat: Manifest, blob: nat)
  {
    forall i :: 0 <= i < |flat| ==> Available(len, SegmentAt(flat, blob, i)) == flat[i].1
  }

  lemma {:induction false} OffsetsGrow(flat: Manifest, blob: nat, i: nat, j: nat)
    requires i <= j <= |flat|
    ensures Offset(flat, blob, i) <= Offset(flat, blob, j)
  {
    if i < j {
      OffsetsGrow(flat, blob, i, j - 1);
    }
  }

  /** The last segment that has a length ends where all segments end. */
  lemma {:induction false} LastNonEmpty(flat: Manifest, blob: nat, n: nat) returns (i: nat)
    requires n <= |flat| && Offset(flat, blob, n) > blob
    ensures i < n && flat[i].1 > 0 && Offset(flat, blob, i) + flat[i].1 == Offset(flat, blob, n)
  {
    if flat[n - 1].1 > 0 {
      i := n - 1;
    } else {
      i := LastNonEmpty(flat, blob, n - 1);
    }
  }

  /** The segments have their full length exactly if the file is as long as the manifest says, or
      none of them has a length. */
  lemma {:induction false} FullLengthIff(len: nat, flat: Manifest, blob: nat)
    ensures FullLength(len, flat, blob)
       <==> Offset(flat, blob, |flat|) <= len || Offset(flat, blob, |flat|) == blob
  {
    var end := Offset(flat, blob, |flat|);
    OffsetsGrow(flat, blob, 0, |flat|);
    forall i | 0 <= i < |flat| && (end <= len || end == blob)
      ensures Available(len, SegmentAt(flat, blob, i)) == flat[i].1
    {
      OffsetsGrow(flat, blob, 0, i);
      OffsetsGrow(flat, blob, i + 1, |flat|);
    }
    if end > len && end > blob {
      var i := LastNonEmpty(flat, blob, |flat|);
      assert Available(len, SegmentAt(flat, blob, i)) < flat[i].1;
    }
  }

  /** Then they are the bytes from their offsets on. */
  lemma {:induction false} SegmentInFull(raw: seq<byte>, flat: Manifest, blob: nat, i: nat)
    requires Offset(flat, blob, |flat|) <= |raw| && i < |flat|
    ensures Offset(flat, blob, i) + flat[i].1 <= |raw|
    ensures SegmentData(raw, SegmentAt(flat, blob, i)) == raw[Offset(flat, blob, i)..Offset(flat, blob, i) + flat[i].1]
  {
    OffsetsGrow(flat, blob, i + 1, |flat|);
  }

  /** do_dfu_full from the decoded manifest on. */
  method DoDfuFile(d: Device, raw: seq<byte>, flat: Manifest, blob: nat, size: nat, retries: nat,
                   ready: bool, boot: nat -> Attempt, update: int, heard: bool, tries: (nat, nat) -> Attempt)
    returns (ok: bool)
    requires size > 0 && !d.inData && DisjointManifest(flat)
    modifies d
    ensures ok && flat != [] ==> d.staged == SegmentData(raw, SegmentAt(flat, blob, 0))
    ensures ok ==> ManifestHeld(d.flash, raw, flat, blob)
    ensures forall a: nat :: !InManifest(a, flat) ==> SameAt(old(d.flash), d.flash, a)
    ensures d.segmentType == BootloaderSegment ==> d.flash == old(d.flash)
    ensures ok ==> ManifestReached(|raw|, flat, blob, size)
    ensures LinkWorks(size, retries, ready, boot, update, heard, tries) ==>
              (ok <==> ManifestReached(|raw|, flat, blob, size))
    ensures Offset(flat, blob, |flat|) <= |raw| ==> FullLength(|raw|, flat, blob)
  {
    FullLengthIff(|raw|, flat, blob);
    var segments := BuildSegments(flat, blob);
    ManifestDisjoint(flat, blob, segments);
    ok := DoDfuFull(d, raw, segments, size, retries, ready, boot, update, heard, tries);
    if ok {
      HeldByManifest(d.flash, raw, flat, blob, segments);
    }
    forall a: nat | !InManifest(a, flat)
      ensures SameAt(old(d.flash), d.flash, a)
    {
      NotInManifest(a, flat, blob, segments);
    }
  }

  /** What BuildSegments promises. */
  predicate FromManifest(flat: Manifest, blob: nat, segments: seq<Segment>)
  {
    |segments| == |flat| && forall i :: 0 <= i < |flat| ==> segments[i] == SegmentAt(flat, blob, i)
  }

  lemma ManifestDisjoint(flat: Manifest, blob: nat, segments: seq<Segment>)
    requires FromManifest(flat, blob, segments) && DisjointManifest(flat)
    ensures DisjointFirmware(segments)
  {
    forall i, j | 1 <= i < j < |segments|
      ensures Apart(segments[i].addr, segments[i].length, segments[j].addr, segments[j].length)
    {
      assert Apart(flat[i].0, flat[i].1, flat[j].0, flat[j].1);
    }
  }

  lemma HeldByManifest(f: Flash, raw: seq<byte>, flat: Manifest, blob: nat, segments: seq<Segment>)
    requires FromManifest(flat, blob, segments) && FirmwareHeld(f, raw, segments, |segments|)
    ensures ManifestHeld(f, raw, flat, blob)
  {
    forall i | 1 <= i < |flat|
      ensures Holds(f, flat[i].0, SegmentData(raw, SegmentAt(flat, blob, i)))
    {
      EverySegmentHeld(f, raw, segments, |segments|, i);
    }
  }

  lemma NotInManifest(a: nat, flat: Manifest, blob: nat, segments: seq<Segment>)
    requires FromManifest(flat, blob, segments) && !InManifest(a, flat)
    ensures !InFirmware(a, segments)
  {
    forall i | 1 <= i < |segments|
      ensures !(segments[i].addr <= a < segments[i].addr + segments[i].length)
    {
      assert !(flat[i].0 <= a < flat[i].0 + flat[i].1);
    }
  }

  /** A file that ends in the middle of a chunk is taken for complete: of the four bytes for
      address 10 it has two. */
  method ShortFile(tries: nat -> Attempt) returns (d: Device, ok: bool)
    requires AllWork(tries, 4)
    ensures ok && d.staged == [1] && Holds(d.flash, 10, [2, 3])
    ensures !FullLength(3, [(0, 1), (10, 4)], 0)
  {
    var raw: seq<byte>, flat: Manifest := [1, 2, 3], [(0, 1), (10, 4)];
    d := new Device();
    assert Offset(flat, 0, 1) == 1;
    var first, second := SegmentAt(flat, 0, 0), SegmentAt(flat, 0, 1);
    assert SegmentData(raw, first) == [1] && SegmentData(raw, second) == [2, 3];
    assert ManifestReached(|raw|, flat, 0, 4);
    SameTries(tries, (k: nat, j: nat) => tries(k), 4);
    assert AllRecover((k: nat, j: nat) => tries(k), 1, 4);
    ok := DoDfuFile(d, raw, flat, 0, 4, 1, true, tries, 0, true, (k: nat, j: nat) => tries(k));
  }

  lemma SameTries(tries: nat -> Attempt, each: (nat, nat) -> Attempt, size: nat)
    requires AllWork(tries, size) && forall k: nat, j: nat :: each(k, j) == tries(k)
    ensures AllRecover(each, 1, size)
  {
    forall k: nat
      ensures RecoversAt(each, k, 1, size)
    {
      assert Works(each(k, 0), size);
    }
  }
}
