/** The upload: command phase, data phase and cancel exit of SendObject and SendPartialObject
    (src/mtp_operations/mtp_op_sendobject.c), over a scripted bulk endpoint. */
module SendObject {
  import opened Bytes
  import opened MtpHelpers
  import opened Options
  import CancelProtocol

  const HEADER_SIZE: nat := 12
  const MTP_RESPONSE_OK: u32 := 0x2001
  const MTP_RESPONSE_GENERAL_ERROR: u32 := 0x2002
  const MTP_RESPONSE_INVALID_OBJECT_HANDLE: u32 := 0x2009
  const MTP_RESPONSE_NO_RESPONSE: u32 := 0xFFFF
  const NO_HANDLE: u32 := 0xFFFF_FFFF

  /** One turn of the transfer loop: whether a Cancel arrived before its test of cancel_req, and what
      the read returned (None when it failed or was interrupted). */
  datatype Arrival = Arrival(cancelled: bool, transfer: Option<seq<u8>>)

  /** w lies in the file from offset o on, what was outside is as before, a gap is filled with zeros,
      and nothing follows; no bytes change nothing. */
  ghost predicate Lands(before: seq<u8>, o: nat, w: seq<u8>, after: seq<u8>) {
    if w == [] then after == before
    else
      && |after| == (if |before| < o + |w| then o + |w| else |before|)
      && after[o..o + |w|] == w
      && forall i :: 0 <= i < |after| && !(o <= i < o + |w|) ==> after[i] == if i < |before| then before[i] else 0
  }

  /** The file with w written at offset o, the gap before it filled with zeros. */
  function Overwrite(d: seq<u8>, o: nat, w: seq<u8>): (r: seq<u8>)
    ensures Lands(d, o, w, r)
  {
    if w == [] then d
    else
      var padded := if |d| < o + |w| then d + seq(o + |w| - |d|, _ => 0) else d;
      Splice(padded, o, w)
  }

  /** Writing two chunks one after the other is writing their concatenation. */
  lemma OverwriteAppend(d: seq<u8>, o: nat, x: seq<u8>, y: seq<u8>)
    ensures Overwrite(Overwrite(d, o, x), o + |x|, y) == Overwrite(d, o, x + y)
  {
    if x == [] {
      assert x + y == y;
    } else if y == [] {
      assert x + y == x;
    } else {
      var both := Overwrite(d, o, x + y);
      var steps := Overwrite(Overwrite(d, o, x), o + |x|, y);
      assert |both| == |steps|;
      assert forall i :: 0 <= i < |both| ==> both[i] == steps[i];
    }
  }

  class File {
    var data: seq<u8>
    var pos: nat

    /** The file is `base` with `written` put at `start`, and stands right behind it. */
    ghost predicate Holds(base: seq<u8>, start: nat, written: seq<u8>)
      reads this
    {
      data == Overwrite(base, start, written) && pos == start + |written|
    }

    method Write(w: seq<u8>, ghost base: seq<u8>, ghost start: nat, ghost written: seq<u8>)
      requires Holds(base, start, written)
      modifies this
      ensures Holds(base, start, written + w)
    {
      OverwriteAppend(base, start, written, w);
      data := Overwrite(data, pos, w);
      pos := pos + |w|;
    }
  }

  class Entry {
    var size: nat
    var isOpen: bool
    const file: File

    constructor (f: File)
      ensures file == f && !isOpen && size == 0
    {
      file := f;
      isOpen := false;
      size := 0;
    }
  }

  /** What the transfer loop does with its arrivals: the bytes it writes, the reads it makes and the
      flag it leaves. `go` says that the last transfer was a full buffer. */
  datatype Drained = Drained(written: seq<u8>, calls: nat, cancelled: bool)

  function Drain(arrivals: seq<Arrival>, max: nat, go: bool, cancelled: bool): Drained {
    if !go || cancelled then Drained([], 0, cancelled)
    else if arrivals == [] then Drained([], 1, false)
    else if arrivals[0].cancelled then Drained([], 0, true)
    else
      match arrivals[0].transfer
      case None => Drained([], 1, false)
      case Some(t) =>
        var rest := Drain(arrivals[1..], max, |t| == max, false);
        Drained(t + rest.written, 1 + rest.calls, rest.cancelled)
  }

  /** Where writing starts: a negative offset cannot be sought and leaves the position as it is. */
  function StartPosition(offset: int, wasOpen: bool, pos: nat): nat {
    if offset >= 0 then offset else if wasOpen then pos else 0
  }

  /** The data bytes of the first packet. */
  function FirstChunk(packet: seq<u8>): seq<u8> {
    if |packet| > HEADER_SIZE then packet[HEADER_SIZE..] else []
  }

  /** Whether the loop is entered after the first packet. */
  predicate GoesOn(packet: seq<u8>, max: nat, partial: bool, announced: int) {
    |packet| == max || (partial && announced - |FirstChunk(packet)| != 0)
  }

  function Upload(packet: seq<u8>, arrivals: seq<Arrival>, max: nat, partial: bool, announced: int, cancelled: bool): Drained {
    var d := Drain(arrivals, max, GoesOn(packet, max, partial, announced), cancelled);
    Drained(FirstChunk(packet) + d.written, d.calls, d.cancelled)
  }

  class MtpContext {
    var sendHandle: u32
    var sendOffset: int
    var sendSize: int
    var transferring: bool
    var cancelReq: int
    const rdMax: nat

    constructor (max: nat)
      ensures rdMax == max && cancelReq == 0 && !transferring && sendHandle == NO_HANDLE
    {
      rdMax := max;
      sendHandle, sendOffset, sendSize := NO_HANDLE, 0, 0;
      transferring, cancelReq := false, 0;
    }

    /** MTP_REQ_CANCEL, served while the I/O thread takes no step: the control thread's steps of the
        cancel protocol, run to the release of the mutex. The host now owes a poll. */
    method HandleCancel(ghost io: CancelProtocol.Io)
      modifies this`cancelReq
      ensures var s := CancelProtocol.Poll(CancelProtocol.Next(old(Protocol(io)), CancelProtocol.HostCancel), 3);
        Protocol(io) == s && s.ep0 == CancelProtocol.Free && s.mutex == CancelProtocol.Nobody && s.awaiting
      ensures cancelReq == if transferring then 2 else 0
    {
      ghost var start := CancelProtocol.Next(Protocol(io), CancelProtocol.HostCancel);
      CancelProtocol.PollUnfold(start, 3);
      if transferring {
        cancelReq := 2;
      } else {
        cancelReq := 0;
      }
    }

    ghost function Protocol(io: CancelProtocol.Io): CancelProtocol.State
      reads this
    {
      CancelProtocol.State(cancelReq, transferring, CancelProtocol.Nobody, io, CancelProtocol.Free, true, 0)
    }

    /** MTP_REQ_GET_DEVICE_STATUS, served while the I/O thread takes no step: the control thread's
        steps of the cancel protocol, run to the reply. */
    method HandleGetDeviceStatus(ghost io: CancelProtocol.Io) returns (ok: bool)
      requires 0 <= cancelReq <= 2
      modifies this`cancelReq
      ensures var s := CancelProtocol.Poll(CancelProtocol.Next(old(Protocol(io)), CancelProtocol.HostStatus), 6);
        cancelReq == s.cancelReq && ok == !s.awaiting && s.ep0 == CancelProtocol.Free
      ensures ok <==> old(cancelReq) != 2
      ensures cancelReq == if old(cancelReq) == 2 then 1 else if transferring then old(cancelReq) else 0
    {
      ghost var start := CancelProtocol.Next(Protocol(io), CancelProtocol.HostStatus);
      CancelProtocol.PollUnfold(start, 6);
      CancelProtocol.PollUnfold(CancelProtocol.Ep0Next(start), 5);
      if cancelReq != 2 {
        ok := true;
        if !transferring {
          cancelReq := 0;
        }
      } else {
        if cancelReq == 2 {
          cancelReq := 1;
        }
        ok := false;
      }
    }

    /** The parameters of a partial upload, kept for its data phase. */
    method CommandPhase(packet: array<u8>, partial: bool, access: Option<u32>) returns (response: u32)
      requires packet.Length >= HEADER_SIZE + 16
      modifies this
      ensures transferring == old(transferring) && cancelReq == old(cancelReq)
      ensures !partial ==> sendHandle == old(sendHandle) && sendOffset == old(sendOffset) && sendSize == old(sendSize)
      ensures partial ==> sendHandle == FromLE(packet[12..16]) && sendSize == FromLE(packet[24..28])
      ensures partial ==> sendOffset == Signed64(FromLE(packet[16..24]))
      ensures partial ==> -0x8000_0000_0000_0000 <= sendOffset < 0x8000_0000_0000_0000
      ensures partial ==> sendOffset % 0x1_0000_0000_0000_0000 == FromLE(packet[16..24])
      ensures response == if sendHandle == NO_HANDLE then MTP_RESPONSE_INVALID_OBJECT_HANDLE
                          else if access.Some? then access.value else MTP_RESPONSE_NO_RESPONSE
    {
      Pow256Values();
      if partial {
        sendHandle := Peek(packet, HEADER_SIZE, 4);
        var offset := Peek(packet, HEADER_SIZE + 4, 8);
        sendOffset := Signed64(offset);
        sendSize := Peek(packet, HEADER_SIZE + 12, 4);
      }
      if sendHandle == NO_HANDLE {
        return MTP_RESPONSE_INVALID_OBJECT_HANDLE;
      }
      if access.Some? {
        return access.value;
      }
      return MTP_RESPONSE_NO_RESPONSE;
    }

    /** The data phase on an entry that was found, with the outcome of its access check and of its
        open. The file receives the drained bytes at the start offset; a cancelled upload sends no
        response and lowers the flag. */
    method DataPhase(packet: seq<u8>, partial: bool, entry: Entry, access: Option<u32>, openOk: bool,
                     arrivals: seq<Arrival>, cancelAtEnd: bool)
      returns (response: u32, calls: nat)
      requires rdMax > HEADER_SIZE && |packet| <= rdMax
      requires forall a :: a in arrivals && a.transfer.Some? ==> |a.transfer.value| <= rdMax
      modifies this`transferring, this`cancelReq, this`sendSize, entry, entry.file
      ensures access.Some? ==> response == access.value && unchanged(this) && unchanged(entry) && unchanged(entry.file)
      ensures access.None? && !openOk && !old(entry.isOpen) ==> response == MTP_RESPONSE_GENERAL_ERROR && unchanged(this)
      ensures access.None? && (openOk || old(entry.isOpen)) ==>
        var d := Upload(packet, arrivals, rdMax, partial, old(sendSize), old(cancelReq) != 0);
        && calls == d.calls && !transferring
        && entry.file.data == Overwrite(if partial || old(entry.isOpen) then old(entry.file.data) else [],
                                        StartPosition(sendOffset, old(entry.isOpen), old(entry.file.pos)), d.written)
        // the data goes to the announced offset of what the open has left of the file
        && (sendOffset >= 0 ==>
              Lands(if partial || old(entry.isOpen) then old(entry.file.data) else [], sendOffset, d.written, entry.file.data))
        && (sendOffset < 0 ==> Lands(if partial || old(entry.isOpen) then old(entry.file.data) else [],
                                     if old(entry.isOpen) then old(entry.file.pos) else 0, d.written, entry.file.data))
        && entry.size == |entry.file.data| && entry.isOpen == partial
        && sendSize == old(sendSize) - |d.written|
        && (d.cancelled || cancelAtEnd ==> response == MTP_RESPONSE_NO_RESPONSE && cancelReq == 0)
        && (!d.cancelled && !cancelAtEnd ==> response == MTP_RESPONSE_OK && cancelReq == old(cancelReq))
    {
      calls := 0;
      if access.Some? {
        return access.value, 0;
      }
      if !entry.isOpen {
        if !openOk {
          return MTP_RESPONSE_GENERAL_ERROR, 0;
        }
        OpenFile(entry, !partial);
      }
      var file := entry.file;
      transferring := true;
      if sendOffset >= 0 {
        file.pos := sendOffset;
      }
      ghost var d;
      calls, d := Receive(file, packet, partial, arrivals);
      entry.size := |file.data|;
      file.pos := |file.data|;
      transferring := false;
      if !partial {
        entry.isOpen := false;
      }
      if cancelAtEnd {
        cancelReq := 2;
      }
      if cancelReq != 0 {
        cancelReq := 0;
        return MTP_RESPONSE_NO_RESPONSE, calls;
      }
      response := MTP_RESPONSE_OK;
    }

    method OpenFile(entry: Entry, truncate: bool)
      modifies entry`isOpen, entry.file
      ensures entry.isOpen && entry.file.pos == 0
      ensures entry.file.data == if truncate then [] else old(entry.file.data)
    {
      entry.isOpen := true;
      entry.file.pos := 0;
      if truncate {
        entry.file.data := [];
      }
    }

    /** The data of the first packet, then the transfer loop. */
    method Receive(file: File, packet: seq<u8>, partial: bool, arrivals: seq<Arrival>) returns (calls: nat, ghost d: Drained)
      requires rdMax > HEADER_SIZE && |packet| <= rdMax
      modifies this`cancelReq, this`sendSize, file
      ensures d == Upload(packet, arrivals, rdMax, partial, old(sendSize), old(cancelReq) != 0) && calls == d.calls
      ensures file.data == Overwrite(old(file.data), old(file.pos), d.written)
      ensures sendSize == old(sendSize) - |d.written|
      ensures (cancelReq != 0 <==> d.cancelled) && (!d.cancelled ==> cancelReq == old(cancelReq))
    {
      ghost var base, start, chunk := file.data, file.pos, FirstChunk(packet);
      var sz := |packet| - HEADER_SIZE;
      if sz > 0 {
        assert [] + chunk == chunk;
        file.Write(packet[HEADER_SIZE..], base, start, []);
        sendSize := sendSize - sz;
      }
      if sz == rdMax - HEADER_SIZE {
        sz := rdMax;
      }
      if partial && sendSize != 0 {
        sz := rdMax;
      }
      calls, d := TransferLoop(file, sz == rdMax, arrivals, base, start, chunk);
      d := d.(written := chunk + d.written);
    }

    /** The read and write loop; cancel_req is read before every transfer. */
    method TransferLoop(file: File, entered: bool, arrivals: seq<Arrival>,
                        ghost base: seq<u8>, ghost start: nat, ghost before: seq<u8>)
      returns (calls: nat, ghost d: Drained)
      requires rdMax > 0 && file.Holds(base, start, before)
      modifies this`cancelReq, this`sendSize, file
      ensures d == Drain(arrivals, rdMax, entered, old(cancelReq) != 0) && calls == d.calls
      ensures file.Holds(base, start, before + d.written)
      ensures sendSize == old(sendSize) - |d.written|
      ensures (cancelReq != 0 <==> d.cancelled) && (!d.cancelled ==> cancelReq == old(cancelReq))
    {
      d := Drain(arrivals, rdMax, entered, cancelReq != 0);
      calls := 0;
      var sz, i := if entered then rdMax else 0, 0;
      ghost var written := [];
      assert arrivals[0..] == arrivals;
      ControlThread(entered, arrivals, 0);
      while sz == rdMax && cancelReq == 0
        invariant 0 <= i <= |arrivals|
        invariant d == Join(written, calls, Drain(arrivals[i..], rdMax, sz == rdMax, cancelReq != 0))
        invariant sz == rdMax && cancelReq == 0 ==> !CancelledAt(arrivals, i)
        invariant file.Holds(base, start, before + written) && sendSize == old(sendSize) - |written|
        invariant cancelReq == old(cancelReq) || (old(cancelReq) == 0 && cancelReq == 2)
        decreases |arrivals| - i, sz == rdMax
      {
        ghost var t;
        sz, i, t := OneTransfer(file, arrivals, i, base, start, before + written);
        JoinAgain(written, calls, t, Drain(arrivals[i..], rdMax, sz == rdMax, cancelReq != 0));
        Regroup(before, written, t);
        written := written + t;
        calls := calls + 1;
      }
      assert d.written == written + [] == written;
    }

    /** One read, the write of what it returned, and a possible Cancel before the next test. */
    method OneTransfer(file: File, arrivals: seq<Arrival>, i: nat, ghost base: seq<u8>, ghost start: nat, ghost before: seq<u8>)
      returns (sz: int, next: nat, ghost t: seq<u8>)
      requires i <= |arrivals| && cancelReq == 0 && !CancelledAt(arrivals, i) && file.Holds(base, start, before)
      modifies this`cancelReq, this`sendSize, file
      ensures i <= next <= |arrivals| && (next == i ==> sz == -1)
      ensures cancelReq == if sz == rdMax && CancelledAt(arrivals, next) then 2 else 0
      ensures file.Holds(base, start, before + t) && sendSize == old(sendSize) - |t|
      ensures Drain(arrivals[i..], rdMax, true, false)
           == Join(t, 1, Drain(arrivals[next..], rdMax, sz == rdMax, cancelReq != 0))
    {
      ghost var rest := DrainStep(arrivals, i, rdMax);
      if i == |arrivals| || arrivals[i].transfer.None? {
        t := [];
        assert before + [] == before;
        return -1, i, t;
      }
      var transfer := arrivals[i].transfer.value;
      t := transfer;
      sz := |transfer|;
      file.Write(transfer, base, start, before);
      sendSize := sendSize - sz;
      next := i + 1;
      ControlThread(sz == rdMax, arrivals, next);
    }

    /** The control thread's share of the script: a Cancel before the next test of cancel_req. */
    method ControlThread(running: bool, arrivals: seq<Arrival>, i: nat)
      requires i <= |arrivals|
      modifies this`cancelReq
      ensures cancelReq == if running && old(cancelReq) == 0 && CancelledAt(arrivals, i) then 2 else old(cancelReq)
      ensures Drain(arrivals[i..], rdMax, running, cancelReq != 0) == Drain(arrivals[i..], rdMax, running, old(cancelReq) != 0)
    {
      if running && cancelReq == 0 && i < |arrivals| && arrivals[i].cancelled {
        assert arrivals[i..][0] == arrivals[i];
        cancelReq := 2;
      }
    }
  }

  /** The outcome of a drain that goes on with d. */
  ghost function Join(written: seq<u8>, calls: nat, d: Drained): Drained {
    Drained(written + d.written, calls + d.calls, d.cancelled)
  }

  lemma JoinAgain(written: seq<u8>, calls: nat, t: seq<u8>, d: Drained)
    ensures Join(written, calls, Join(t, 1, d)) == Join(written + t, calls + 1, d)
  {
    Regroup(written, t, d.written);
  }

  lemma Regroup(x: seq<u8>, y: seq<u8>, z: seq<u8>)
    ensures x + y + z == x + (y + z)
  {
  }

  predicate CancelledAt(arrivals: seq<Arrival>, i: nat) {
    i < |arrivals| && arrivals[i].cancelled
  }

  /** One read of the loop, seen from the arrivals that are left. */
  lemma DrainStep(arrivals: seq<Arrival>, i: nat, max: nat) returns (rest: Drained)
    requires i <= |arrivals| && !CancelledAt(arrivals, i)
    ensures var d := Drain(arrivals[i..], max, true, false);
            if i < |arrivals| && arrivals[i].transfer.Some? then
              var t := arrivals[i].transfer.value;
              rest == Drain(arrivals[i + 1..], max, |t| == max, false)
              && d == Drained(t + rest.written, 1 + rest.calls, rest.cancelled)
            else
              rest == Drain(arrivals[i..], max, false, false) == Drained([], 0, false) && d == Drained([], 1, false)
  {
    if i < |arrivals| {
      assert arrivals[i..][0] == arrivals[i] && arrivals[i..][1..] == arrivals[i + 1..];
      if arrivals[i].transfer.Some? {
        return Drain(arrivals[i + 1..], max, |arrivals[i].transfer.value| == max, false);
      }
    }
    rest := Drained([], 0, false);
  }

  function Signed64(v: nat): int {
    if v < 0x8000_0000_0000_0000 then v else v - 0x1_0000_0000_0000_0000
  }

  /** A byte stream cut into transfers of `max` bytes and ended by a shorter, possibly empty, one
      (section 5.8.3 of the USB 2.0 specification). */
  function Frame(s: seq<u8>, max: nat): (ts: seq<seq<u8>>)
    requires max > 0
    ensures ts != []
    decreases |s|
  {
    if |s| < max then [s] else [s[..max]] + Frame(s[max..], max)
  }

  function Sent(ts: seq<seq<u8>>): (r: seq<Arrival>)
    ensures |r| == |ts|
  {
    if ts == [] then [] else [Arrival(false, Some(ts[0]))] + Sent(ts[1..])
  }

  /** The loop takes a framed stream whole, with one read for each transfer, and stops there. */
  lemma {:induction false} LoopTakesFrame(s: seq<u8>, max: nat, later: seq<Arrival>)
    requires max > 0
    ensures Drain(Sent(Frame(s, max)) + later, max, true, false) == Drained(s, |Frame(s, max)|, false)
    decreases |s|
  {
    var ts := Frame(s, max);
    var all := Sent(ts) + later;
    assert all[0] == Arrival(false, Some(ts[0])) && all[1..] == Sent(ts[1..]) + later;
    if |s| >= max {
      assert ts[1..] == Frame(s[max..], max);
      LoopTakesFrame(s[max..], max, later);
      assert s[..max] + s[max..] == s;
    } else {
      assert s + [] == s;
    }
  }

  /** A header and payload framed together arrive exactly, one read per further transfer, unless the
      upload is partial, fits a single short packet and was announced with another length. */
  lemma FramedUploadIsExact(header: seq<u8>, payload: seq<u8>, max: nat, partial: bool, announced: int, later: seq<Arrival>)
    requires |header| == HEADER_SIZE && max > HEADER_SIZE
    ensures var ts := Frame(header + payload, max);
       Upload(ts[0], Sent(ts[1..]) + later, max, partial, announced, false) == Drained(payload, |ts| - 1, false)
       <==> !(partial && |ts| == 1 && announced != |payload|)
  {
    var s := header + payload;
    var ts := Frame(s, max);
    if |s| < max {
      assert FirstChunk(s) == payload && payload + [] == payload && Sent(ts[1..]) + later == later;
      if GoesOn(s, max, partial, announced) {
        ReadsOnce(later, max);
      }
    } else {
      LoopTakesFrame(s[max..], max, later);
      assert ts[1..] == Frame(s[max..], max);
      assert FirstChunk(s[..max]) == s[HEADER_SIZE..max] && s[HEADER_SIZE..max] + s[max..] == payload;
    }
  }

  /** A framed upload leaves exactly the payload at the offset it was announced for. */
  lemma FramedUploadLands(header: seq<u8>, payload: seq<u8>, max: nat, partial: bool, announced: int, later: seq<Arrival>,
                          before: seq<u8>, offset: nat, after: seq<u8>)
    requires |header| == HEADER_SIZE && max > HEADER_SIZE
    requires partial && |header + payload| < max ==> announced == |payload|
    requires var ts := Frame(header + payload, max);
             Lands(before, offset, Upload(ts[0], Sent(ts[1..]) + later, max, partial, announced, false).written, after)
    ensures Lands(before, offset, payload, after)
  {
    FramedUploadIsExact(header, payload, max, partial, announced, later);
  }

  /** Once entered, the loop makes a read or is cancelled. */
  lemma ReadsOnce(arrivals: seq<Arrival>, max: nat)
    ensures var d := Drain(arrivals, max, true, false); d.calls > 0 || d.cancelled
  {
  }

  /** A header sent on its own: the payload behind it is received exactly when it is empty, or the
      upload is partial and was announced with a length other than zero. */
  lemma SplitHeaderUpload(header: seq<u8>, payload: seq<u8>, max: nat, partial: bool, announced: int, later: seq<Arrival>)
    requires |header| == HEADER_SIZE && max > HEADER_SIZE
    ensures Upload(header, Sent(Frame(payload, max)) + later, max, partial, announced, false).written == payload
       <==> payload == [] || (partial && announced != 0)
  {
    LoopTakesFrame(payload, max, later);
    assert FirstChunk(header) == [] && [] + payload == payload;
  }

  /** Every byte the host's transfers carry. */
  function Carried(arrivals: seq<Arrival>): seq<u8> {
    if arrivals == [] then []
    else (if arrivals[0].transfer.Some? then arrivals[0].transfer.value else []) + Carried(arrivals[1..])
  }

  /** Whenever Cancels or read errors strike, what is written is a prefix of what was sent. */
  lemma {:induction false} WrittenIsPrefix(arrivals: seq<Arrival>, max: nat, go: bool, cancelled: bool)
    ensures Drain(arrivals, max, go, cancelled).written <= Carried(arrivals)
  {
    if go && !cancelled && arrivals != [] && !arrivals[0].cancelled && arrivals[0].transfer.Some? {
      var t := arrivals[0].transfer.value;
      WrittenIsPrefix(arrivals[1..], max, |t| == max, false);
    }
  }

  /** Transfers that keep the loop going: full ones, without a Cancel before them. */
  ghost predicate Full(arrivals: seq<Arrival>, max: nat) {
    forall i :: 0 <= i < |arrivals| ==>
      !arrivals[i].cancelled && arrivals[i].transfer.Some? && |arrivals[i].transfer.value| == max
  }

  /** Where the loop stops: before the first transfer a Cancel precedes, at the first read that fails,
      and behind the first transfer that is not full; everything up to there is written. */
  lemma {:induction false} StopsAt(arrivals: seq<Arrival>, max: nat, j: nat)
    requires j <= |arrivals| && Full(arrivals[..j], max)
    ensures var d := Drain(arrivals, max, true, false); var written := Carried(arrivals[..j]);
      if j == |arrivals| then d == Drained(written, j + 1, false)
      else
        && (arrivals[j].cancelled ==> d == Drained(written, j, true))
        && (!arrivals[j].cancelled && arrivals[j].transfer.None? ==> d == Drained(written, j + 1, false))
        && (!arrivals[j].cancelled && arrivals[j].transfer.Some? && |arrivals[j].transfer.value| != max ==>
              d == Drained(written + arrivals[j].transfer.value, j + 1, false))
    decreases j
  {
    if j > 0 {
      assert arrivals[..j][0] == arrivals[0] && arrivals[..j][1..] == arrivals[1..][..j - 1];
      StopsAt(arrivals[1..], max, j - 1);
      var d := Drain(arrivals[1..], max, true, false);
      assert Drain(arrivals, max, true, false) == Drained(arrivals[0].transfer.value + d.written, 1 + d.calls, d.cancelled);
      assert Carried(arrivals[..j]) == arrivals[0].transfer.value + Carried(arrivals[1..][..j - 1]);
      if j < |arrivals| && arrivals[j].transfer.Some? {
        Regroup(arrivals[0].transfer.value, Carried(arrivals[1..][..j - 1]), arrivals[j].transfer.value);
      }
    } else {
      assert Carried(arrivals[..0]) == [];
      if arrivals != [] && arrivals[0].transfer.Some? {
        assert arrivals[0].transfer.value + [] == [] + arrivals[0].transfer.value;
      }
    }
  }

  predicate SameTransfers(arrivals: seq<Arrival>, ts: seq<seq<u8>>) {
    |arrivals| == |ts| && forall i :: 0 <= i < |ts| ==> arrivals[i].transfer == Some(ts[i])
  }

  lemma {:induction false} CarriedFrame(arrivals: seq<Arrival>, s: seq<u8>, max: nat)
    requires max > 0 && SameTransfers(arrivals, Frame(s, max))
    ensures Carried(arrivals) == s
    decreases |s|
  {
    if |s| >= max {
      CarriedFrame(arrivals[1..], s[max..], max);
      assert s[..max] + s[max..] == s;
    } else {
      assert Carried(arrivals[1..]) == [] && s + [] == s;
    }
  }

  /** A cancelled upload of a framed stream leaves a prefix of the payload. */
  lemma CancelledUploadIsPrefix(header: seq<u8>, payload: seq<u8>, max: nat, partial: bool, announced: int, arrivals: seq<Arrival>)
    requires |header| == HEADER_SIZE && max > HEADER_SIZE
    requires SameTransfers(arrivals, Frame(header + payload, max)[1..])
    ensures Upload(Frame(header + payload, max)[0], arrivals, max, partial, announced, false).written <= payload
  {
    var s := header + payload;
    var ts := Frame(s, max);
    var go := GoesOn(ts[0], max, partial, announced);
    WrittenIsPrefix(arrivals, max, go, false);
    if |s| < max {
      assert arrivals == [] && FirstChunk(s) == payload;
    } else {
      assert ts[1..] == Frame(s[max..], max);
      CarriedFrame(arrivals, s[max..], max);
      assert FirstChunk(s[..max]) + s[max..] == payload;
    }
  }
}
