/**
 The pipe (src/fs/npipe.rs): a bounded buffer with one waker per side. Every method below runs
 under the pipe's lock, so it is one atomic step of the system of one reader and one writer.
 */
module Pipes {
  import opened Collections
  import opened Options
  import opened Bytes

  const CAPACITY: nat := 4096

  datatype Who = Reader | Writer

  datatype Poll = Ready(n: nat) | Broken | Pending

  datatype PipeState = PipeState(closed: bool, buf: seq<Byte>, readWaker: Option<Who>, writeWaker: Option<Who>)

  /** `PipeReadPollFuture::poll` */
  function ReadPolled(p: PipeState, me: Who): (PipeState, Poll) {
    if p.buf != [] then (p, Ready(|p.buf|))
    else if p.closed then (p, Broken)
    else (p.(readWaker := Some(me)), Pending)
  }

  /** `PipeWritePollFuture::poll` */
  function WritePolled(p: PipeState, me: Who): (PipeState, Poll)
    requires |p.buf| <= CAPACITY
  {
    if p.closed then (p, Broken)
    else if |p.buf| < CAPACITY then (p, Ready(CAPACITY - |p.buf|))
    else (p.(writeWaker := Some(me)), Pending)
  }

  /** `poll_read` of up to `n` bytes: the state, the bytes and who is woken. */
  function ReadDone(p: PipeState, n: nat): (PipeState, seq<Byte>, Option<Who>) {
    if n == 0 then (p, [], None)
    else
      var len := Min(|p.buf|, n);
      (p.(buf := p.buf[len..], writeWaker := None), p.buf[..len], p.writeWaker)
  }

  /** `poll_write`: the state, how many bytes were taken and who is woken. */
  function WriteDone(p: PipeState, data: seq<Byte>): (PipeState, nat, Option<Who>)
    requires |p.buf| <= CAPACITY
  {
    if data == [] then (p, 0, None)
    else
      var len := Min(CAPACITY - |p.buf|, |data|);
      (p.(buf := p.buf + data[..len], readWaker := None), len, p.readWaker)
  }

  function ReadEndDropped(p: PipeState): (PipeState, Option<Who>) {
    (p.(closed := true, writeWaker := None), p.writeWaker)
  }

  function WriteEndDropped(p: PipeState): (PipeState, Option<Who>) {
    (p.(closed := true, readWaker := None), p.readWaker)
  }

  class Pipe {
    var isClosed: bool
    var buf: seq<Byte>  // the ring buffer, oldest byte first
    var readWaker: Option<Who>
    var writeWaker: Option<Who>

    constructor ()
      ensures State() == PipeState(false, [], None, None)
    {
      isClosed, buf, readWaker, writeWaker := false, [], None, None;
    }

    ghost function State(): PipeState
      reads this
    {
      PipeState(isClosed, buf, readWaker, writeWaker)
    }

    method PollReadReady(me: Who) returns (r: Poll)
      modifies this
      ensures (State(), r) == ReadPolled(old(State()), me)
      ensures buf == old(buf) && isClosed == old(isClosed) && writeWaker == old(writeWaker)
      ensures buf != [] ==> r == Ready(|buf|)
      ensures r == Broken <==> buf == [] && isClosed
      ensures r == Pending <==> buf == [] && !isClosed
      ensures readWaker == if r == Pending then Some(me) else old(readWaker)
    {
      if |buf| != 0 {
        return Ready(|buf|);
      }
      if isClosed {
        return Broken;
      }
      readWaker := Some(me);
      r := Pending;
    }

    method PollWriteReady(me: Who) returns (r: Poll)
      requires |buf| <= CAPACITY
      modifies this
      ensures (State(), r) == WritePolled(old(State()), me)
      ensures buf == old(buf) && isClosed == old(isClosed) && readWaker == old(readWaker)
      ensures r == Broken <==> isClosed
      ensures !isClosed && |buf| < CAPACITY ==> r == Ready(CAPACITY - |buf|)
      ensures r == Pending <==> !isClosed && |buf| == CAPACITY
      ensures writeWaker == if r == Pending then Some(me) else old(writeWaker)
    {
      var left := CAPACITY - |buf|;
      if isClosed {
        return Broken;
      }
      if left != 0 {
        return Ready(left);
      }
      writeWaker := Some(me);
      r := Pending;
    }

    /** The source asserts that there is something to read. */
    method PollRead(out: array<Byte>) returns (len: nat, woken: Option<Who>)
      requires buf != []
      modifies this, out
      ensures len == Min(|old(buf)|, out.Length) && out[..len] == old(buf)[..len] && buf == old(buf)[len..]
      ensures out[len..] == old(out[len..]) && isClosed == old(isClosed) && readWaker == old(readWaker)
      ensures len > 0 ==> woken == old(writeWaker) && writeWaker == None
      ensures len == 0 ==> woken == None && writeWaker == old(writeWaker)
      ensures (State(), out[..len], woken) == ReadDone(old(State()), out.Length)
    {
      if out.Length == 0 {
        return 0, None;
      }
      ghost var was := buf;
      len := Min(|buf|, out.Length);
      for i := 0 to len
        invariant buf == was[i..] && out[..i] == was[..i] && out[i..] == old(out[i..])
        invariant unchanged(this`isClosed, this`readWaker, this`writeWaker)
      {
        out[i] := buf[0];
        buf := buf[1..];
      }
      woken := writeWaker;
      writeWaker := None;
    }

    /** The source asserts that there is space left. */
    method PollWrite(data: seq<Byte>) returns (len: nat, woken: Option<Who>)
      requires |buf| < CAPACITY
      modifies this
      ensures len == Min(CAPACITY - |old(buf)|, |data|) && buf == old(buf) + data[..len]
      ensures isClosed == old(isClosed) && writeWaker == old(writeWaker)
      ensures len > 0 ==> woken == old(readWaker) && readWaker == None
      ensures len == 0 ==> woken == None && readWaker == old(readWaker)
      ensures (State(), len, woken) == WriteDone(old(State()), data)
    {
      var left := CAPACITY - |buf|;
      if |data| == 0 {
        return 0, None;
      }
      len := Min(left, |data|);
      for i := 0 to len
        invariant buf == old(buf) + data[..i]
        invariant unchanged(this`isClosed, this`readWaker, this`writeWaker)
      {
        buf := buf + [data[i]];
      }
      woken := readWaker;
      readWaker := None;
    }

    method DropReadEnd() returns (woken: Option<Who>)
      modifies this
      ensures isClosed && woken == old(writeWaker) && writeWaker == None && buf == old(buf)
      ensures readWaker == old(readWaker)
      ensures (State(), woken) == ReadEndDropped(old(State()))
    {
      isClosed := true;
      woken := writeWaker;
      writeWaker := None;
    }

    method DropWriteEnd() returns (woken: Option<Who>)
      modifies this
      ensures isClosed && woken == old(readWaker) && readWaker == None && buf == old(buf)
      ensures writeWaker == old(writeWaker)
      ensures (State(), woken) == WriteEndDropped(old(State()))
    {
      isClosed := true;
      woken := readWaker;
      readWaker := None;
    }
  }

  // ---- One reader, one writer, all interleavings ----

  /**
   What a task is doing: nothing; about to poll for readiness; blocked until its waker is called;
   told that it is ready, with the transfer still to come; or its end is dropped. `n` is the size
   of the reader's buffer.
   */
  datatype ReadTask = RIdle | RPolling(n: nat) | RBlocked(n: nat) | RReady(n: nat) | RGone
  datatype WriteTask = WIdle | WPolling(data: seq<Byte>) | WBlocked(data: seq<Byte>) | WReady(data: seq<Byte>) | WGone

  /** `sent` and `got` record all bytes that went in and came out. */
  datatype System = System(pipe: PipeState, reader: ReadTask, writer: WriteTask, sent: seq<Byte>, got: seq<Byte>)

  datatype Label =
    | StartRead(n: nat) | StartWrite(data: seq<Byte>)
    | PollReader | PollWriter
    | Transfer(who: Who)
    | Spurious(who: Who)
    | Interrupt(who: Who)
    | DropEnd(who: Who)

  predicate Enabled(s: System, l: Label) {
    match l
    case StartRead(_) => s.reader.RIdle?
    case StartWrite(_) => s.writer.WIdle?
    case PollReader => s.reader.RPolling?
    case PollWriter => s.writer.WPolling?
    case Transfer(Reader) => s.reader.RReady?
    case Transfer(Writer) => s.writer.WReady?
    case Spurious(Reader) => s.reader.RBlocked?
    case Spurious(Writer) => s.writer.WBlocked?
    case Interrupt(Reader) => s.reader.RBlocked? || s.reader.RPolling?
    case Interrupt(Writer) => s.writer.WBlocked? || s.writer.WPolling?
    case DropEnd(Reader) => s.reader.RIdle?
    case DropEnd(Writer) => s.writer.WIdle?
  }

  function WakeReader(t: ReadTask): ReadTask { if t.RBlocked? then RPolling(t.n) else t }
  function WakeWriter(t: WriteTask): WriteTask { if t.WBlocked? then WPolling(t.data) else t }

  /** The waker that was taken out of the pipe is called. */
  function Woken(s: System, w: Option<Who>): System {
    match w
    case None => s
    case Some(Reader) => s.(reader := WakeReader(s.reader))
    case Some(Writer) => s.(writer := WakeWriter(s.writer))
  }

  function Step(s: System, l: Label): System
    requires |s.pipe.buf| <= CAPACITY && Enabled(s, l)
  {
    match l
    case StartRead(n) => s.(reader := RPolling(n))
    case StartWrite(data) => s.(writer := WPolling(data))
    case PollReader =>
      var r := ReadPolled(s.pipe, Reader);
      s.(pipe := r.0, reader := match r.1
                                case Ready(_) => RReady(s.reader.n)
                                case Broken => RIdle
                                case Pending => RBlocked(s.reader.n))
    case PollWriter =>
      var r := WritePolled(s.pipe, Writer);
      s.(pipe := r.0, writer := match r.1
                                case Ready(_) => WReady(s.writer.data)
                                case Broken => WIdle
                                case Pending => WBlocked(s.writer.data))
    case Transfer(Reader) =>
      var r := ReadDone(s.pipe, s.reader.n);
      Woken(s.(pipe := r.0, reader := RIdle, got := s.got + r.1), r.2)
    case Transfer(Writer) =>
      var r := WriteDone(s.pipe, s.writer.data);
      Woken(s.(pipe := r.0, writer := WIdle, sent := s.sent + s.writer.data[..r.1]), r.2)
    case Spurious(Reader) => s.(reader := WakeReader(s.reader))
    case Spurious(Writer) => s.(writer := WakeWriter(s.writer))
    case Interrupt(Reader) => s.(reader := RIdle)
    case Interrupt(Writer) => s.(writer := WIdle)
    case DropEnd(Reader) =>
      var r := ReadEndDropped(s.pipe);
      Woken(s.(pipe := r.0, reader := RGone), r.1)
    case DropEnd(Writer) =>
      var r := WriteEndDropped(s.pipe);
      Woken(s.(pipe := r.0, writer := WGone), r.1)
  }

  predicate Inv(s: System) {
    && |s.pipe.buf| <= CAPACITY && s.sent == s.got + s.pipe.buf
    && (s.pipe.closed <==> s.reader.RGone? || s.writer.WGone?)
    && (s.pipe.readWaker.Some? ==> s.pipe.readWaker.value == Reader)
    && (s.pipe.writeWaker.Some? ==> s.pipe.writeWaker.value == Writer)
    && (s.reader.RBlocked? ==> s.pipe.readWaker == Some(Reader) && !s.pipe.closed && s.pipe.buf == [])
    && (s.writer.WBlocked? ==> s.pipe.writeWaker == Some(Writer) && !s.pipe.closed && |s.pipe.buf| == CAPACITY)
    && (s.reader.RReady? ==> s.pipe.buf != [])
    && (s.writer.WReady? ==> |s.pipe.buf| < CAPACITY)
  }

  lemma ReadInv(s: System)
    requires Inv(s) && s.reader.RReady?
    ensures Inv(Step(s, Transfer(Reader)))
  {
    var len := Min(|s.pipe.buf|, s.reader.n);
    assert s.pipe.buf == s.pipe.buf[..len] + s.pipe.buf[len..];
    assert s.got + s.pipe.buf == s.got + s.pipe.buf[..len] + s.pipe.buf[len..];
  }

  lemma WriteInv(s: System)
    requires Inv(s) && s.writer.WReady?
    ensures Inv(Step(s, Transfer(Writer)))
  {
    var len := Min(CAPACITY - |s.pipe.buf|, |s.writer.data|);
    assert s.sent + s.writer.data[..len] == s.got + (s.pipe.buf + s.writer.data[..len]);
  }

  lemma CloseInv(s: System, who: Who)
    requires Inv(s) && Enabled(s, DropEnd(who))
    ensures Inv(Step(s, DropEnd(who)))
  {
  }

  lemma StepInv(s: System, l: Label)
    requires Inv(s) && Enabled(s, l)
    ensures Inv(Step(s, l))
  {
    match l {
      case Transfer(Reader) => ReadInv(s);
      case Transfer(Writer) => WriteInv(s);
      case DropEnd(who) => CloseInv(s, who);
      case _ =>
    }
  }

  // ---- What the steps achieve ----

  /** A reader that is ready gets as much as there is or as it asked for, oldest bytes first. */
  lemma ReaderTakes(s: System)
    requires Inv(s) && s.reader.RReady?
    ensures
      var s', n := Step(s, Transfer(Reader)), Min(|s.pipe.buf|, s.reader.n);
      && s'.got == s.got + s.pipe.buf[..n] && s'.pipe.buf == s.pipe.buf[n..] && s'.sent == s.sent
      && s'.reader == RIdle && (s.reader.n > 0 ==> |s'.got| > |s.got|)
  {
  }

  /** A writer that is ready gets rid of as much as there is room for or as it has. */
  lemma WriterPuts(s: System)
    requires Inv(s) && s.writer.WReady?
    ensures
      var s', n := Step(s, Transfer(Writer)), Min(CAPACITY - |s.pipe.buf|, |s.writer.data|);
      && s'.sent == s.sent + s.writer.data[..n] && s'.pipe.buf == s.pipe.buf + s.writer.data[..n] && s'.got == s.got
      && s'.writer == WIdle && (s.writer.data != [] ==> |s'.sent| > |s.sent|)
  {
  }

  /** A reader is ready when there is something, gives up on a closed empty pipe, and else waits. */
  lemma ReaderAnswered(s: System)
    requires Inv(s) && s.reader.RPolling?
    ensures
      var t := Step(s, PollReader).reader;
      && (t == RReady(s.reader.n) <==> s.pipe.buf != [])
      && (t == RIdle <==> s.pipe.buf == [] && s.writer.WGone?)
      && (t == RBlocked(s.reader.n) <==> s.pipe.buf == [] && !s.writer.WGone?)
  {
  }

  /** A writer is refused when the reader is gone, ready when there is room, and else waits. */
  lemma WriterAnswered(s: System)
    requires Inv(s) && s.writer.WPolling?
    ensures
      var t := Step(s, PollWriter).writer;
      && (t == WIdle <==> s.reader.RGone?)
      && (t == WReady(s.writer.data) <==> !s.reader.RGone? && |s.pipe.buf| < CAPACITY)
      && (t == WBlocked(s.writer.data) <==> !s.reader.RGone? && |s.pipe.buf| == CAPACITY)
  {
  }

  const START: System := System(PipeState(false, [], None, None), RIdle, WIdle, [], [])

  ghost predicate Runs(states: seq<System>, labels: seq<Label>) {
    && |states| == |labels| + 1 && states[0] == START
    && forall i :: 0 <= i < |labels| ==>
         && |states[i].pipe.buf| <= CAPACITY && Enabled(states[i], labels[i])
         && states[i + 1] == Step(states[i], labels[i])
  }

  /**
   In every interleaving: what was read is what was written first, the buffer is the rest, a
   blocked side has its waker in the pipe and nothing it could do, and never are both blocked.
   */
  lemma {:induction false} RunSafe(states: seq<System>, labels: seq<Label>)
    requires Runs(states, labels)
    ensures
      var s := states[|labels|];
      && Inv(s) && s.got <= s.sent && !(s.reader.RBlocked? && s.writer.WBlocked?)
  {
    if labels == [] {
    } else {
      var n := |labels| - 1;
      RunSafe(states[..n + 1], labels[..n]);
      StepInv(states[n], labels[n]);
    }
  }

  /** A read that finds the pipe broken has seen everything that was ever written. */
  lemma EndOfFile(s: System)
    requires Inv(s) && s.reader.RPolling? && ReadPolled(s.pipe, Reader).1 == Broken
    ensures s.got == s.sent && s.writer.WGone?
  {
  }

  /** A blocked reader is woken by the write or the close that ends its wait. */
  lemma ReaderWoken(s: System, l: Label)
    requires Inv(s) && Enabled(s, l) && s.reader.RBlocked?
    requires Step(s, l).pipe.buf != [] || Step(s, l).pipe.closed
    ensures Step(s, l).reader == RPolling(s.reader.n)
  {
  }

  /** A blocked writer is woken by the read or the close that ends its wait. */
  lemma WriterWoken(s: System, l: Label)
    requires Inv(s) && Enabled(s, l) && s.writer.WBlocked?
    requires |Step(s, l).pipe.buf| < CAPACITY || Step(s, l).pipe.closed
    ensures Step(s, l).writer == WPolling(s.writer.data)
  {
  }
}
