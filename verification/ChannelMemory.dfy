/**
 The blocks behind the three buffers of a channel: how the handlers move through them, and which appends
 end the process. ChannelSpec leaves them out, since they never change what a buffer holds.
 */
module ChannelMemory {
  import opened Bytes
  import opened FifoBuffer
  import opened ChannelSpec

  type Block = s: Shape | s.Live() witness Shape(INITIAL_SIZE, 0, 0)

  const NEW_BLOCK: Block := Shape(INITIAL_SIZE, 0, 0)

  /** After an append of `n` bytes, where that does not end the process. */
  function Extended(s: Block, n: nat): (t: Block)
    ensures !s.AppendIsFatal(n) ==> t == s.AfterAppend(n) && t.Len() == s.Len() + n
  {
    if s.AppendIsFatal(n) then s
    else
      AppendKeepsLive(s, n);
      s.AfterAppend(n)
  }

  /** After `n` bytes, of those there are, were taken from the front. */
  function Taken(s: Block, n: nat): (t: Block)
    ensures n <= s.Len() ==> t == s.Consumed(n) && t.Len() == s.Len() - n
  {
    if n <= s.Len() then s.Consumed(n) else s
  }

  datatype Memory = Memory(input: Block, output: Block, extended: Block) {
    /** The blocks hold as many bytes as the buffers of `c`. */
    predicate Holds(c: Chan) {
      input.Len() == |c.input| && output.Len() == |c.output| && extended.Len() == |c.extended|
    }
  }

  const NEW_MEMORY: Memory := Memory(NEW_BLOCK, NEW_BLOCK, NEW_BLOCK)

  /** Closing the output side clears its buffer. */
  function OutputClosed(m: Memory, before: Chan, after: Chan): Memory {
    if before.ostate != OutClosed && after.ostate == OutClosed then m.(output := m.output.Cleared()) else m
  }

  /** The memory check compacts the block that a read would extend. */
  function PreOpenMemory(m: Memory, c: Chan, tcpwin: nat): Memory {
    var after := PreOpen(c, tcpwin);
    var m := OutputClosed(m, c, after);
    if c.ctype == Open && WantsRead(after) then
      CheckKeepsLive(m.input, CHAN_RBUF);
      m.(input := m.input.AfterCheck(CHAN_RBUF))
    else m
  }

  lemma CheckKeepsLive(s: Block, n: nat)
    ensures s.AfterCheck(n).Holds(s.Len())
  {
    hide Add32, BlockSize;
  }

  predicate ReadOverflows(m: Memory, c: Chan, r: ReadResult) {
    c.fds.rfd && r.ReadBytes? && m.input.AppendIsFatal(|r.bytes|)
  }

  function ReadMemory(m: Memory, c: Chan, r: ReadResult): Memory {
    if c.fds.rfd && r.ReadBytes? then m.(input := Extended(m.input, |r.bytes|)) else m
  }

  function WriteMemory(m: Memory, c: Chan, w: WriteResult): Memory {
    if !c.fds.wfd || c.output == [] then m
    else
      match w
      case WriteAgain => m
      case WriteFailed => OutputClosed(m, c, ChanWriteFailed(c).c)
      case Wrote(n) => m.(output := Taken(m.output, n))
  }

  predicate ErrReadOverflows(m: Memory, c: Chan, r: ReadResult) {
    c.fds.efd && c.fds.usage == ExtRead && r.ReadBytes? && m.extended.AppendIsFatal(|r.bytes|)
  }

  function ErrReadMemory(m: Memory, c: Chan, r: ReadResult): Memory {
    if c.fds.efd && c.fds.usage == ExtRead && r.ReadBytes? then m.(extended := Extended(m.extended, |r.bytes|)) else m
  }

  function ErrWriteMemory(m: Memory, c: Chan, w: WriteResult): Memory {
    if c.fds.efd && c.fds.usage == ExtWrite && c.extended != [] && w.Wrote? then m.(extended := Taken(m.extended, w.n))
    else m
  }

  function PollMemory(m: Memory, before: Chan, after: Chan): Memory
    requires |after.input| <= |before.input| && |after.extended| <= |before.extended|
  {
    m.(input := Taken(m.input, |before.input| - |after.input|),
       extended := Taken(m.extended, |before.extended| - |after.extended|))
  }

  /** Whether received data is kept, and so appended to the output. */
  predicate KeepsData(c: Chan, data: seq<Byte>) {
    c.ctype == Open && c.ostate == OutOpen && |data| <= c.win.local
  }

  /** Whether received stderr data is kept to be written out. */
  predicate KeepsExtData(c: Chan, code: nat, data: seq<Byte>) {
    && c.ctype == Open && !c.flags.eofRcvd && c.fds.efd && c.fds.usage == ExtWrite && code == STDERR_CODE
    && |data| <= c.win.local
  }

  predicate ReceiveOverflows(m: Memory, c: Chan, msg: Msg) {
    match msg
    case Data(data) => KeepsData(c, data) && m.output.AppendIsFatal(|data|)
    case ExtData(code, data) => KeepsExtData(c, code, data) && m.extended.AppendIsFatal(|data|)
    case _ => false
  }

  function ReceiveMemory(m: Memory, c: Chan, msg: Msg): Memory {
    match msg
    case Data(data) => if KeepsData(c, data) then m.(output := Extended(m.output, |data|)) else m
    case ExtData(code, data) =>
      if KeepsExtData(c, code, data) then m.(extended := Extended(m.extended, |data|)) else m
    case Eof => OutputClosed(m, c, InputEof(c).c)
    case _ => m
  }

  // ---- The blocks keep up with the buffers ----

  lemma PreOpenHolds(m: Memory, c: Chan, tcpwin: nat)
    requires m.Holds(c)
    ensures PreOpenMemory(m, c, tcpwin).Holds(PreOpen(c, tcpwin))
  {
    hide Shape.AfterCheck;
    CheckKeepsLive(m.input, CHAN_RBUF);
  }

  lemma ReadHolds(m: Memory, c: Chan, r: ReadResult)
    requires m.Holds(c) && !ReadOverflows(m, c, r)
    ensures ReadMemory(m, c, r).Holds(HandleRfd(c, r))
  {
    hide Shape.AppendIsFatal, Shape.AfterAppend;
  }

  lemma WriteHolds(m: Memory, c: Chan, w: WriteResult)
    requires m.Holds(c) && (c.ostate == OutClosed ==> c.output == [])
    requires w.Wrote? ==> w.n <= |c.output|
    ensures WriteMemory(m, c, w).Holds(HandleWfd(c, w).c)
  {
  }

  lemma ErrReadHolds(m: Memory, c: Chan, r: ReadResult)
    requires m.Holds(c) && !ErrReadOverflows(m, c, r)
    ensures ErrReadMemory(m, c, r).Holds(HandleEfdRead(c, r))
  {
    hide Shape.AppendIsFatal, Shape.AfterAppend;
  }

  lemma ErrWriteHolds(m: Memory, c: Chan, w: WriteResult)
    requires m.Holds(c) && (w.Wrote? ==> w.n <= |c.extended|)
    ensures ErrWriteMemory(m, c, w).Holds(HandleEfdWrite(c, w))
  {
  }

  lemma PollShrinks(c: Chan)
    ensures var d := OutputPoll(c).c;
      |d.input| <= |c.input| && |d.extended| <= |c.extended| && d.output == c.output
  {
    hide SendLength, Spent;
  }

  lemma PollHolds(m: Memory, c: Chan)
    requires m.Holds(c)
    ensures var d := OutputPoll(c).c;
      && |d.input| <= |c.input| && |d.extended| <= |c.extended|
      && PollMemory(m, c, d).Holds(d)
  {
    hide OutputPoll;
    PollShrinks(c);
  }

  /** An EOF leaves the buffers alone: it closes the output only when it has drained. */
  lemma EofKeepsBuffers(c: Chan)
    ensures var d := InputEof(c).c;
      && d.input == c.input && d.output == c.output && d.extended == c.extended
      && (c.ostate != OutClosed && d.ostate == OutClosed ==> c.output == [])
  {
  }

  lemma EofHolds(m: Memory, c: Chan)
    requires m.Holds(c)
    ensures OutputClosed(m, c, InputEof(c).c).Holds(InputEof(c).c)
  {
    hide InputEof;
    EofKeepsBuffers(c);
  }

  lemma ReceiveHolds(m: Memory, c: Chan, msg: Msg)
    requires m.Holds(c) && !ReceiveOverflows(m, c, msg)
    requires Receive(c, msg).Some?
    ensures ReceiveMemory(m, c, msg).Holds(Receive(c, msg).value.c)
  {
    hide Shape.AppendIsFatal, Shape.AfterAppend, OutputClosed, InputEof;
    EofHolds(m, c);
  }

  /** What is read because the memory check allowed it always fits. */
  lemma CheckedReadFits(m: Memory, c: Chan, r: ReadResult)
    requires m.input.CheckSucceeds(CHAN_RBUF) && (r.ReadBytes? ==> |r.bytes| <= CHAN_RBUF)
    ensures !ReadOverflows(m, c, r)
  {
    hide Shape.AppendIsFatal, Shape.CheckSucceeds;
    CheckMeansAppend(m.input, CHAN_RBUF);
    if r.ReadBytes? {
      AppendMonotone(m.input, |r.bytes|, CHAN_RBUF);
    }
  }
}
