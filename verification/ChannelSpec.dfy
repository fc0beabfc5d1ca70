/**
 What one SSH-2 channel endpoint does: channels.c and the close/EOF transitions of nchan.c, as
 functions on an endpoint's abstract state. The handlers of class Channel are proved to compute
 these functions; ChannelSystem joins two such endpoints.
 */
module ChannelSpec {
  import opened Bytes

  const STDERR_CODE: nat := 1
  const CHAN_RBUF: nat := 16 * 1024

  /** So much data fits a packet: the packet layer refuses packets of more than 256 KiB in all. */
  const DATA_MAX: nat := 256 * 1024 - 64

  datatype ChanType = Larval | Opening | Open
  datatype InState = InOpen | InWaitDrain | InClosed
  datatype OutState = OutOpen | OutWaitDrain | OutClosed
  datatype ExtUsage = ExtIgnore | ExtRead | ExtWrite

  datatype Msg =
    | Confirm(window: nat, maxpacket: nat)
    | Data(data: seq<Byte>)
    | ExtData(code: nat, data: seq<Byte>)
    | Adjust(credit: nat)
    | Eof
    | Close
    | Eow

  /** What `read` and `write` answer. A short write leaves `n` smaller than what was offered. */
  datatype ReadResult = ReadAgain | ReadFailed | ReadBytes(bytes: seq<Byte>)
  datatype WriteResult = WriteAgain | WriteFailed | Wrote(n: nat)

  datatype Flags = Flags(closeSent: bool, closeRcvd: bool, eofSent: bool, eofRcvd: bool) {
    predicate AnyClose() { closeSent || closeRcvd }
  }

  /** Which descriptors are open, whether one socket serves both directions, and what stderr is for. */
  datatype Fds = Fds(rfd: bool, wfd: bool, efd: bool, isSocket: bool, usage: ExtUsage)

  datatype Windows = Windows(
    remote: nat,
    remoteMaxpacket: nat,
    local: nat,
    localMax: nat,
    consumed: nat,
    localMaxpacket: nat)
  {
    /** Every counter fits the source's `u_int`. */
    predicate Fits() {
      && remote < U32_RANGE && remoteMaxpacket < U32_RANGE
      && local < U32_RANGE && localMax < U32_RANGE
      && consumed < U32_RANGE && localMaxpacket < U32_RANGE
    }
  }

  /** `newPeer` tells that the peer is an OpenSSH that takes EOW packets. */
  datatype Options = Options(isSession: bool, newPeer: bool, forceDrain: bool, dynamicWindow: bool) {
    predicate SendsEow() { isSession && newPeer }
  }

  datatype Chan = Chan(
    ctype: ChanType,
    istate: InState,
    ostate: OutState,
    flags: Flags,
    fds: Fds,
    input: seq<Byte>,
    output: seq<Byte>,
    extended: seq<Byte>,
    win: Windows,
    tcpwinsz: nat,
    options: Options)
  {
    predicate EfdInputActive() { fds.usage == ExtRead && (fds.efd || extended != []) }

    predicate EfdOutputActive() {
      fds.usage == ExtWrite && fds.efd && (!(flags.eofRcvd || flags.closeRcvd) || extended != [])
    }

    /** Received stderr bytes not written out yet, and local ones not sent yet. */
    function ErrIncoming(): seq<Byte> { if fds.usage == ExtWrite then extended else [] }

    function ErrOutgoing(): seq<Byte> { if fds.usage == ExtRead then extended else [] }
  }

  /** A handler's effect: the new state and the packets sent. `None` stands for the end of the connection. */
  datatype Effect = Effect(c: Chan, sent: seq<Msg>)

  // ---- nchan.c, protocol 2 ----

  /** Shutting down a direction closes its descriptor, unless a socket serves both directions. */
  predicate KeepsDescriptor(c: Chan) { c.ctype == Larval || c.fds.isSocket }

  function FdsAfterReadShutdown(c: Chan): Fds { c.fds.(rfd := c.fds.rfd && KeepsDescriptor(c)) }

  function ChanReadFailed(c: Chan): Chan {
    if c.istate == InOpen then c.(fds := FdsAfterReadShutdown(c), istate := InWaitDrain) else c
  }

  /** Ends the output side; whatever was still to be written is thrown away. */
  function CloseOutput(c: Chan): Chan {
    c.(output := [], fds := c.fds.(wfd := c.fds.wfd && KeepsDescriptor(c)), ostate := OutClosed)
  }

  function ChanWriteFailed(c: Chan): Effect {
    if c.ostate == OutClosed then Effect(c, [])
    else Effect(CloseOutput(c), if c.options.SendsEow() then [Eow] else [])
  }

  function ChanIbufEmpty(c: Chan): Effect {
    if c.input != [] || c.istate != InWaitDrain then Effect(c, [])
    else if c.flags.closeSent then Effect(c.(istate := InClosed), [])
    else Effect(c.(flags := c.flags.(eofSent := true), istate := InClosed), [Eof])
  }

  function ChanObufEmpty(c: Chan): Chan {
    if c.output != [] || c.ostate != OutWaitDrain then c else CloseOutput(c)
  }

  function ChanRcvdEof(c: Chan): Chan {
    var c := c.(flags := c.flags.(eofRcvd := true), ostate := if c.ostate == OutOpen then OutWaitDrain else c.ostate);
    if c.EfdOutputActive() then c else ChanObufEmpty(c)
  }

  function ChanRcvdClose(c: Chan): Effect {
    var flags := c.flags.(closeRcvd := true);
    if c.ctype == Larval then
      Effect(c.(flags := flags, ostate := OutClosed, istate := InClosed), [])
    else
      var ostate := if c.ostate == OutOpen then OutWaitDrain else c.ostate;
      match c.istate
      case InOpen =>
        Effect(c.(flags := flags, ostate := ostate, fds := FdsAfterReadShutdown(c), istate := InClosed), [])
      case InWaitDrain =>
        Effect(c.(flags := flags.(eofSent := true), ostate := ostate, istate := InClosed), [Eof])
      case InClosed =>
        Effect(c.(flags := flags, ostate := ostate), [])
  }

  function ChanRcvdEow(c: Chan): Chan {
    if c.istate == InOpen then c.(fds := FdsAfterReadShutdown(c), istate := InClosed) else c
  }

  /** `chan_is_dead(c, 1)`: an endpoint with both directions closed sends its CLOSE once. */
  function ChanCollect(c: Chan): Effect {
    if c.istate == InClosed && c.ostate == OutClosed && !c.flags.closeSent
    then Effect(c.(flags := c.flags.(closeSent := true)), [Close])
    else Effect(c, [])
  }

  /** Both CLOSEs have passed: the endpoint's record is freed. */
  predicate Freed(c: Chan) { c.flags.closeSent && c.flags.closeRcvd }

  // ---- channels.c ----

  /** `channel_tcpwinsz`: at most 64 MiB, and 0 when the socket does not tell. */
  function TcpWindow(onSocket: bool, answered: bool, rcvbuf: nat): (r: nat)
    ensures r <= BUFFER_MAX_LEN_HPN
  {
    if !onSocket then 128 * 1024
    else if !answered then 0
    else Min(rcvbuf, BUFFER_MAX_LEN_HPN)
  }

  /** `channel_pre_open`, less the descriptor sets. */
  function PreOpen(c: Chan, tcpwin: nat): Chan {
    if c.ctype != Open then c
    else
      var c := c.(tcpwinsz := if c.tcpwinsz == 0 || c.options.dynamicWindow then tcpwin else c.tcpwinsz);
      if c.EfdOutputActive() then c else ChanObufEmpty(c)
  }

  /** When `channel_pre_open` asks to read from the local side, up to the memory check. */
  predicate WantsRead(c: Chan) {
    && c.istate == InOpen
    && |c.input| < Min(c.win.remote, 2 * c.tcpwinsz)
  }

  function HandleRfd(c: Chan, r: ReadResult): Chan {
    if !c.fds.rfd || r.ReadAgain? then c
    else if r.ReadFailed? then ChanReadFailed(c)
    else c.(input := c.input + r.bytes)
  }

  function Consumed(w: Windows, n: nat): Windows { w.(consumed := Add32(w.consumed, n)) }

  function HandleWfd(c: Chan, w: WriteResult): Effect
    requires w.Wrote? ==> w.n <= |c.output|
  {
    if !c.fds.wfd || c.output == [] || w.WriteAgain? then Effect(c, [])
    else if w.WriteFailed? then ChanWriteFailed(c)
    else Effect(c.(output := c.output[w.n..], win := Consumed(c.win, w.n)), [])
  }

  /** The descriptor for stderr when received extended data is written to it. */
  function HandleEfdWrite(c: Chan, w: WriteResult): Chan
    requires w.Wrote? ==> w.n <= |c.extended|
  {
    if !c.fds.efd || c.fds.usage != ExtWrite || c.extended == [] || w.WriteAgain? then c
    else if w.WriteFailed? then c.(fds := c.fds.(efd := false))
    else c.(extended := c.extended[w.n..], win := Consumed(c.win, w.n))
  }

  /** The descriptor for stderr when local bytes are read from it. */
  function HandleEfdRead(c: Chan, r: ReadResult): Chan {
    if !c.fds.efd || c.fds.usage == ExtWrite || r.ReadAgain? then c
    else if r.ReadFailed? then c.(fds := c.fds.(efd := false))
    else if c.fds.usage == ExtIgnore then c
    else c.(extended := c.extended + r.bytes)
  }

  /** Whether `channel_check_window` replenishes the peer's window. */
  predicate WindowIsLow(c: Chan) {
    && c.ctype == Open
    && !c.flags.AnyClose()
    && (|| Sub32(c.win.localMax, c.win.local) > c.win.localMaxpacket * 3 % U32_RANGE
        || c.win.local < c.win.localMax / 2)
    && c.win.consumed > 0
  }

  /** Dynamic growth: one and a half times the distance to the socket buffer, rounded down. */
  function Growth(dynamicWindow: bool, tcpwinsz: nat, localMax: nat): nat {
    if dynamicWindow && tcpwinsz > localMax then 3 * (tcpwinsz - localMax) / 2 else 0
  }

  function CheckWindow(c: Chan): Effect {
    if !WindowIsLow(c) then Effect(c, [])
    else
      var growth := Growth(c.options.dynamicWindow, c.tcpwinsz, c.win.localMax);
      var credit := Add32(c.win.consumed, growth);
      Effect(
        c.(win := c.win.(localMax := Add32(c.win.localMax, growth), local := Add32(c.win.local, credit),
                         consumed := 0)),
        [Adjust(credit)])
  }

  /** How much of `available` bytes fits the peer's window and packet limit. */
  function SendLength(w: Windows, available: nat): (n: nat)
    ensures n <= available && n <= w.remote && n <= w.remoteMaxpacket
    ensures n == available || n == w.remote || n == w.remoteMaxpacket
  {
    Min(Min(available, w.remote), w.remoteMaxpacket)
  }

  function Spent(w: Windows, n: nat): Windows { w.(remote := Sub32(w.remote, n)) }

  /** The first half of `channel_output_poll`: ordinary data, or EOF once drained. */
  function PollInput(c: Chan): Effect {
    if c.istate != InClosed && c.input != [] then
      var n := SendLength(c.win, |c.input|);
      if n == 0 then Effect(c, [])
      else Effect(c.(input := c.input[n..], win := Spent(c.win, n)), [Data(c.input[..n])])
    else if c.istate == InWaitDrain && !c.EfdInputActive() then ChanIbufEmpty(c)
    else Effect(c, [])
  }

  /** The second half of `channel_output_poll`: stderr data. */
  function PollExtended(c: Chan): Effect {
    if !c.flags.eofSent && c.win.remote > 0 && c.extended != [] && c.fds.usage == ExtRead then
      var n := SendLength(c.win, |c.extended|);
      Effect(c.(extended := c.extended[n..], win := Spent(c.win, n)), [ExtData(STDERR_CODE, c.extended[..n])])
    else Effect(c, [])
  }

  function OutputPoll(c: Chan): Effect {
    if c.ctype != Open || c.flags.AnyClose() then Effect(c, [])
    else
      var first := PollInput(c);
      var second := PollExtended(first.c);
      Effect(second.c, first.sent + second.sent)
  }

  function SetFds(c: Chan, fds: Fds, windowMax: nat): Option<Effect> {
    if c.ctype != Larval then None
    else
      var w := c.win.(local := windowMax, localMax := windowMax);
      Some(Effect(c.(fds := fds, ctype := Open, win := w), [Adjust(windowMax)]))
  }

  /** The window after `n` received bytes. */
  function ChargedWindow(w: Windows, n: nat): Windows { w.(local := Sub32(w.local, n)) }

  function InputData(c: Chan, data: seq<Byte>): Chan {
    if c.ctype != Open then c
    else if c.ostate != OutOpen then c.(win := Consumed(ChargedWindow(c.win, |data|), |data|))
    else if |data| > c.win.local then c
    else c.(win := ChargedWindow(c.win, |data|), output := c.output + data)
  }

  function InputExtendedData(c: Chan, code: nat, data: seq<Byte>): Option<Effect> {
    if c.ctype != Open then Some(Effect(c, []))
    else if c.flags.eofRcvd then None
    else if !c.fds.efd || c.fds.usage != ExtWrite || code != STDERR_CODE then Some(Effect(c, []))
    else if |data| > c.win.local then Some(Effect(c, []))
    else Some(Effect(c.(win := ChargedWindow(c.win, |data|), extended := c.extended + data), []))
  }

  function InputEof(c: Chan): Effect {
    var c := ChanRcvdEof(c);
    if c.options.forceDrain && c.istate == InOpen then ChanIbufEmpty(c.(istate := InWaitDrain))
    else Effect(c, [])
  }

  function InputConfirm(c: Chan, window: nat, maxpacket: nat): Option<Effect> {
    if c.ctype != Opening then None
    else Some(Effect(c.(ctype := Open, win := c.win.(remote := window, remoteMaxpacket := maxpacket)), []))
  }

  function InputAdjust(c: Chan, credit: nat): Chan {
    c.(win := c.win.(remote := Add32(c.win.remote, credit)))
  }

  /** The dispatch of one received packet. */
  function Receive(c: Chan, m: Msg): Option<Effect> {
    match m
    case Confirm(window, maxpacket) => InputConfirm(c, window, maxpacket)
    case Data(data) => Some(Effect(InputData(c, data), []))
    case ExtData(code, data) => InputExtendedData(c, code, data)
    case Adjust(credit) => Some(Effect(InputAdjust(c, credit), []))
    case Eof => Some(InputEof(c))
    case Close => Some(ChanRcvdClose(c))
    case Eow => Some(Effect(ChanRcvdEow(c), []))
  }
}
