/**
 The channel record of channels.c and its handlers, which update it in place. Every handler is
 proved to compute the corresponding function of ChannelSpec.
 */
module ChannelObject {
  import opened Bytes
  import opened FifoBuffer
  import opened ChannelMemory
  import Spec = ChannelSpec
  import opened ChannelSpec

  class Channel {
    var ctype: ChanType
    var istate: InState
    var ostate: OutState
    var flags: Flags
    var fds: Fds
    const input: Buffer
    const output: Buffer
    const extended: Buffer
    var remoteWindow: nat
    var remoteMaxpacket: nat
    var localWindow: nat
    var localWindowMax: nat
    var localConsumed: nat
    var localMaxpacket: nat
    var tcpwinsz: nat
    var options: Options

    ghost predicate Valid()
      reads this, input, output, extended
    {
      && input != output && input != extended && output != extended
      && input.Valid() && output.Valid() && extended.Valid()
      && input.buf != output.buf && input.buf != extended.buf && output.buf != extended.buf
      && GetWindows().Fits() && tcpwinsz <= BUFFER_MAX_LEN_HPN
    }

    ghost function GetWindows(): Windows
      reads this
    {
      Windows(remoteWindow, remoteMaxpacket, localWindow, localWindowMax, localConsumed, localMaxpacket)
    }

    ghost function Repr(): set<object>
      reads this, input, output, extended
    {
      {this, input, output, extended, input.buf, output.buf, extended.buf}
    }

    /** The abstract state of this channel. */
    ghost function Model(): Chan
      requires Valid()
      reads this, input, output, extended, input.buf, output.buf, extended.buf
    {
      Chan(ctype, istate, ostate, flags, fds, input.Contents(), output.Contents(), extended.Contents(),
           GetWindows(), tcpwinsz, options)
    }

    /** The blocks behind its buffers. */
    ghost function GetMemory(): Memory
      requires Valid()
      reads this, input, output, extended
    {
      Memory(input.GetShape(), output.GetShape(), extended.GetShape())
    }

    /** `channel_new`: an open channel that has announced `window`. */
    constructor (ctype: ChanType, fds: Fds, window: nat, maxpack: nat, options: Options)
      requires window < U32_RANGE && maxpack < U32_RANGE
      ensures Valid() && fresh(Repr())
      ensures Model() == Chan(ctype, InOpen, OutOpen, Flags(false, false, false, false), fds, [], [], [],
                              Windows(0, 0, window, window, 0, maxpack), 0, options)
      ensures GetMemory() == NEW_MEMORY
    {
      this.ctype, this.istate, this.ostate := ctype, InOpen, OutOpen;
      this.flags := Flags(false, false, false, false);
      this.fds := fds;
      input := new Buffer();
      output := new Buffer();
      extended := new Buffer();
      remoteWindow, remoteMaxpacket := 0, 0;
      localWindow, localWindowMax, localConsumed := window, window, 0;
      localMaxpacket := maxpack;
      tcpwinsz := 0;
      this.options := options;
    }

    // ---- nchan.c ----

    method ShutdownWrite()
      requires Valid()
      modifies this`fds, output
      ensures Valid() && Repr() == old(Repr())
      ensures Model() == old(Model()).(
        output := [], fds := old(fds).(wfd := old(fds).wfd && KeepsDescriptor(old(Model()))))
      ensures GetMemory() == old(GetMemory()).(output := old(output.GetShape()).Cleared())
    {
      output.Clear();
      if !(ctype == Larval || fds.isSocket) {
        fds := fds.(wfd := false);
      }
    }

    method ShutdownRead()
      requires Valid()
      modifies this`fds
      ensures Valid() && Repr() == old(Repr())
      ensures Model() == old(Model()).(fds := FdsAfterReadShutdown(old(Model())))
    {
      if !(ctype == Larval || fds.isSocket) {
        fds := fds.(rfd := false);
      }
    }

    method ReadFailed()
      requires Valid()
      modifies this
      ensures Valid() && Repr() == old(Repr())
      ensures Model() == ChanReadFailed(old(Model()))
    {
      if istate == InOpen {
        ShutdownRead();
        istate := InWaitDrain;
      }
    }

    /** `chan_send_eow2`: only a peer that knows the packet gets it. */
    method SendEow() returns (sent: seq<Msg>)
      requires Valid()
      ensures sent == if options.newPeer && ostate != OutClosed then [Eow] else []
    {
      if ostate == OutClosed || !options.newPeer {
        return [];
      }
      return [Eow];
    }

    method WriteFailed() returns (sent: seq<Msg>)
      requires Valid()
      modifies this, output
      ensures Valid() && Repr() == old(Repr())
      ensures Effect(Model(), sent) == ChanWriteFailed(old(Model()))
      ensures GetMemory() == OutputClosed(old(GetMemory()), old(Model()), Model())
    {
      sent := [];
      if ostate != OutClosed {
        ShutdownWrite();
        if options.isSession {
          sent := SendEow();
        }
        ostate := OutClosed;
      }
    }

    method ObufEmpty()
      requires Valid()
      modifies this, output
      ensures Valid() && Repr() == old(Repr())
      ensures Model() == ChanObufEmpty(old(Model()))
      ensures GetMemory() == OutputClosed(old(GetMemory()), old(Model()), Model())
    {
      if output.Len() == 0 && ostate == OutWaitDrain {
        ShutdownWrite();
        ostate := OutClosed;
      }
    }

    method IbufEmpty() returns (sent: seq<Msg>)
      requires Valid()
      modifies this
      ensures Valid() && Repr() == old(Repr())
      ensures Effect(Model(), sent) == ChanIbufEmpty(old(Model()))
    {
      sent := [];
      if input.Len() == 0 && istate == InWaitDrain {
        if !flags.closeSent {
          sent := [Eof];
          flags := flags.(eofSent := true);
        }
        istate := InClosed;
      }
    }

    method RcvdEof()
      requires Valid()
      modifies this, output
      ensures Valid() && Repr() == old(Repr())
      ensures Model() == ChanRcvdEof(old(Model()))
      ensures GetMemory() == OutputClosed(old(GetMemory()), old(Model()), Model())
    {
      hide Buffer.Valid, Windows.Fits;
      flags := flags.(eofRcvd := true);
      if ostate == OutOpen {
        ostate := OutWaitDrain;
      }
      if ostate == OutWaitDrain && output.Len() == 0 && !EfdOutputActive() {
        ObufEmpty();
      }
    }

    predicate EfdOutputActive()
      requires extended.Valid()
      reads this, extended, extended.buf
      ensures Valid() ==> EfdOutputActive() == Model().EfdOutputActive()
    {
      fds.usage == ExtWrite && fds.efd && (!(flags.eofRcvd || flags.closeRcvd) || extended.Len() > 0)
    }

    method RcvdClose() returns (sent: seq<Msg>)
      requires Valid()
      modifies this
      ensures Valid() && Repr() == old(Repr())
      ensures Effect(Model(), sent) == ChanRcvdClose(old(Model()))
    {
      hide Buffer.Valid, Buffer.Contents, Windows.Fits;
      sent := [];
      flags := flags.(closeRcvd := true);
      if ctype == Larval {
        ostate := OutClosed;
        istate := InClosed;
        return;
      }
      if ostate == OutOpen {
        ostate := OutWaitDrain;
      }
      sent := CloseInput();
    }

    /** The input side of a received CLOSE; what was still to be sent is cut off by an EOF. */
    method CloseInput() returns (sent: seq<Msg>)
      requires Valid()
      modifies this`istate, this`flags, this`fds
      ensures Valid() && Repr() == old(Repr())
      ensures sent == if old(istate) == InWaitDrain then [Eof] else []
      ensures Model() == old(Model()).(
        istate := InClosed,
        flags := if old(istate) == InWaitDrain then old(flags).(eofSent := true) else old(flags),
        fds := if old(istate) == InOpen then FdsAfterReadShutdown(old(Model())) else old(fds))
    {
      hide Buffer.Valid, Buffer.Contents, Windows.Fits;
      sent := [];
      match istate {
        case InOpen =>
          ShutdownRead();
          istate := InClosed;
        case InWaitDrain =>
          sent := [Eof];
          flags := flags.(eofSent := true);
          istate := InClosed;
        case InClosed =>
      }
    }

    method RcvdEow()
      requires Valid()
      modifies this
      ensures Valid() && Repr() == old(Repr())
      ensures Model() == ChanRcvdEow(old(Model()))
    {
      if istate == InOpen {
        ShutdownRead();
        istate := InClosed;
      }
    }

    method Collect() returns (sent: seq<Msg>, dead: bool)
      requires Valid()
      modifies this
      ensures Valid() && Repr() == old(Repr())
      ensures Effect(Model(), sent) == ChanCollect(old(Model()))
      ensures dead == (Freed(Model()) && istate == InClosed && ostate == OutClosed)
    {
      sent := [];
      if istate != InClosed || ostate != OutClosed {
        return [], false;
      }
      if !flags.closeSent {
        sent := [Close];
        flags := flags.(closeSent := true);
      }
      dead := flags.closeSent && flags.closeRcvd;
    }
  
    // ---- channels.c ----

    /** Takes the socket buffer size, ends a drained output, and asks whether to read locally. */
    method PreOpen(tcpwin: nat) returns (readable: bool)
      requires Valid() && ctype == Open && tcpwin <= BUFFER_MAX_LEN_HPN
      modifies this, input, input.buf, output
      ensures Valid() && Repr() == old(Repr())
      ensures Model() == Spec.PreOpen(old(Model()), tcpwin)
      ensures GetMemory() == PreOpenMemory(old(GetMemory()), old(Model()), tcpwin)
      ensures readable
        == (&& istate == InOpen && |Model().input| < remoteWindow && |Model().input| < 2 * tcpwinsz
            && old(input.GetShape()).CheckSucceeds(16 * 1024))
      ensures tcpwinsz == if old(tcpwinsz) == 0 || options.dynamicWindow then tcpwin else old(tcpwinsz)
      ensures readable ==> forall n: nat | n <= CHAN_RBUF :: !input.GetShape().AppendIsFatal(n)
    {
      hide Shape.AppendIsFatal, Shape.CheckSucceeds, Buffer.Valid, Buffer.Contents, Windows.Fits;
      if tcpwinsz == 0 || options.dynamicWindow {
        tcpwinsz := tcpwin;
      }
      readable := MayRead();
      EndDrained();
    }

    /** A drained output is closed, unless stderr is still to come. */
    method EndDrained()
      requires Valid()
      modifies this, output
      ensures Valid() && Repr() == old(Repr())
      ensures Model() == if old(Model()).EfdOutputActive() then old(Model()) else ChanObufEmpty(old(Model()))
      ensures GetMemory() == OutputClosed(old(GetMemory()), old(Model()), Model())
    {
      hide Windows.Fits;
      if ostate == OutOpen || ostate == OutWaitDrain {
        if output.Len() == 0 && ostate == OutWaitDrain {
          if !EfdOutputActive() {
            ObufEmpty();
          }
        }
      }
    }

    /** Below the window and twice the socket buffer, a read is asked for if the buffer can take it. */
    method MayRead() returns (readable: bool)
      requires Valid()
      modifies input, input.buf
      ensures Valid() && Repr() == old(Repr()) && Model() == old(Model())
      ensures input.GetShape() == if WantsRead(Model()) then old(input.GetShape()).AfterCheck(CHAN_RBUF)
                                  else old(input.GetShape())
      ensures readable == (WantsRead(Model()) && old(input.GetShape()).CheckSucceeds(CHAN_RBUF))
      ensures readable ==> forall n: nat | n <= CHAN_RBUF :: !input.GetShape().AppendIsFatal(n)
    {
      hide Shape.AppendIsFatal, Shape.CheckSucceeds, Shape.AfterCheck;
      var limit := Min(remoteWindow, 2 * tcpwinsz);
      if istate == InOpen && limit > 0 && input.Len() < limit {
        CheckMeansAppend(input.GetShape(), CHAN_RBUF);
        readable := input.CheckAlloc(CHAN_RBUF);
        if readable {
          forall n: nat | n <= CHAN_RBUF ensures !input.GetShape().AppendIsFatal(n) {
            AppendMonotone(input.GetShape(), n, CHAN_RBUF);
          }
        }
      } else {
        readable := false;
      }
    }

    method HandleRfd(r: ReadResult) returns (fatal: bool)
      requires Valid() && (r.ReadBytes? ==> |r.bytes| <= CHAN_RBUF)
      modifies this, input, input.buf
      ensures Valid() && fresh(Repr() - old(Repr()))
      ensures fatal == ReadOverflows(old(GetMemory()), old(Model()), r)
      ensures !fatal ==> GetMemory() == ReadMemory(old(GetMemory()), old(Model()), r)
      ensures Model() == if fatal then old(Model()) else Spec.HandleRfd(old(Model()), r)
    {
      fatal := false;
      if fds.rfd {
        match r {
          case ReadAgain =>
          case ReadFailed => ReadFailed();
          case ReadBytes(bytes) => fatal := input.Append(bytes);
        }
      }
    }

    method HandleWfd(w: WriteResult) returns (sent: seq<Msg>)
      requires Valid() && (w.Wrote? ==> 1 <= w.n <= output.Len())
      modifies this, output
      ensures Valid() && Repr() == old(Repr())
      ensures Effect(Model(), sent) == Spec.HandleWfd(old(Model()), w)
      ensures GetMemory() == WriteMemory(old(GetMemory()), old(Model()), w)
    {
      sent := [];
      if fds.wfd && output.Len() > 0 {
        var olen := output.Len();
        match w {
          case WriteAgain => return;
          case WriteFailed =>
            sent := WriteFailed();
            return;
          case Wrote(n) =>
            var _ := output.ConsumeRet(n);
        }
        localConsumed := Add32(localConsumed, olen - output.Len());
      }
    }

    /** Both uses of the stderr descriptor; `w` and `r` are what it answers to a write or a read. */
    method HandleEfd(w: WriteResult, r: ReadResult) returns (fatal: bool)
      requires Valid() && (w.Wrote? ==> 1 <= w.n <= extended.Len()) && (r.ReadBytes? ==> |r.bytes| <= CHAN_RBUF)
      modifies this, extended, extended.buf
      ensures Valid() && fresh(Repr() - old(Repr()))
      ensures fatal == ErrReadOverflows(old(GetMemory()), old(Model()), r)
      ensures !fatal ==>
        GetMemory() == if old(fds).usage == ExtWrite then ErrWriteMemory(old(GetMemory()), old(Model()), w)
                       else ErrReadMemory(old(GetMemory()), old(Model()), r)
      ensures Model() == if fatal then old(Model())
                         else if old(fds).usage == ExtWrite then HandleEfdWrite(old(Model()), w)
                         else HandleEfdRead(old(Model()), r)
    {
      hide Buffer.Valid, Buffer.Contents, Shape.AppendIsFatal, Windows.Fits;
      fatal := false;
      if fds.efd {
        if fds.usage == ExtWrite {
          WriteErr(w);
        } else {
          fatal := ReadErr(r);
        }
      }
    }

    method WriteErr(w: WriteResult)
      requires Valid() && fds.efd && fds.usage == ExtWrite && (w.Wrote? ==> 1 <= w.n <= extended.Len())
      modifies this`fds, this`localConsumed, extended
      ensures Valid() && Repr() == old(Repr()) && Model() == HandleEfdWrite(old(Model()), w)
      ensures GetMemory() == ErrWriteMemory(old(GetMemory()), old(Model()), w)
    {
      if extended.Len() > 0 {
        match w {
          case WriteAgain => return;
          case WriteFailed => fds := fds.(efd := false);
          case Wrote(n) =>
            var _ := extended.ConsumeRet(n);
            localConsumed := Add32(localConsumed, n);
        }
      }
    }

    method ReadErr(r: ReadResult) returns (fatal: bool)
      requires Valid() && fds.efd && fds.usage != ExtWrite && (r.ReadBytes? ==> |r.bytes| <= CHAN_RBUF)
      modifies this`fds, extended, extended.buf
      ensures Valid() && fresh(Repr() - old(Repr()))
      ensures fatal == ErrReadOverflows(old(GetMemory()), old(Model()), r)
      ensures !fatal ==> GetMemory() == ErrReadMemory(old(GetMemory()), old(Model()), r)
      ensures Model() == if fatal then old(Model()) else HandleEfdRead(old(Model()), r)
    {
      fatal := false;
      match r {
        case ReadAgain => return;
        case ReadFailed => fds := fds.(efd := false);
        case ReadBytes(bytes) =>
          if fds.usage != ExtIgnore {
            fatal := extended.Append(bytes);
          }
      }
    }

    method CheckWindow() returns (sent: seq<Msg>)
      requires Valid()
      modifies this
      ensures Valid() && Repr() == old(Repr())
      ensures Effect(Model(), sent) == Spec.CheckWindow(old(Model()))
    {
      hide Buffer.Valid, Buffer.Contents;
      sent := [];
      assert Add32(localWindowMax, 0) == localWindowMax;
      if && ctype == Open
         && !flags.AnyClose()
         && (|| Sub32(localWindowMax, localWindow) > localMaxpacket * 3 % U32_RANGE
             || localWindow < localWindowMax / 2)
         && localConsumed > 0
      {
        var addition := 0;
        if options.dynamicWindow && tcpwinsz > localWindowMax {
          addition := 3 * (tcpwinsz - localWindowMax) / 2;
          localWindowMax := Add32(localWindowMax, addition);
        }
        sent := [Adjust(Add32(localConsumed, addition))];
        localWindow := Add32(localWindow, Add32(localConsumed, addition));
        localConsumed := 0;
      }
    }

    /** The part of `channel_output_poll` for this channel. */
    method OutputPoll() returns (sent: seq<Msg>)
      requires Valid()
      modifies this, input, extended
      ensures Valid() && Repr() == old(Repr())
      ensures Effect(Model(), sent) == Spec.OutputPoll(old(Model()))
      ensures input.Len() <= old(input.Len()) && extended.Len() <= old(extended.Len())
      ensures GetMemory() == PollMemory(old(GetMemory()), old(Model()), Model())
    {
      if ctype != Open || flags.AnyClose() {
        return [];
      }
      sent := PollInput();
      var more := PollExtended();
      sent := sent + more;
    }

    method PollInput() returns (sent: seq<Msg>)
      requires Valid()
      modifies this, input
      ensures Valid() && Repr() == old(Repr())
      ensures Effect(Model(), sent) == Spec.PollInput(old(Model()))
      ensures input.Len() <= old(input.Len())
      ensures input.GetShape() == Taken(old(input.GetShape()), old(input.Len()) - input.Len())
    {
      hide Buffer.Valid, Buffer.Contents, Windows.Fits, Taken;
      sent := [];
      var len := input.Len();
      if (istate == InOpen || istate == InWaitDrain) && len > 0 {
        if len > remoteWindow {
          len := remoteWindow;
        }
        if len > remoteMaxpacket {
          len := remoteMaxpacket;
        }
        if len > 0 {
          sent := SendInput(len);
        }
      } else if istate == InWaitDrain {
        if !(fds.usage == ExtRead && (fds.efd || extended.Len() > 0)) {
          sent := IbufEmpty();
        }
      }
    }

    /** Takes `len` bytes off the input and sends them. */
    method SendInput(len: nat) returns (sent: seq<Msg>)
      requires Valid() && len <= input.Len() && len <= remoteWindow
      modifies this`remoteWindow, input
      ensures Valid() && Repr() == old(Repr()) && sent == [Data(old(Model()).input[..len])]
      ensures Model() == old(Model()).(input := old(Model()).input[len..], win := Spent(old(GetWindows()), len))
      ensures input.GetShape() == Taken(old(input.GetShape()), len)
    {
      hide Buffer.Valid;
      var _, data := input.GetRet(len);
      sent := [Data(data)];
      remoteWindow := Sub32(remoteWindow, len);
    }

    method PollExtended() returns (sent: seq<Msg>)
      requires Valid()
      modifies this, extended
      ensures Valid() && Repr() == old(Repr())
      ensures Effect(Model(), sent) == Spec.PollExtended(old(Model()))
      ensures extended.Len() <= old(extended.Len())
      ensures extended.GetShape() == Taken(old(extended.GetShape()), old(extended.Len()) - extended.Len())
    {
      sent := [];
      if !flags.eofSent && remoteWindow > 0 && extended.Len() > 0 && fds.usage == ExtRead {
        var len := extended.Len();
        if len > remoteWindow {
          len := remoteWindow;
        }
        if len > remoteMaxpacket {
          len := remoteMaxpacket;
        }
        var _, data := extended.GetRet(len);
        sent := [ExtData(STDERR_CODE, data)];
        remoteWindow := Sub32(remoteWindow, len);
      }
    }

    /** Gives a larval session its descriptors and its window. */
    method SetFds(fds: Fds, windowMax: nat) returns (fatal: bool, sent: seq<Msg>)
      requires Valid() && windowMax < U32_RANGE
      modifies this
      ensures Valid() && Repr() == old(Repr())
      ensures fatal == Spec.SetFds(old(Model()), fds, windowMax).None?
      ensures !fatal ==> Spec.SetFds(old(Model()), fds, windowMax) == Some(Effect(Model(), sent))
    {
      hide Buffer.Valid, Buffer.Contents;
      if ctype != Larval {
        return true, [];
      }
      this.fds := fds;
      ctype := Open;
      localWindow, localWindowMax := windowMax, windowMax;
      return false, [Adjust(localWindow)];
    }

    method InputData(data: seq<Byte>) returns (fatal: bool)
      requires Valid() && |data| < U32_RANGE
      modifies this, output, output.buf
      ensures Valid() && fresh(Repr() - old(Repr()))
      ensures fatal == ReceiveOverflows(old(GetMemory()), old(Model()), Data(data))
      ensures !fatal ==> GetMemory() == ReceiveMemory(old(GetMemory()), old(Model()), Data(data))
      ensures Model() == if fatal then old(Model()).(win := ChargedWindow(old(Model()).win, |data|))
                         else Spec.InputData(old(Model()), data)
    {
      if ctype != Open {
        return false;
      }
      if ostate != OutOpen {
        localWindow := Sub32(localWindow, |data|);
        localConsumed := Add32(localConsumed, |data|);
        return false;
      }
      if |data| > localWindow {
        return false;
      }
      localWindow := Sub32(localWindow, |data|);
      fatal := output.Append(data);
    }

    method InputExtendedData(code: nat, data: seq<Byte>) returns (disconnect: bool, fatal: bool)
      requires Valid() && |data| < U32_RANGE
      modifies this, extended, extended.buf
      ensures Valid() && fresh(Repr() - old(Repr()))
      ensures disconnect == Spec.InputExtendedData(old(Model()), code, data).None?
      ensures fatal == ReceiveOverflows(old(GetMemory()), old(Model()), ExtData(code, data))
      ensures !fatal ==> GetMemory() == ReceiveMemory(old(GetMemory()), old(Model()), ExtData(code, data))
      ensures !disconnect && !fatal ==> Spec.InputExtendedData(old(Model()), code, data) == Some(Effect(Model(), []))
    {
      disconnect, fatal := false, false;
      if ctype != Open {
        return;
      }
      if flags.eofRcvd {
        return true, false;
      }
      if !fds.efd || fds.usage != ExtWrite || code != STDERR_CODE {
        return;
      }
      if |data| > localWindow {
        return;
      }
      localWindow := Sub32(localWindow, |data|);
      fatal := extended.Append(data);
    }

    method InputEof() returns (sent: seq<Msg>)
      requires Valid()
      modifies this, output
      ensures Valid() && Repr() == old(Repr())
      ensures Effect(Model(), sent) == Spec.InputEof(old(Model()))
      ensures GetMemory() == ReceiveMemory(old(GetMemory()), old(Model()), Eof)
    {
      hide Buffer.Valid, Buffer.Contents, Windows.Fits;
      sent := [];
      RcvdEof();
      if options.forceDrain && istate == InOpen {
        istate := InWaitDrain;
        if input.Len() == 0 {
          sent := IbufEmpty();
        }
      }
    }

    method InputWindowAdjust(credit: nat)
      requires Valid()
      modifies this
      ensures Valid() && Repr() == old(Repr())
      ensures Model() == InputAdjust(old(Model()), credit)
    {
      remoteWindow := Add32(remoteWindow, credit);
    }

    method InputOpenConfirmation(window: nat, maxpacket: nat) returns (disconnect: bool)
      requires Valid() && window < U32_RANGE && maxpacket < U32_RANGE
      modifies this
      ensures Valid() && Repr() == old(Repr())
      ensures disconnect == InputConfirm(old(Model()), window, maxpacket).None?
      ensures !disconnect ==> InputConfirm(old(Model()), window, maxpacket) == Some(Effect(Model(), []))
    {
      if ctype != Opening {
        return true;
      }
      ctype := Open;
      remoteWindow := window;
      remoteMaxpacket := maxpacket;
      return false;
    }
  }
}
