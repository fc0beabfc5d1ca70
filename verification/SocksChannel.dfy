/**
 The dynamic channel of channels.c, whose decoders scan and consume its input buffer in place. The
 buffer's contents are sequences here; module FifoBuffer shows that the buffers behave so.
 */
module SocksChannel {
  import opened Bytes
  import opened Socks

  class DynamicChannel {
    var input: seq<Byte>
    var output: seq<Byte>
    var authDone: bool
    var path: Host
    var hostPort: nat
    var verdict: Verdict

    ghost function Model(): Dyn
      reads this
    {
      Dyn(input, output, authDone, path, hostPort, verdict)
    }

    constructor ()
      ensures Model() == Fresh([])
    {
      input, output, authDone, path, hostPort, verdict := [], [], false, NoHost, 0, NeedMore;
    }

    method Arrive(bytes: seq<Byte>)
      modifies this
      ensures Model() == Feed(old(Model()), bytes)
    {
      input := input + bytes;
    }

    /** The scan for the terminators: 1 when all are there, 0 for more input, -1 for garbage. */
    method ScanForStrings(need: nat) returns (found: int)
      requires |input| >= HEADER4 && need == (if Is4A(input) then 2 else 1)
      ensures found == match ScanStrings(input) case Complete => 1 case Incomplete => 0 case TooLong => -1
    {
      var seen, i := 0, HEADER4;
      ghost var user := HEADER4 + StrLen(input, HEADER4);
      while i < |input|
        invariant HEADER4 <= i <= |input| && i <= SCAN_LIMIT + 1
        invariant seen < need
        invariant i <= LastNul(input)
        invariant seen == 0 ==> i <= user && NulFree(input[HEADER4..i])
        invariant seen == 1 ==> user < i && NulFree(input[user + 1..i])
      {
        if input[i] == 0 {
          seen := seen + 1;
          if seen == need {
            return 1;
          }
        }
        if i > SCAN_LIMIT {
          return -1;
        }
        ExtendNulFree(input, if seen == 0 then HEADER4 else user + 1, i);
        i := i + 1;
      }
      return 0;
    }
  
    /** Takes a C string off the input, by `strlen` and `buffer_consume`; its terminator is at `end`. */
    method TakeString(ghost end: nat) returns (text: seq<Byte>)
      requires end < |input| && input[end] == 0 && NulFree(input[..end])
      modifies this`input
      ensures text == old(input)[..end] && input == old(input)[end + 1..]
    {
      var n := 0;
      while input[n] != 0
        invariant input == old(input) && n <= end
        decreases |input| - n
      {
        n := n + 1;
      }
      assert forall k :: 0 <= k < end ==> input[..end][k] == input[k];
      text := input[..n];
      input := input[n + 1..];
    }

    /** Decodes a version 4 header; 1 when accepted, 0 for more input, -1 when rejected. */
    method DecodeSocks4() returns (ret: int)
      requires verdict == NeedMore
      modifies this
      ensures Model() == Decode4(old(Model())).(verdict := NeedMore)
      ensures ret == Return(Decode4(old(Model())).verdict)
    {
      if |input| < HEADER4 {
        return 0;
      }
      var need := 1;
      if input[4] == 0 && input[5] == 0 && input[6] == 0 && input[7] != 0 {
        need := 2;
      }
      var found := ScanForStrings(need);
      if found != 1 {
        return found;
      }
      ret := TakeRequest4(need);
    }

    /** Consumes the header and the strings behind it, and sets the host. */
    method TakeHost4(need: nat, ghost user: nat, ghost end: nat)
      requires |input| >= HEADER4 && ScanStrings(input) == Complete && need == (if Is4A(input) then 2 else 1)
      requires user == HEADER4 + StrLen(input, HEADER4) && end == LastNul(input)
      modifies this`input, this`path
      ensures user <= end < |old(input)| && (need == 2 ==> user < end)
      ensures input == old(input)[end + 1..]
      ensures path == if need == 2 then Name(old(input)[user + 1..end]) else IPv4(old(input)[4..8])
    {
      hide StrLen, LastNul, ScanStrings, NulFree, Is4A;
      ghost var p := input;
      StringsAfterHeader(p);
      StringInDrop(p, HEADER4, user);
      var addr := input[4..8];
      input := input[HEADER4..];
      var _ := TakeString(user - HEADER4);
      path := NoHost;
      if need == 1 {
        path := IPv4(addr);
      } else {
        StringInDrop(p, user + 1, end);
        var name := TakeString(end - (user + 1));
        // The source rejects a name of more than NI_MAXHOST bytes with its terminator here, which
        // the limit on the scan has already ruled out.
        assert |name| + 1 <= NI_MAXHOST;
        path := Name(name);
      }
    }

    /** Consumes a complete version 4 request from the input. */
    method TakeRequest4(need: nat) returns (ret: int)
      requires verdict == NeedMore && |input| >= HEADER4
      requires ScanStrings(input) == Complete && need == (if Is4A(input) then 2 else 1)
      modifies this
      ensures Model() == Decode4(old(Model())).(verdict := NeedMore)
      ensures ret == Return(Decode4(old(Model())).verdict)
    {
      hide StrLen, LastNul, ScanStrings, Decode4, NulFree, Is4A, Port;
      ghost var user, end := HEADER4 + StrLen(input, HEADER4), LastNul(input);
      DecodeComplete(Model(), user, end);
      var command, port := input[1], Port(input[2], input[3]);
      TakeHost4(need, user, end);
      hostPort := port;
      if command != 1 {
        return -1;
      }
      output := output + GRANTED4;
      return 1;
    }

    /** Decodes a version 5 greeting or request. */
    method DecodeSocks5() returns (ret: int)
      requires verdict == NeedMore && |input| >= 1
      modifies this
      ensures Model() == Decode5(old(Model())).(verdict := NeedMore)
      ensures ret == Return(Decode5(old(Model())).verdict)
    {
      if input[0] != 5 {
        return -1;
      }
      if authDone {
        ret := DecodeRequest5();
      } else {
        ret := DecodeGreeting5();
      }
    }

    method DecodeGreeting5() returns (ret: int)
      requires verdict == NeedMore && |input| >= 1 && input[0] == 5 && !authDone
      modifies this
      ensures Model() == Decode5(old(Model())).(verdict := NeedMore)
      ensures ret == Return(Decode5(old(Model())).verdict)
    {
      ghost var p := input;
      if |input| < 2 {
        return 0;
      }
      var nmethods: nat := input[1];
      if |input| < nmethods + 2 {
        return 0;
      }
      var found := false;
      for i := 2 to nmethods + 2
        invariant !found && 0 !in p[2..i]
        invariant Model() == old(Model())
      {
        if input[i] == 0 {
          found := true;
          assert p[2..nmethods + 2][i - 2] == 0;
          break;
        }
      }
      if !found {
        return -1;
      }
      input := input[nmethods + 2..];
      output := output + NO_AUTH5;
      authDone := true;
      return 0;
    }

    method DecodeRequest5() returns (ret: int)
      requires verdict == NeedMore && |input| >= 1 && input[0] == 5 && authDone
      modifies this
      ensures Model() == Decode5(old(Model())).(verdict := NeedMore)
      ensures ret == Return(Decode5(old(Model())).verdict)
    {
      hide CString;
      ghost var p := input;
      if |input| < 5 {
        return 0;
      }
      if input[1] != 1 || input[2] != 0 {
        return -1;
      }
      var atyp := input[3];
      var addrlen: nat;
      match atyp {
        case 1 => addrlen := 4;
        case 3 => addrlen := input[4];
        case 4 => addrlen := 16;
        case _ => return -1;
      }
      var need := 4 + addrlen + 2;
      if atyp == 3 {
        need := need + 1;
      }
      if |input| < need {
        return 0;
      }
      input := input[4..];
      if atyp == 3 {
        input := input[1..];
      }
      ghost var start: nat := if atyp == 3 then 5 else 4;
      assert input == p[start..];
      var addr, port := input[..addrlen], Port(input[addrlen], input[addrlen + 1]);
      input := input[addrlen + 2..];
      assert addr == p[start..start + addrlen] && input == p[start + addrlen + 2..];
      match atyp {
        case 1 => path := IPv4(addr);
        case 4 => path := IPv6(addr);
        case _ => path := Name(CString(addr));
      }
      hostPort := port;
      output := output + SUCCESS5;
      return 1;
    }

    /** `channel_pre_dynamic`, short of connecting onwards. */
    method PreDynamic()
      requires verdict == NeedMore
      modifies this
      ensures Model() == Poll(old(Model()))
    {
      if |input| < 3 {
        return;
      }
      var ret;
      match input[0] {
        case 4 => ret := DecodeSocks4();
        case 5 => ret := DecodeSocks5();
        case _ => ret := -1;
      }
      if ret < 0 {
        verdict := Reject;
      } else if ret > 0 {
        verdict := Accept;
      }
    }
  }

  function Return(v: Verdict): int {
    match v case Accept => 1 case NeedMore => 0 case Reject => -1
  }

  lemma ExtendNulFree(s: seq<Byte>, a: nat, i: nat)
    requires i < |s|
    ensures a <= i && NulFree(s[a..i]) && s[i] != 0 ==> NulFree(s[a..i + 1])
    ensures a == i + 1 ==> NulFree(s[a..i + 1])
  {
    assert a <= i ==> s[a..i + 1] == s[a..i] + [s[i]];
  }

  lemma StringsAfterHeader(p: seq<Byte>)
    requires |p| >= HEADER4 && ScanStrings(p) == Complete
    ensures var user, end := HEADER4 + StrLen(p, HEADER4), LastNul(p);
      && user <= end < |p| && end <= SCAN_LIMIT + 1
      && NulFree(p[HEADER4..user]) && p[user] == 0 && p[end] == 0
      && if Is4A(p) then user < end && NulFree(p[user + 1..end]) else user == end
  {
    hide StrLen, NulFree;
  }

  /** A string that starts at `start` is the first one of what is left there. */
  lemma StringInDrop(p: seq<Byte>, start: nat, end: nat)
    requires start <= end < |p| && p[end] == 0
    ensures var t, n := p[start..], end - start;
      && n < |t| && t[n] == 0 && t[..n] == p[start..end] && t[n + 1..] == p[end + 1..]
  {
  }
}
