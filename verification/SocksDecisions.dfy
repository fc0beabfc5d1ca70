/**
 Which byte streams leave the SOCKS decoder waiting for more, and which it rejects, by their bytes alone.
 */
module SocksDecisions {
  import opened Bytes
  import opened Socks

  /** The string from `p` on has no terminator yet. */
  predicate Unended(s: seq<Byte>, p: nat) { p <= |s| && NulFree(s[p..]) }

  /** The string from `p` on ends at `e`. */
  predicate EndsAt(s: seq<Byte>, p: nat, e: nat) { p <= e < |s| && NulFree(s[p..e]) && s[e] == 0 }

  /** A version 4 request with a string that may still end: the user's, or with 4A the host's name behind it. */
  ghost predicate Pending4(s: seq<Byte>) {
    || |s| < 8
    || (&& |s| <= 1025
        && (|| Unended(s, 8)
            || (s[4] == 0 && s[5] == 0 && s[6] == 0 && s[7] != 0
                && exists e: nat :: EndsAt(s, 8, e) && Unended(s, e + 1))))
  }

  /** A version 5 request of which there is not all, and nothing wrong so far. */
  predicate Pending5(s: seq<Byte>) {
    || |s| < 5
    || (&& s[1] == 1 && s[2] == 0
        && (|| (s[3] == 1 && |s| < 4 + 4 + 2)
            || (s[3] == 3 && |s| - 5 - 2 < s[4])
            || (s[3] == 4 && |s| < 4 + 16 + 2)))
  }

  ghost predicate PendingRequest(s: seq<Byte>, greeted: bool) {
    |s| < 3 || (s[0] == 4 && Pending4(s)) || (greeted && s[0] == 5 && Pending5(s))
  }

  /** A stream that needs more, with nothing wrong so far: in its greeting, or in a request. */
  ghost predicate Pending(s: seq<Byte>) {
    || PendingRequest(s, false)
    || (&& s[0] == 5
        && (|| |s| - 2 < s[1]
            || (var n: nat := s[1]; 0 in s[2..2 + n] && PendingRequest(s[2 + n..], true))))
  }

  lemma ScanMeaning(s: seq<Byte>)
    requires |s| >= 8
    ensures ScanStrings(s) == Incomplete <==> Pending4(s)
  {
    var user := HEADER4 + StrLen(s, HEADER4);
    StringMeaning(s, HEADER4);
    hide StrLen, NulFree;
    if Is4A(s) && user < |s| {
      StringMeaning(s, user + 1);
    }
  }

  lemma StringMeaning(s: seq<Byte>, p: nat)
    requires p <= |s|
    ensures var e := p + StrLen(s, p);
      && (e == |s| <==> Unended(s, p))
      && (e < |s| ==> EndsAt(s, p, e) && !Unended(s, p))
      && forall k: nat :: EndsAt(s, p, k) ==> k == e
  {
    var e := p + StrLen(s, p);
    if e < |s| {
      assert s[p..][e - p] == 0;
    }
    assert s[p..|s|] == s[p..];
    forall k: nat | EndsAt(s, p, k) ensures k == e {
      SameEnd(s, p, e, k);
      SameEnd(s, p, k, e);
    }
  }

  /** A string does not go on behind its terminator. */
  lemma SameEnd(s: seq<Byte>, p: nat, e: nat, k: nat)
    requires p <= k <= |s| && NulFree(s[p..k]) && p <= e < |s| && s[e] == 0
    ensures k <= e
  {
    assert forall i :: 0 <= i < k - p ==> s[p..k][i] == s[p + i];
    assert forall i :: p <= i < k ==> s[i] == s[p..k][i - p] && s[i] in s[p..k];
  }

  /** One call waits exactly for a request that is pending, where no greeting is to be taken. */
  lemma RequestWaits(d: Dyn)
    requires d.verdict == NeedMore && (d.authDone || d.input == [] || d.input[0] != 5 || |d.input| < 3)
    ensures Poll(d).verdict == NeedMore <==> PendingRequest(d.input, d.authDone)
    ensures !d.authDone ==> !Poll(d).authDone
  {
    hide StrLen, LastNul, Is4A, CString, Pending4, ScanStrings;
    if |d.input| >= 8 {
      ScanMeaning(d.input);
    }
    ShortWaits(d.input);
  }

  lemma ShortWaits(s: seq<Byte>)
    ensures |s| < 8 ==> Pending4(s)
  {
  }

  /** A call on a greeting takes it, waits for the rest of it, or rejects it. */
  lemma GreetingWaits(s: seq<Byte>)
    requires |s| >= 3 && s[0] == 5
    ensures var d, n := Poll(Fresh(s)), 2 + s[1] as nat;
      if |s| < n then d == Fresh(s)
      else if 0 in s[2..n] then d == Dyn(s[n..], [5, 0], true, NoHost, 0, NeedMore)
      else d.verdict == Reject
  {
    hide Decode4;
  }

  /** The whole stream at once, where it begins with a greeting and where not. */
  lemma GreetedWaits(s: seq<Byte>)
    requires |s| >= 3 && s[0] == 5
    ensures Quiesce(Fresh(s)).verdict == NeedMore <==> Pending(s)
  {
    hide Poll, PendingRequest;
    GreetingWaits(s);
    VersionFive(s);
    var n := 2 + s[1] as nat;
    if |s| >= n && 0 in s[2..n] {
      RequestWaits(Dyn(s[n..], [5, 0], true, NoHost, 0, NeedMore));
    }
  }

  lemma PlainWaits(s: seq<Byte>)
    requires |s| < 3 || s[0] != 5
    ensures Quiesce(Fresh(s)).verdict == NeedMore <==> Pending(s)
  {
    hide Poll, PendingRequest;
    RequestWaits(Fresh(s));
    OtherVersion(s);
  }

  /** The decoder waits for more exactly while the stream is pending. */
  lemma UndecidedExactly(actions: seq<Action>)
    ensures Quiesce(Run(Fresh([]), actions)).verdict == NeedMore <==> Pending(Arrived(actions))
  {
    hide Quiesce, Pending;
    FragmentationInsensitive(Fresh([]), actions);
    var s := Arrived(actions);
    assert [] + s == s;
    if |s| >= 3 && s[0] == 5 {
      GreetedWaits(s);
    } else {
      PlainWaits(s);
    }
  }

  lemma VersionFive(s: seq<Byte>)
    requires |s| >= 3 && s[0] == 5
    ensures !PendingRequest(s, false)
  {
  }

  lemma OtherVersion(s: seq<Byte>)
    requires |s| < 3 || s[0] != 5
    ensures Pending(s) <==> PendingRequest(s, false)
  {
    hide Pending4;
  }

  /** Exactly the streams that neither begin with a handshake nor are pending are rejected. */
  lemma RejectedExactly(actions: seq<Action>)
    ensures Quiesce(Run(Fresh([]), actions)).verdict == Reject
      <==> !Pending(Arrived(actions)) && !exists methods, r, rest :: Handshake(Arrived(actions), methods, r, rest)
  {
    hide Pending, Handshake, Quiesce, Run;
    UndecidedExactly(actions);
    forall methods, r, rest | Handshake(Arrived(actions), methods, r, rest)
      ensures Quiesce(Run(Fresh([]), actions)).verdict == Accept
    {
      HandshakeAccepted(actions, methods, r, rest);
    }
    if Quiesce(Run(Fresh([]), actions)).verdict == Accept {
      var methods, r, rest := AcceptedIsHandshake(actions);
    }
  }

  /** After the greeting and as many bytes as the longest request, everything is decided. */
  lemma PendingIsShort(s: seq<Byte>)
    requires Pending(s)
    ensures |s| <= 2 + 255 + 1025
  {
    hide NulFree;
  }
}
