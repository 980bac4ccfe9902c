/**
  The router as seen from the two interfaces: which bytes arrive, which bytes leave, and where. The
  statements are about bytes at fixed offsets, addresses and ports, not about parsed frames.
 */
module Wire {
  import opened Bytes
  import opened Router
  import Arp
  import C = Checksum
  import Ip
  import IpTheorems

  // ---------------------------------------------------------------- what a frame is, by its bytes

  predicate ArpBytes(s: seq<byte>) {
    |s| >= 14 && s[12..14] == [8, 6]
  }

  predicate IpBytes(s: seq<byte>) {
    |s| >= 14 && s[12..14] == [8, 0]
  }

  /** Where the IP header ends, by its length field. */
  function HeaderEnd(s: seq<byte>): nat
    requires |s| >= 34
  {
    14 + s[14] % 0x10 * 4
  }

  /** Where the datagram ends, by its total length. */
  function DatagramEnd(s: seq<byte>): nat
    requires |s| >= 34
  {
    14 + 0x100 * (s[16] as int) + s[17] as int
  }

  /** The 16-bit word at an offset. */
  function Word(s: seq<byte>, i: nat): u16
    requires i + 1 < |s|
  {
    0x100 * (s[i] as int) + s[i + 1] as int
  }

  /** An ICMP message to 192.168.1.1 or 192.168.2.1. */
  predicate ForGateway(s: seq<byte>)
    requires |s| >= 34
  {
    s[23] == 1 && (s[30..34] == [192, 168, 1, 1] || s[30..34] == [192, 168, 2, 1])
  }

  /** An echo request among these. */
  predicate IsPing(s: seq<byte>)
    requires |s| >= 34
  {
    ForGateway(s) && HeaderEnd(s) < |s| && s[HeaderEnd(s)] == 8
  }

  lemma Kinds(s: seq<byte>)
    ensures IsArp(s) <==> ArpBytes(s)
    ensures IsIp(s) <==> IpBytes(s)
  {
    if |s| >= 14 { assert s[12..14] == [s[12], s[13]]; }
  }

  lemma ParsedKinds(s: seq<byte>)
    requires Ip.Parsable(s)
    ensures var f := Ip.Parse(s);
            && Ip.ETH_SIZE + Ip.HeaderLen(s[14]) == HeaderEnd(s) && f.ttl == s[22] && f.protocol == s[23]
            && (Ip.ToGateway(f) <==> ForGateway(s)) && (Ip.IsEchoRequest(f) <==> IsPing(s))
            && Ip.IcmpLen(f) == DatagramEnd(s) - HeaderEnd(s) && |f.rest| == |s| - HeaderEnd(s)
  {
    assert s[16..18] == [s[16], s[17]];
  }

  /** The frames considered: those in which everything the handlers read is there. */
  lemma WellFormedBytes(s: seq<byte>)
    ensures WellFormed(s) <==>
            && |s| <= 2048
            && (ArpBytes(s) ==> |s| >= 42)
            && (IpBytes(s) ==>
                  |s| >= 34 && 34 <= HeaderEnd(s) <= |s|
                  && (ForGateway(s) ==> HeaderEnd(s) + 8 <= DatagramEnd(s) <= |s|))
  {
    Kinds(s);
    hide Ip.ToGateway, Ip.IcmpLen, Ip.IsEchoRequest, ForGateway, DatagramEnd;
    if Ip.Parsable(s) { ParsedKinds(s); }
  }

  // ---------------------------------------------------------------- what leaves

  /** The answer to a ping: addresses exchanged, the message an echo reply, both checksums right for
      what the lengths in the header say they cover, and every other byte as it came. */
  predicate IsPong(s: seq<byte>, r: seq<byte>, mac: seq<byte>)
    requires |s| >= 34 && 34 <= HeaderEnd(s) && HeaderEnd(s) + 8 <= DatagramEnd(s) <= |s|
  {
    var m := HeaderEnd(s);
    && |r| == |s|
    && r[..6] == s[6..12] && r[6..12] == mac && r[12..24] == s[12..24]
    && r[26..30] == s[30..34] && r[30..34] == s[26..30] && r[34..m] == s[34..m]
    && r[m] == 0 && r[m + 1] == s[m + 1] && r[m + 4..] == s[m + 4..]
    && C.Verifies(r[14..m]) && C.Verifies(r[m..DatagramEnd(s)])
  }

  /** What is sent on: time to live one less, header checksum right, addressed to everyone on the link,
      and every other byte as it came. */
  predicate IsSentOn(s: seq<byte>, r: seq<byte>, mac: seq<byte>)
    requires |s| >= 34 && 34 <= HeaderEnd(s) <= |s|
  {
    && |r| == |s|
    && r[..6] == [0xFF, 0xFF, 0xFF, 0xFF, 0xFF, 0xFF] && r[6..12] == mac && r[12..22] == s[12..22]
    && s[22] > 0 && r[22] == s[22] - 1 && r[23] == s[23] && r[26..] == s[26..]
    && C.Verifies(r[14..HeaderEnd(s)])
  }

  /** A parsed frame, rewritten with its lengths kept, as bytes again. */
  lemma Rewritten(s: seq<byte>, g: Ip.IpFrame)
    requires Ip.Parsable(s) && Ip.Sized(g) && g.verIhl == s[14] && |g.rest| == |s| - HeaderEnd(s)
    ensures var r := Ip.Serialize(g);
            && |r| == |s| && Ip.Parsable(r) && Ip.Parse(r) == g && HeaderEnd(r) == HeaderEnd(s)
            && Ip.Header(g) == r[14..HeaderEnd(s)] && g.rest == r[HeaderEnd(s)..] && Number(g.sum) == Word(r, 24)
  {
    var r := Ip.Serialize(g);
    Ip.ParseSerialize(g);
    Ip.SerializeParse(s);
    SameLength(s, Ip.Parse(s), g);
    Ip.SerializeParse(r);
    hide Ip.Serialize, Ip.Header;
  }

  lemma PongVerifies(s: seq<byte>, mac: seq<byte>)
    requires Ip.WellFormed(s) && IsPing(s) && |mac| == 6
    ensures ForGateway(s) && HeaderEnd(s) + 8 <= DatagramEnd(s) <= |s|
    ensures Ip.IsEchoRequest(Ip.Parse(s)) && Ip.Repliable(Ip.Parse(s))
    ensures var r := Ip.Serialize(Ip.EchoReply(Ip.Parse(s), mac));
            |r| == |s| && C.Verifies(r[14..HeaderEnd(s)]) && C.Verifies(r[HeaderEnd(s)..DatagramEnd(s)])
  {
    ParsedKinds(s);
    Loaded(s);
    hide Ip.Parse, Ip.Serialize, Ip.Header, Ip.EchoReply, C.Verifies, Ip.HeaderLen, ForGateway, Ip.ToGateway;
    hide Ip.IsEchoRequest, IsPing, Word, HeaderEnd, DatagramEnd;
    var f := Ip.Parse(s);
    AnswerShape(f, mac);
    Rewritten(s, Ip.EchoReply(f, mac));
    IpTheorems.EchoReplyHeader(f, mac);
    SliceOfTail(Ip.Serialize(Ip.EchoReply(f, mac)), HeaderEnd(s), Ip.IcmpLen(f));
  }

  lemma AnswerShape(f: Ip.IpFrame, mac: seq<byte>)
    requires Ip.Repliable(f) && |mac| == 6
    ensures var g := Ip.EchoReply(f, mac);
            && Ip.Sized(g) && g.verIhl == f.verIhl && |g.rest| == |f.rest|
            && C.Verifies(g.rest[..Ip.IcmpLen(f)])
  {
    hide Ip.ReplyMessage, Ip.Header, C.Verifies;
    IpTheorems.ReplyMessageVerifies(Ip.Icmp(f));
    var g := Ip.EchoReply(f, mac);
    assert g.rest[..Ip.IcmpLen(f)] == Ip.ReplyMessage(Ip.Icmp(f));
  }

  lemma SliceOfTail(r: seq<byte>, m: nat, n: nat)
    requires m + n <= |r|
    ensures r[m..][..n] == r[m..m + n]
  {
  }

  lemma Loaded(s: seq<byte>)
    requires Ip.Parsable(s)
    ensures Ip.Parse(s).verIhl == s[14] && Number(Ip.Parse(s).sum) == Word(s, 24)
    ensures IpTheorems.TtlWord(Ip.Parse(s)) == Word(s, 22) && Ip.Parse(s).ttl == s[22]
  {
  }

  lemma SameLength(s: seq<byte>, f: Ip.IpFrame, g: Ip.IpFrame)
    requires Ip.Parsable(s) && f == Ip.Parse(s) && Ip.Sized(g) && g.verIhl == f.verIhl && |g.rest| == |f.rest|
    ensures |Ip.Serialize(g)| == |s|
  {
    Ip.SerializeParse(s);
  }

  lemma SentOnVerifies(s: seq<byte>, mac: seq<byte>)
    requires Ip.Parsable(s) && s[22] > 0 && |mac| == 6
    ensures Ip.Parse(s).ttl > 0
    ensures var r := Ip.Serialize(Ip.Forward(Ip.Parse(s), mac));
            |r| == |s| && C.Verifies(r[14..HeaderEnd(s)])
  {
    ParsedKinds(s);
    hide Ip.Parse, Ip.Serialize, Ip.Header, C.Verifies, C.Field, Ip.HeaderLen;
    var f := Ip.Parse(s);
    Loaded(s);
    Rewritten(s, Ip.Forward(f, mac));
    IpTheorems.ForwardVerifies(f, mac);
  }

  // ---------------------------------------------------------------- who gets what

  /** IP: pings for either gateway are answered where they came from; what still has time to live is
      sent out of the other interface; the rest goes nowhere. */
  lemma IpOnWire(port: Port, s: seq<byte>)
    requires WellFormed(s) && IpBytes(s)
    ensures |s| >= 34 && 34 <= HeaderEnd(s) <= |s| && (IsPing(s) ==> HeaderEnd(s) + 8 <= DatagramEnd(s) <= |s|)
    ensures var (other, mac, otherMac) := match port
                                          case Tap0 => (Tap1, [2, 0, 0, 0, 0, 1], [2, 0, 0, 0, 0, 2])
                                          case Tap1 => (Tap0, [2, 0, 0, 0, 0, 2], [2, 0, 0, 0, 0, 1]);
            var out := Deliver(port, s);
            if IsPing(s) then out.Sent? && out.port == port && IsPong(s, out.frame, mac)
            else if s[22] > 1 then out.Sent? && out.port == other && IsSentOn(s, out.frame, otherMac)
            else out == Nothing
  {
    Kinds(s);
    ParsedKinds(s);
    WellFormedBytes(s);
    hide Ip.Parse, Ip.Serialize, Ip.EchoReply, Ip.Forward, C.Verifies, Ip.HeaderLen, Ip.IsEchoRequest, ForGateway;
    hide Ip.ToGateway;
    hide IsPong, IsSentOn, DatagramEnd, HeaderEnd, IsPing;
    if IsPing(s) {
      Answered(s, Mac(port));
    } else if s[22] > 1 {
      SentOn(s, Mac(Other(port)));
    }
  }

  lemma Answered(s: seq<byte>, mac: seq<byte>)
    requires Ip.WellFormed(s) && IsPing(s) && |mac| == 6
    ensures Ip.IsEchoRequest(Ip.Parse(s)) && Ip.Repliable(Ip.Parse(s))
    ensures |s| >= 34 && 34 <= HeaderEnd(s) && HeaderEnd(s) + 8 <= DatagramEnd(s) <= |s|
    ensures IsPong(s, Ip.Serialize(Ip.EchoReply(Ip.Parse(s), mac)), mac)
  {
    ParsedKinds(s);
    hide Ip.Parse, Ip.Serialize, Ip.EchoReply, C.Verifies, Ip.HeaderLen, Ip.IsEchoRequest, ForGateway, Ip.ToGateway;
    PongVerifies(s, mac);
    IpTheorems.EchoReplyBytes(s, mac);
  }

  lemma SentOn(s: seq<byte>, mac: seq<byte>)
    requires Ip.Parsable(s) && s[22] > 0 && |mac| == 6
    ensures Ip.Parse(s).ttl > 0 && 34 <= HeaderEnd(s) <= |s|
    ensures IsSentOn(s, Ip.Serialize(Ip.Forward(Ip.Parse(s), mac)), mac)
  {
    hide Ip.Parse, Ip.Serialize, Ip.Forward, C.Verifies, Ip.IsEchoRequest, ForGateway, Ip.ToGateway;
    SentOnVerifies(s, mac);
    IpTheorems.ForwardBytes(s, mac);
  }

  /** ARP: requests for the interface's own gateway address are answered where they came from, by
      either router; nothing else is. */
  lemma ArpOnWire(port: Port, s: seq<byte>)
    requires |s| >= 42 && ArpBytes(s)
    ensures var (mac, ip) := match port
                             case Tap0 => ([2, 0, 0, 0, 0, 1], [192, 168, 1, 1])
                             case Tap1 => ([2, 0, 0, 0, 0, 2], [192, 168, 2, 1]);
            var out := DeliverArpOnly(port, s);
            && (|s| <= 2048 ==> out == Deliver(port, s))
            && if s[20..22] == [0, 1] && s[38..42] == ip then
                 && out.Sent? && out.port == port && |out.frame| == |s|
                 && var r := out.frame;
                    && r[..6] == s[6..12] && r[6..12] == mac && r[12..20] == s[12..20] && r[20..22] == [0, 2]
                    && r[22..28] == mac && r[28..32] == ip && r[32..38] == s[22..28] && r[38..42] == s[28..32]
                    && r[42..] == s[42..]
               else out == Nothing
  {
    Kinds(s);
    assert !IsIp(s);
    Arp.AnswersAsks(s, Gateway(port));
    if s[20..22] == [0, 1] && s[38..42] == Gateway(port) { Arp.ReplyBytes(s, Mac(port), Gateway(port)); }
  }

  /** Nothing else is answered or sent on, nor, by the ARP-only router, any short frame. */
  lemma OthersOnWire(port: Port, s: seq<byte>)
    ensures WellFormed(s) && !ArpBytes(s) && !IpBytes(s) ==> Deliver(port, s) == Nothing
    ensures !ArpBytes(s) || |s| < 42 ==> DeliverArpOnly(port, s) == Nothing
  {
    Kinds(s);
  }

  /** On the wire the header checksum of what is sent on is equation 3 of RFC 1624 on the word that
      holds the time to live, for every header that verified. */
  lemma SentOnIsIncremental(port: Port, s: seq<byte>)
    requires WellFormed(s) && IpBytes(s)
    requires |s| >= 34 && 34 <= HeaderEnd(s) <= |s| && !IsPing(s) && s[22] > 1 && C.Verifies(s[14..HeaderEnd(s)])
    ensures var r := Deliver(port, s).frame;
            |r| == |s| && Word(r, 24) == C.Equation3(Word(s, 24), Word(s, 22), Word(s, 22) - 0x100)
  {
    Kinds(s);
    ParsedKinds(s);
    ForwardNumbers(s, Mac(Other(port)));
    hide Ip.Parse, Ip.Serialize, Ip.Header, C.Verifies, C.Equation3, Ip.HeaderLen, Ip.IsEchoRequest, Ip.Forward;
    hide Ip.ToGateway, ForGateway, Word;
  }

  lemma ForwardNumbers(s: seq<byte>, mac: seq<byte>)
    requires Ip.Parsable(s) && s[22] > 0 && |mac| == 6 && C.Verifies(s[14..HeaderEnd(s)])
    ensures Ip.Parse(s).ttl > 0
    ensures var r := Ip.Serialize(Ip.Forward(Ip.Parse(s), mac));
            |r| == |s| && Word(r, 24) == C.Equation3(Word(s, 24), Word(s, 22), Word(s, 22) - 0x100)
  {
    ParsedKinds(s);
    Loaded(s);
    Ip.SerializeParse(s);
    assert Word(s, 22) >= 0x100;
    hide Ip.Parse, Ip.Serialize, Ip.Header, C.Verifies, C.Equation3, C.Field, Ip.HeaderLen, ForGateway, IsPing;
    hide Word, IpTheorems.TtlWord, Number;
    IpTheorems.ForwardIsIncremental(Ip.Parse(s), mac);
    Rewritten(s, Ip.Forward(Ip.Parse(s), mac));
  }

  /** In every IP frame that leaves, the header checksum verifies over what the header length covers,
      and in every answer to a ping the ICMP checksum over what the total length covers, whatever the
      checksums that came in. */
  lemma SentVerifies(port: Port, s: seq<byte>)
    requires WellFormed(s) && IpBytes(s) && Deliver(port, s).Sent?
    ensures |s| >= 34 && 34 <= HeaderEnd(s) <= |s|
    ensures var r := Deliver(port, s).frame;
            && |r| == |s| && C.Verifies(r[14..HeaderEnd(s)])
            && (IsPing(s) ==> HeaderEnd(s) + 8 <= DatagramEnd(s) <= |s| && C.Verifies(r[HeaderEnd(s)..DatagramEnd(s)]))
  {
    IpOnWire(port, s);
    hide WellFormed, Deliver;
  }

  /** What one frame costs, by its bytes: among any other frames in flight and in every run, an ARP
      frame makes the router send at most once, an IP frame at most as often as its time to live says,
      but at least once for a ping, and anything else never; and once all has been delivered, a ping
      exactly so often. */
  lemma FrameCauses(flight: seq<Flying>, i: nat, run: seq<Delivery>)
    requires AllWellFormed(flight) && IsRun(flight, run) && i < |flight|
    requires forall j | 0 <= j < |flight| && j != i :: flight[j].origin != flight[i].origin
    ensures var s, sent := flight[i].frame, Emissions(flight, run, {flight[i].origin});
            && (IpBytes(s) ==> |s| >= 34)
            && sent <= (if ArpBytes(s) then 1 else if !IpBytes(s) then 0 else if s[22] == 0 then 1 else s[22])
            && (Final(flight, run) == [] && IpBytes(s) && IsPing(s) ==> sent == if s[22] == 0 then 1 else s[22])
  {
    var s := flight[i].frame;
    OneFrame(flight, i, run);
    Kinds(s);
    hide Emissions, Final, Ip.Parse, IsRun;
    WellFormedBytes(s);
    if IpBytes(s) { ParsedKinds(s); }
  }
}
