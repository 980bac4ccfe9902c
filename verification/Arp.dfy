/**
  The two in-place ARP handlers, against parsing, the reply of RFC 826 and serialising.
 */
module Arp {
  import opened Bytes

  const ETH_P_ARP: u16 := 0x0806
  const ARP_REQUEST: u16 := 1
  const ARP_REPLY: u16 := 2
  const ARP_FRAME_SIZE: nat := 42

  /** An Ethernet frame carrying ARP; `rest` is whatever follows the 42 bytes of the two headers. */
  datatype ArpFrame = ArpFrame(
    dst: seq<byte>, src: seq<byte>, etherType: seq<byte>,
    htype: seq<byte>, ptype: seq<byte>, hlen: byte, plen: byte, opcode: seq<byte>,
    senderMac: seq<byte>, senderIp: seq<byte>, targetMac: seq<byte>, targetIp: seq<byte>,
    rest: seq<byte>)

  predicate Sized(f: ArpFrame) {
    && |f.dst| == |f.src| == |f.senderMac| == |f.targetMac| == 6
    && |f.etherType| == |f.htype| == |f.ptype| == |f.opcode| == 2
    && |f.senderIp| == |f.targetIp| == 4
  }

  function Parse(s: seq<byte>): (f: ArpFrame)
    requires |s| >= ARP_FRAME_SIZE
    ensures Sized(f)
  {
    ArpFrame(s[..6], s[6..12], s[12..14],
             s[14..16], s[16..18], s[18], s[19], s[20..22],
             s[22..28], s[28..32], s[32..38], s[38..42], s[42..])
  }

  function Serialize(f: ArpFrame): seq<byte> {
    f.dst + f.src + f.etherType
    + f.htype + f.ptype + [f.hlen, f.plen] + f.opcode
    + f.senderMac + f.senderIp + f.targetMac + f.targetIp + f.rest
  }

  lemma ParseSerialize(f: ArpFrame)
    requires Sized(f)
    ensures |Serialize(f)| >= ARP_FRAME_SIZE && Parse(Serialize(f)) == f
  {
    var s := Serialize(f);
    assert s[..6] == f.dst && s[6..12] == f.src && s[12..14] == f.etherType;
    assert s[14..16] == f.htype && s[16..18] == f.ptype && s[20..22] == f.opcode;
    assert s[22..28] == f.senderMac && s[28..32] == f.senderIp;
    assert s[32..38] == f.targetMac && s[38..42] == f.targetIp && s[42..] == f.rest;
  }

  lemma SerializeParse(s: seq<byte>)
    requires |s| >= ARP_FRAME_SIZE
    ensures Serialize(Parse(s)) == s
  {
  }

  /** The handlers answer a request for the gateway's address; they look at nothing else. */
  predicate Answers(f: ArpFrame, gatewayIp: seq<byte>)
    requires Sized(f)
  {
    Number(f.opcode) == ARP_REQUEST && f.targetIp == gatewayIp
  }

  /** RFC 826, "Packet Reception", last step: swap the address fields, put the local addresses in the
      sender fields, set the opcode to reply. The frame goes to link address `to`. */
  function Reply(f: ArpFrame, mac: seq<byte>, gatewayIp: seq<byte>, to: seq<byte>): ArpFrame {
    f.(dst := to, src := mac, opcode := [0, 2],
       targetMac := f.senderMac, targetIp := f.senderIp, senderMac := mac, senderIp := gatewayIp)
  }

  /** The receiver of RFC 826 on the bytes of a frame: it also asks for Ethernet hardware and the IP
      protocol type, and sends the reply to the new target hardware address. */
  function Rfc826(s: seq<byte>, mac: seq<byte>, gatewayIp: seq<byte>): (r: seq<seq<byte>>)
    requires |s| >= ARP_FRAME_SIZE
  {
    if s[14..18] == [0, 1, 8, 0] && s[20..22] == [0, 1] && s[38..42] == gatewayIp
    then [s[22..28] + mac + s[12..20] + [0, 2] + mac + gatewayIp + s[22..28] + s[28..32] + s[42..]]
    else []
  }

  /** What the handlers leave in the frame. */
  function Outcome(s: seq<byte>, mac: seq<byte>, gatewayIp: seq<byte>): (r: seq<byte>)
    requires |s| >= ARP_FRAME_SIZE
  {
    var f := Parse(s);
    if Answers(f, gatewayIp) then Serialize(Reply(f, mac, gatewayIp, f.src)) else s
  }

  /** What the handlers write to the interface. */
  function Emitted(s: seq<byte>, mac: seq<byte>, gatewayIp: seq<byte>): seq<seq<byte>>
    requires |s| >= ARP_FRAME_SIZE
  {
    if Answers(Parse(s), gatewayIp) then [Outcome(s, mac, gatewayIp)] else []
  }

  /** A request for the gateway, as bytes. */
  predicate Asks(s: seq<byte>, gatewayIp: seq<byte>) {
    |s| >= 42 && s[20..22] == [0, 1] && s[38..42] == gatewayIp
  }

  lemma AnswersAsks(s: seq<byte>, gatewayIp: seq<byte>)
    requires |s| >= ARP_FRAME_SIZE
    ensures Answers(Parse(s), gatewayIp) <==> Asks(s, gatewayIp)
  {
    assert s[20..22] == [s[20], s[21]];
  }

  /** Nothing but a request for the gateway is answered or changed. */
  lemma OthersIgnored(s: seq<byte>, mac: seq<byte>, gatewayIp: seq<byte>)
    requires |s| >= ARP_FRAME_SIZE && !(s[20..22] == [0, 1] && s[38..42] == gatewayIp)
    ensures Emitted(s, mac, gatewayIp) == [] && Outcome(s, mac, gatewayIp) == s
  {
    AnswersAsks(s, gatewayIp);
  }

  /** The reply byte by byte: it goes to the link-level source of the request, with the gateway as
      sender, the asker as target and the opcode made reply; all the rest is as it came. */
  lemma ReplyBytes(s: seq<byte>, mac: seq<byte>, gatewayIp: seq<byte>)
    requires |s| >= 42 && s[20..22] == [0, 1] && s[38..42] == gatewayIp
    requires |mac| == 6 && |gatewayIp| == 4
    ensures var r := Outcome(s, mac, gatewayIp);
            && Emitted(s, mac, gatewayIp) == [r] && |r| == |s|
            && r[..6] == s[6..12] && r[6..12] == mac && r[12..20] == s[12..20] && r[20..22] == [0, 2]
            && r[22..28] == mac && r[28..32] == gatewayIp && r[32..38] == s[22..28] && r[38..42] == s[28..32]
            && r[42..] == s[42..]
  {
    AnswersAsks(s, gatewayIp);
    var f := Parse(s);
    var g := Reply(f, mac, gatewayIp, f.src);
    ParseSerialize(g);
    SerializeParse(s);
    Kinds(f);
    Kinds(g);
    hide Serialize, Answers;
  }

  /** The handler conforms to RFC 826 on a frame exactly when the frame is not a request for the
      gateway, or it says it is about IP over Ethernet and its two sender link addresses agree. */
  lemma ConformsToRfc826(s: seq<byte>, mac: seq<byte>, gatewayIp: seq<byte>)
    requires |s| >= ARP_FRAME_SIZE && |mac| == 6 && |gatewayIp| == 4
    ensures Emitted(s, mac, gatewayIp) == Rfc826(s, mac, gatewayIp) <==>
            (s[20..22] == [0, 1] && s[38..42] == gatewayIp ==> s[14..18] == [0, 1, 8, 0] && s[6..12] == s[22..28])
  {
    hide Emitted, Outcome;
    if s[20..22] == [0, 1] && s[38..42] == gatewayIp {
      ReplyBytes(s, mac, gatewayIp);
      if s[14..18] == [0, 1, 8, 0] {
        Pieces(Outcome(s, mac, gatewayIp));
        Front(s[6..12], s[22..28], mac + s[12..20] + [0, 2] + mac + gatewayIp + s[22..28] + s[28..32] + s[42..]);
        Grouped(s[6..12], mac, s[12..20], gatewayIp, s[22..28], s[28..32], s[42..]);
        Grouped(s[22..28], mac, s[12..20], gatewayIp, s[22..28], s[28..32], s[42..]);
      }
    } else {
      OthersIgnored(s, mac, gatewayIp);
    }
  }

  lemma Pieces(r: seq<byte>)
    requires |r| >= ARP_FRAME_SIZE
    ensures r == r[..6] + r[6..12] + r[12..20] + r[20..22] + r[22..28] + r[28..32] + r[32..38] + r[38..42] + r[42..]
  {
  }

  lemma Front(a: seq<byte>, b: seq<byte>, rest: seq<byte>)
    requires |a| == |b|
    ensures a + rest == b + rest <==> a == b
  {
    assert (a + rest)[..|a|] == a && (b + rest)[..|b|] == b;
  }

  lemma Grouped(to: seq<byte>, mac: seq<byte>, kinds: seq<byte>, own: seq<byte>, askerMac: seq<byte>, asker: seq<byte>,
                rest: seq<byte>)
    ensures to + mac + kinds + [0, 2] + mac + own + askerMac + asker + rest ==
            to + (mac + kinds + [0, 2] + mac + own + askerMac + asker + rest)
  {
  }

  /** A request for 192.168.1.1 about another kind of hardware: RFC 826 has it ignored, the handlers
      answer it. */
  lemma OtherHardwareAnswered(mac: seq<byte>)
    requires |mac| == 6
    ensures var s := mac + [2, 0, 0, 0, 0, 9, 8, 6, 0, 6, 8, 0, 6, 4, 0, 1, 2, 0, 0, 0, 0, 9, 192, 168, 1, 7]
                     + [0, 0, 0, 0, 0, 0, 192, 168, 1, 1];
            && |s| == ARP_FRAME_SIZE
            && Rfc826(s, mac, [192, 168, 1, 1]) == [] && |Emitted(s, mac, [192, 168, 1, 1])| == 1
  {
    var s := mac + [2, 0, 0, 0, 0, 9, 8, 6, 0, 6, 8, 0, 6, 4, 0, 1, 2, 0, 0, 0, 0, 9, 192, 168, 1, 7]
             + [0, 0, 0, 0, 0, 0, 192, 168, 1, 1];
    assert s[14..18] == [0, 6, 8, 0];
    ReplyBytes(s, mac, [192, 168, 1, 1]);
  }

  /** A reply is never answered, at any gateway; it keeps the length and everything after the headers. */
  lemma ReplyProvokesNone(s: seq<byte>, mac: seq<byte>, gatewayIp: seq<byte>, other: seq<byte>)
    requires |s| >= ARP_FRAME_SIZE && |mac| == 6 && |gatewayIp| == 4
    requires Answers(Parse(s), gatewayIp)
    ensures var r := Outcome(s, mac, gatewayIp);
            |r| == |s| && r[42..] == s[42..] && r[12..20] == s[12..20] && !Answers(Parse(r), other)
  {
    var f := Parse(s);
    var g := Reply(f, mac, gatewayIp, f.src);
    hide Parse, Serialize;
    ParseSerialize(g);
    SerializeParse(s);
    Kinds(f);
    Kinds(g);
  }

  /** Where the fields lie that a reply leaves as they are. */
  lemma Kinds(f: ArpFrame)
    requires Sized(f)
    ensures var s := Serialize(f);
            && |s| == ARP_FRAME_SIZE + |f.rest| && s[42..] == f.rest
            && s[12..20] == f.etherType + f.htype + f.ptype + [f.hlen, f.plen]
  {
  }

  // ---------------------------------------------------------------- the handlers

  predicate IsField(at: nat, length: nat) {
    (at in {0, 6, 22, 32} && length == 6) || (at == 20 && length == 2) || (at in {28, 38} && length == 4)
  }

  /** The frame with the field at offset `at` overwritten. */
  function WithField(f: ArpFrame, at: nat, x: seq<byte>): ArpFrame
    requires IsField(at, |x|)
  {
    if at == 0 then f.(dst := x)
    else if at == 6 then f.(src := x)
    else if at == 20 then f.(opcode := x)
    else if at == 22 then f.(senderMac := x)
    else if at == 28 then f.(senderIp := x)
    else if at == 32 then f.(targetMac := x)
    else f.(targetIp := x)
  }

  lemma SpliceField(s: seq<byte>, at: nat, x: seq<byte>)
    requires |s| >= ARP_FRAME_SIZE && IsField(at, |x|)
    ensures Parse(Splice(s, at, x)) == WithField(Parse(s), at, x)
  {
    var r := Splice(s, at, x);
    SpliceSlices(s, at, x);
    hide Splice;
    assert r[..6] == r[0..6] && s[..6] == s[0..6] && r[42..] == r[42..|s|] && s[42..] == s[42..|s|];
  }

  /** Overwrites one header field of the frame in the first `len` bytes of a buffer. */
  method StoreField(buffer: array<byte>, ghost len: nat, at: nat, x: seq<byte>)
    requires ARP_FRAME_SIZE <= len <= buffer.Length && IsField(at, |x|)
    modifies buffer
    ensures Parse(buffer[..len]) == WithField(Parse(old(buffer[..len])), at, x)
    ensures buffer[len..] == old(buffer[len..])
  {
    SpliceField(buffer[..len], at, x);
    StoreWithin(buffer, len, at, x);
  }

  /** Where the fields the handler reads lie in the buffer. */
  lemma FieldsInBuffer(buffer: seq<byte>, len: nat)
    requires ARP_FRAME_SIZE <= len <= |buffer|
    ensures var f := Parse(buffer[..len]);
            && f.src == buffer[6..12] && f.opcode == buffer[20..22]
            && f.senderMac == buffer[22..28] && f.senderIp == buffer[28..32] && f.targetIp == buffer[38..42]
  {
  }

  /** The body of the branch in which a request is turned into its reply, in the order of the source. */
  method BuildReply(e: Endian, buffer: array<byte>, ghost len: nat, routerMac: seq<byte>, gatewayIp: seq<byte>)
    requires ARP_FRAME_SIZE <= len <= buffer.Length
    requires |routerMac| == 6 && |gatewayIp| == 4
    modifies buffer
    ensures var f := Parse(old(buffer[..len]));
            Parse(buffer[..len]) == Reply(f, routerMac, gatewayIp, f.src)
    ensures buffer[len..] == old(buffer[len..])
  {
    hide Parse, Splice, LoadHost;
    FieldsInBuffer(buffer[..], len);
    StoreField(buffer, len, 0, buffer[6..12]);
    StoreField(buffer, len, 6, routerMac);

    StoreHtons(e, ARP_REPLY);
    StoreField(buffer, len, 20, StoreHost(e, Ntohs(e, ARP_REPLY)));
    FieldsInBuffer(buffer[..], len);
    var originalSender := buffer[28..32];
    StoreField(buffer, len, 38, originalSender);
    StoreField(buffer, len, 28, gatewayIp);
    FieldsInBuffer(buffer[..], len);
    StoreField(buffer, len, 32, buffer[22..28]);
    StoreField(buffer, len, 22, routerMac);
  }

  /** `handle_arp` of ipv4-and-icmp.c; the C code reads 42 bytes without looking at `len`. */
  method HandleArp(e: Endian, buffer: array<byte>, len: nat, routerMac: seq<byte>, gatewayIp: seq<byte>)
    returns (sent: bool)
    requires ARP_FRAME_SIZE <= len <= buffer.Length
    requires |routerMac| == 6 && |gatewayIp| == 4
    modifies buffer
    ensures sent <==> Answers(Parse(old(buffer[..len])), gatewayIp)
    ensures buffer[..len] == Outcome(old(buffer[..len]), routerMac, gatewayIp)
    ensures buffer[len..] == old(buffer[len..])
  {
    NtohsLoad(e, buffer[20], buffer[21]);
    FieldsInBuffer(buffer[..], len);
    sent := Ntohs(e, LoadHost(e, buffer[20], buffer[21])) == ARP_REQUEST && buffer[38..42] == gatewayIp;
    if sent {
      BuildReply(e, buffer, len, routerMac, gatewayIp);
      SerializeParse(buffer[..len]);
    }
  }

  /** `handle_arp` of arp.c, with its length guard. */
  method HandleArpGuarded(e: Endian, buffer: array<byte>, len: nat, routerMac: seq<byte>, gatewayIp: seq<byte>)
    returns (sent: bool)
    requires len <= buffer.Length
    requires |routerMac| == 6 && |gatewayIp| == 4
    modifies buffer
    ensures sent <==> len >= ARP_FRAME_SIZE && Answers(Parse(old(buffer[..len])), gatewayIp)
    ensures buffer[..len] == if len >= ARP_FRAME_SIZE then Outcome(old(buffer[..len]), routerMac, gatewayIp)
                             else old(buffer[..len])
    ensures buffer[len..] == old(buffer[len..])
  {
    if len < ARP_FRAME_SIZE {
      return false;
    }
    sent := HandleArp(e, buffer, len, routerMac, gatewayIp);
  }
}
