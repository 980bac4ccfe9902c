/**
  Ethernet frames that carry IPv4, and the two rewrites `handle_ip` performs on them, on parsed values.
 */
module Ip {
  import opened Bytes
  import Checksum

  const ETH_P_IP: u16 := 0x0800
  const IPPROTO_ICMP: byte := 1
  const ICMP_ECHO_REQUEST: byte := 8
  const ICMP_ECHO_REPLY: byte := 0
  const ETH_SIZE: nat := 14
  const BUFFER_SIZE: nat := 2048

  const TAP0_GATEWAY_IP: seq<byte> := [192, 168, 1, 1]
  const TAP1_GATEWAY_IP: seq<byte> := [192, 168, 2, 1]
  const BROADCAST: seq<byte> := [0xFF, 0xFF, 0xFF, 0xFF, 0xFF, 0xFF]

  /** `rest` is everything after the IP header: the message and any padding of the frame. */
  datatype IpFrame = IpFrame(
    dst: seq<byte>, src: seq<byte>, etherType: seq<byte>,
    verIhl: byte, tos: byte, totalLen: seq<byte>, id: seq<byte>, flags: seq<byte>,
    ttl: byte, protocol: byte, sum: seq<byte>, srcIp: seq<byte>, dstIp: seq<byte>, options: seq<byte>,
    rest: seq<byte>)

  /** `(ver_ihl & 0x0F) * 4` */
  function HeaderLen(verIhl: byte): nat {
    (verIhl % 0x10) * 4
  }

  predicate Sized(f: IpFrame) {
    && |f.dst| == |f.src| == 6
    && |f.etherType| == |f.totalLen| == |f.id| == |f.flags| == |f.sum| == 2
    && |f.srcIp| == |f.dstIp| == 4
    && 20 + |f.options| == HeaderLen(f.verIhl)
  }

  /** Line 154: the frame is ICMP and addressed to one of the two gateways. */
  predicate ToGateway(f: IpFrame) {
    f.protocol == IPPROTO_ICMP && (f.dstIp == TAP0_GATEWAY_IP || f.dstIp == TAP1_GATEWAY_IP)
  }

  function IcmpLen(f: IpFrame): int
    requires Sized(f)
  {
    Number(f.totalLen) - HeaderLen(f.verIhl)
  }

  /** The whole IP header lies within the frame. */
  predicate Parsable(s: seq<byte>) {
    |s| >= 34 && 20 <= HeaderLen(s[14]) && ETH_SIZE + HeaderLen(s[14]) <= |s|
  }

  /** What the code takes for granted: the whole IP header is there and, in ICMP for a gateway, the
      total length covers the ICMP header and lies within the frame. */
  predicate WellFormed(s: seq<byte>) {
    && Parsable(s) && |s| <= BUFFER_SIZE
    && (ToGateway(Parse(s)) ==> 8 <= IcmpLen(Parse(s)) <= |Parse(s).rest|)
  }

  function Parse(s: seq<byte>): (f: IpFrame)
    requires Parsable(s)
    ensures Sized(f)
  {
    var end := ETH_SIZE + HeaderLen(s[14]);
    IpFrame(s[..6], s[6..12], s[12..14],
            s[14], s[15], s[16..18], s[18..20], s[20..22],
            s[22], s[23], s[24..26], s[26..30], s[30..34], s[34..end],
            s[end..])
  }

  function Header(f: IpFrame): seq<byte> {
    [f.verIhl, f.tos] + f.totalLen + f.id + f.flags + [f.ttl, f.protocol] + f.sum + f.srcIp + f.dstIp + f.options
  }

  function Serialize(f: IpFrame): seq<byte> {
    f.dst + f.src + f.etherType + Header(f) + f.rest
  }

  lemma SerializeParse(s: seq<byte>)
    requires Parsable(s)
    ensures Serialize(Parse(s)) == s
    ensures Header(Parse(s)) == s[ETH_SIZE..ETH_SIZE + HeaderLen(s[14])]
  {
    hide Header, HeaderLen;
    var end := ETH_SIZE + HeaderLen(s[14]);
    HeaderOfParse(s);
    assert s == s[..14] + s[14..end] + s[end..];
    assert s[..14] == s[..6] + s[6..12] + s[12..14];
  }

  lemma HeaderOfParse(s: seq<byte>)
    requires Parsable(s)
    ensures Header(Parse(s)) == s[ETH_SIZE..ETH_SIZE + HeaderLen(s[14])]
  {
    var end := ETH_SIZE + HeaderLen(s[14]);
    assert s[14..24] == [s[14], s[15]] + s[16..18] + s[18..20] + s[20..22] + [s[22], s[23]];
    assert s[24..end] == s[24..26] + s[26..30] + s[30..34] + s[34..end];
    assert Header(Parse(s)) == s[14..24] + s[24..end];
    assert s[14..24] + s[24..end] == s[14..end];
  }

  lemma ParseSerialize(f: IpFrame)
    requires Sized(f)
    ensures |Serialize(f)| >= 34 && Serialize(f)[14] == f.verIhl
    ensures ETH_SIZE + HeaderLen(f.verIhl) <= |Serialize(f)|
    ensures Parse(Serialize(f)) == f
  {
    var s := Serialize(f);
    var h := Header(f);
    assert |h| == HeaderLen(f.verIhl) && s[14..14 + |h|] == h;
    forall lo, hi | 0 <= lo <= hi <= |h| ensures s[14 + lo..14 + hi] == h[lo..hi] {}
    assert h[2..4] == f.totalLen && h[4..6] == f.id && h[6..8] == f.flags;
    assert h[10..12] == f.sum && h[12..16] == f.srcIp && h[16..20] == f.dstIp && h[20..] == f.options;
    assert s[..6] == f.dst && s[6..12] == f.src && s[12..14] == f.etherType;
    assert forall i | 0 <= i < |h| :: s[14 + i] == h[i];
    assert s[14] == h[0] && s[15] == h[1] && s[22] == h[8] && s[23] == h[9];
    assert s[16..18] == h[2..4] && s[18..20] == h[4..6] && s[20..22] == h[6..8];
    assert s[24..26] == h[10..12] && s[26..30] == h[12..16] && s[30..34] == h[16..20];
    assert s[34..14 + |h|] == h[20..] && s[14 + |h|..] == f.rest;
  }

  // ---------------------------------------------------------------- the rewrites

  /** The ICMP message within `rest`, as the total length delimits it. */
  function Icmp(f: IpFrame): seq<byte>
    requires Sized(f) && 0 <= IcmpLen(f) <= |f.rest|
  {
    f.rest[..IcmpLen(f)]
  }

  /** Line 158: an echo request for a gateway. */
  predicate IsEchoRequest(f: IpFrame) {
    ToGateway(f) && |f.rest| > 0 && f.rest[0] == ICMP_ECHO_REQUEST
  }

  /** The header checksum put right. */
  function Resummed(f: IpFrame): IpFrame {
    f.(sum := Checksum.Field(Header(f.(sum := [0, 0]))))
  }

  /** An ICMP message with its type made echo reply and its checksum put right. */
  function ReplyMessage(m: seq<byte>): (r: seq<byte>)
    requires |m| >= 8
    ensures |r| == |m|
  {
    [ICMP_ECHO_REPLY, m[1]] + Checksum.Field([ICMP_ECHO_REPLY, m[1], 0, 0] + m[4..]) + m[4..]
  }

  predicate Repliable(f: IpFrame) {
    Sized(f) && 8 <= IcmpLen(f) <= |f.rest|
  }

  /** The echo reply of RFC 792: addresses exchanged, type changed, checksums recomputed, everything
      else returned as it came, IP options included (`EchoConformance` says when RFC 1122 allows that). */
  function EchoReply(f: IpFrame, mac: seq<byte>): IpFrame
    requires Repliable(f)
  {
    Resummed(f.(dst := f.src, src := mac, srcIp := f.dstIp, dstIp := f.srcIp))
    .(rest := ReplyMessage(Icmp(f)) + f.rest[IcmpLen(f)..])
  }

  /** Forwarding: one hop less to live, checksum recomputed, sent from `mac` to everyone. */
  function Forward(f: IpFrame, mac: seq<byte>): IpFrame
    requires f.ttl > 0
  {
    Resummed(f.(ttl := f.ttl - 1)).(src := mac, dst := BROADCAST)
  }
}
