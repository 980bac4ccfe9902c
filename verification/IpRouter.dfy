/**
  `handle_ip`: the ping responder and forwarding engine, in place in the receive buffer.
 */
module IpRouter {
  import opened Bytes
  import opened Ip
  import Checksum

  datatype Verdict = Replied | Forwarded | Dropped

  /** What becomes of a frame: its verdict and the frame as `handle_ip` leaves it. */
  function Route(f: IpFrame, inMac: seq<byte>, outMac: seq<byte>): (Verdict, IpFrame)
    requires Sized(f) && (ToGateway(f) ==> Repliable(f))
  {
    if IsEchoRequest(f) then (Replied, EchoReply(f, inMac))
    else if f.ttl <= 1 then (Dropped, f)
    else (Forwarded, Forward(f, outMac))
  }

  // ---------------------------------------------------------------- fields in place

  predicate IsField(at: nat, length: nat) {
    || (at in {0, 6} && length == 6) || (at == 22 && length == 1)
    || (at == 24 && length == 2) || (at in {26, 30} && length == 4)
  }

  /** The frame with the header field at offset `at` overwritten. */
  function WithField(f: IpFrame, at: nat, x: seq<byte>): IpFrame
    requires IsField(at, |x|)
  {
    if at == 0 then f.(dst := x)
    else if at == 6 then f.(src := x)
    else if at == 22 then f.(ttl := x[0])
    else if at == 24 then f.(sum := x)
    else if at == 26 then f.(srcIp := x)
    else f.(dstIp := x)
  }

  lemma SpliceField(s: seq<byte>, at: nat, x: seq<byte>)
    requires Parsable(s) && IsField(at, |x|)
    ensures Parsable(Splice(s, at, x))
    ensures Parse(Splice(s, at, x)) == WithField(Parse(s), at, x)
  {
    var r, m := Splice(s, at, x), ETH_SIZE + HeaderLen(s[14]);
    SpliceSlices(s, at, x);
    hide Splice, HeaderLen;
    assert r[..6] == r[0..6] && s[..6] == s[0..6] && r[m..] == r[m..|s|] && s[m..] == s[m..|s|];
    if at == 22 { assert Splice(s, at, x)[22..23] == x; }
  }

  lemma SpliceRest(s: seq<byte>, at: nat, x: seq<byte>)
    requires Parsable(s) && ETH_SIZE + HeaderLen(s[14]) <= at && at + |x| <= |s|
    ensures Parsable(Splice(s, at, x))
    ensures Parse(Splice(s, at, x)) == Parse(s).(rest := Splice(Parse(s).rest, at - ETH_SIZE - HeaderLen(s[14]), x))
  {
    SpliceSlices(s, at, x);
    var m := ETH_SIZE + HeaderLen(s[14]);
    assert Splice(s, at, x)[m..] == Splice(s[m..], at - m, x);
  }

  /** Where the fields the handler reads lie in the buffer. */
  lemma FieldsInBuffer(buffer: seq<byte>, len: nat)
    requires len <= |buffer| && Parsable(buffer[..len])
    ensures var f := Parse(buffer[..len]);
            && f.src == buffer[6..12] && f.verIhl == buffer[14] && f.totalLen == [buffer[16], buffer[17]]
            && f.ttl == buffer[22] && f.protocol == buffer[23]
            && f.srcIp == buffer[26..30] && f.dstIp == buffer[30..34]
            && f.rest == buffer[ETH_SIZE + HeaderLen(f.verIhl)..len]
  {
    assert buffer[..len][14] == buffer[14];
  }

  method StoreField(buffer: array<byte>, ghost len: nat, at: nat, x: seq<byte>)
    requires len <= buffer.Length && Parsable(buffer[..len]) && IsField(at, |x|)
    modifies buffer
    ensures Parsable(buffer[..len])
    ensures Parse(buffer[..len]) == WithField(Parse(old(buffer[..len])), at, x)
    ensures buffer[len..] == old(buffer[len..])
  {
    SpliceField(buffer[..len], at, x);
    StoreWithin(buffer, len, at, x);
  }

  method StoreIcmp(buffer: array<byte>, ghost len: nat, icmp: nat, at: nat, x: seq<byte>)
    requires len <= buffer.Length && Parsable(buffer[..len])
    requires icmp == ETH_SIZE + HeaderLen(Parse(buffer[..len]).verIhl) && icmp + at + |x| <= len
    modifies buffer
    ensures Parsable(buffer[..len])
    ensures at + |x| <= |Parse(old(buffer[..len])).rest|
    ensures Parse(buffer[..len]) == var f := Parse(old(buffer[..len])); f.(rest := Splice(f.rest, at, x))
    ensures buffer[len..] == old(buffer[len..])
  {
    hide Splice, HeaderLen;
    SpliceRest(buffer[..len], icmp + at, x);
    StoreWithin(buffer, len, icmp + at, x);
  }

  /** `ip->checksum = 0; ip->checksum = calculate_checksum(ip, ip_hdr_len);` */
  method ResumHeader(e: Endian, buffer: array<byte>, ghost len: nat, headerLen: nat)
    requires len <= buffer.Length && Parsable(buffer[..len])
    requires headerLen == HeaderLen(Parse(buffer[..len]).verIhl)
    modifies buffer
    ensures Parsable(buffer[..len])
    ensures Parse(buffer[..len]) == Resummed(Parse(old(buffer[..len])))
    ensures buffer[len..] == old(buffer[len..])
  {
    hide Header, Splice, LoadHost;
    StoreField(buffer, len, 24, [0, 0]);
    SerializeParse(buffer[..len]);
    assert buffer[..len][ETH_SIZE..ETH_SIZE + headerLen] == buffer[ETH_SIZE..ETH_SIZE + headerLen];
    var sum, _ := Checksum.Calculate(e, buffer, ETH_SIZE, headerLen);
    StoreField(buffer, len, 24, StoreHost(e, sum));
  }

  /** The three stores that turn a request message into its reply. */
  lemma MessageSplices(rest: seq<byte>, n: nat)
    requires 8 <= n <= |rest|
    ensures var m := rest[..n];
            var blank := [ICMP_ECHO_REPLY, m[1], 0, 0] + m[4..];
            var cleared := Splice(Splice(rest, 0, [ICMP_ECHO_REPLY]), 2, [0, 0]);
            && cleared[..n] == blank
            && Splice(cleared, 2, Checksum.Field(blank)) == ReplyMessage(m) + rest[n..]
  {
    var m := rest[..n];
    var field := Checksum.Field([ICMP_ECHO_REPLY, m[1], 0, 0] + m[4..]);
    var cleared := Splice(Splice(rest, 0, [ICMP_ECHO_REPLY]), 2, [0, 0]);
    assert cleared == [ICMP_ECHO_REPLY, m[1], 0, 0] + rest[4..];
    assert rest[4..] == m[4..] + rest[n..];
    assert Splice(cleared, 2, field) == [ICMP_ECHO_REPLY, m[1]] + field + rest[4..];
  }

  /** Lines 182-187: the message becomes an echo reply with its checksum recomputed. */
  method MakeReplyMessage(e: Endian, buffer: array<byte>, ghost len: nat, icmp: nat, icmpLen: nat)
    requires len <= buffer.Length && Parsable(buffer[..len])
    requires icmp == ETH_SIZE + HeaderLen(Parse(buffer[..len]).verIhl)
    requires 8 <= icmpLen <= |Parse(buffer[..len]).rest|
    modifies buffer
    ensures Parsable(buffer[..len])
    ensures Parse(buffer[..len]) ==
            var f := Parse(old(buffer[..len]));
            f.(rest := ReplyMessage(f.rest[..icmpLen]) + f.rest[icmpLen..])
    ensures buffer[len..] == old(buffer[len..])
  {
    hide Parse, Splice, LoadHost, HeaderLen;
    FieldsInBuffer(buffer[..], len);
    MessageSplices(Parse(buffer[..len]).rest, icmpLen);
    StoreIcmp(buffer, len, icmp, 0, [ICMP_ECHO_REPLY]);
    StoreIcmp(buffer, len, icmp, 2, [0, 0]);
    FieldsInBuffer(buffer[..], len);
    assert buffer[icmp..icmp + icmpLen] == buffer[..][icmp..len][..icmpLen];
    var sum, _ := Checksum.Calculate(e, buffer, icmp, icmpLen);
    StoreIcmp(buffer, len, icmp, 2, StoreHost(e, sum));
  }

  /** Lines 165-172: the frame turns round. */
  method SwapAddresses(buffer: array<byte>, ghost len: nat, inMac: seq<byte>)
    requires len <= buffer.Length && Parsable(buffer[..len]) && |inMac| == 6
    modifies buffer
    ensures Parsable(buffer[..len])
    ensures Parse(buffer[..len]) ==
            var f := Parse(old(buffer[..len]));
            f.(dst := f.src, src := inMac, srcIp := f.dstIp, dstIp := f.srcIp)
    ensures buffer[len..] == old(buffer[len..])
  {
    hide Parse, Splice, HeaderLen;
    FieldsInBuffer(buffer[..], len);
    StoreField(buffer, len, 0, buffer[6..12]);
    StoreField(buffer, len, 6, inMac);

    FieldsInBuffer(buffer[..], len);
    var tmpIp := buffer[26..30];
    StoreField(buffer, len, 26, buffer[30..34]);
    StoreField(buffer, len, 30, tmpIp);
  }

  lemma ResumTwice(f: IpFrame)
    ensures Resummed(Resummed(f)) == Resummed(f)
  {
    assert Resummed(f).(sum := [0, 0]) == f.(sum := [0, 0]);
  }

  /** Lines 165-187, in their order, the doubled header checksum included. */
  method BuildEchoReply(e: Endian, buffer: array<byte>, ghost len: nat, inMac: seq<byte>)
    requires len <= buffer.Length && Parsable(buffer[..len])
    requires Repliable(Parse(buffer[..len])) && |inMac| == 6
    modifies buffer
    ensures Parsable(buffer[..len])
    ensures Parse(buffer[..len]) == EchoReply(Parse(old(buffer[..len])), inMac)
    ensures buffer[len..] == old(buffer[len..])
  {
    hide Parse, Splice, Header, ReplyMessage, LoadHost, Ntohs, HeaderLen, ToGateway;
    FieldsInBuffer(buffer[..], len);
    var headerLen := HeaderLen(buffer[14]);
    SwapAddresses(buffer, len, inMac);
    ResumTwice(Parse(buffer[..len]));
    ResumHeader(e, buffer, len, headerLen);
    ResumHeader(e, buffer, len, headerLen);
    FieldsInBuffer(buffer[..], len);
    NtohsLoad(e, buffer[16], buffer[17]);
    var icmpLen := Ntohs(e, LoadHost(e, buffer[16], buffer[17])) - headerLen;
    MakeReplyMessage(e, buffer, len, ETH_SIZE + headerLen, icmpLen);
  }

  /** Lines 203-211. */
  method BuildForward(e: Endian, buffer: array<byte>, ghost len: nat, outMac: seq<byte>)
    requires len <= buffer.Length && Parsable(buffer[..len])
    requires buffer[22] > 0 && |outMac| == 6
    modifies buffer
    ensures Parsable(buffer[..len])
    ensures Parse(old(buffer[..len])).ttl > 0
    ensures Parse(buffer[..len]) == Forward(Parse(old(buffer[..len])), outMac)
    ensures buffer[len..] == old(buffer[len..])
  {
    hide Parse, Splice, Header, HeaderLen;
    FieldsInBuffer(buffer[..], len);
    var headerLen := HeaderLen(buffer[14]);
    StoreField(buffer, len, 22, [buffer[22] - 1]);
    ResumHeader(e, buffer, len, headerLen);
    StoreField(buffer, len, 6, outMac);
    StoreField(buffer, len, 0, BROADCAST);
  }

  /** `handle_ip`. The verdict says which interface the first `len` bytes were written to, if any. */
  method HandleIp(e: Endian, buffer: array<byte>, len: nat, inMac: seq<byte>, outMac: seq<byte>)
    returns (verdict: Verdict)
    requires len <= buffer.Length && WellFormed(buffer[..len])
    requires |inMac| == |outMac| == 6
    modifies buffer
    ensures var (v, g) := Route(Parse(old(buffer[..len])), inMac, outMac);
            verdict == v && buffer[..len] == Serialize(g)
    ensures buffer[len..] == old(buffer[len..])
  {
    hide Parse, Splice, Header, ReplyMessage, Resummed;
    ghost var f := Parse(buffer[..len]);
    SerializeParse(buffer[..len]);
    FieldsInBuffer(buffer[..], len);
    var icmp := ETH_SIZE + HeaderLen(buffer[14]);
    if buffer[23] == IPPROTO_ICMP && (buffer[30..34] == TAP0_GATEWAY_IP || buffer[30..34] == TAP1_GATEWAY_IP) {
      if buffer[icmp] == ICMP_ECHO_REQUEST {
        BuildEchoReply(e, buffer, len, inMac);
        SerializeParse(buffer[..len]);
        return Replied;
      }
    }
    if buffer[22] <= 1 {
      return Dropped;
    }
    BuildForward(e, buffer, len, outMac);
    SerializeParse(buffer[..len]);
    return Forwarded;
  }
}
