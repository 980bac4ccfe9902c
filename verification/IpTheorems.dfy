/**
  What the replies and the forwarded frames of the router are worth: their checksums verify, and
  recomputing them agrees with the incremental update of RFC 1624.
 */
module IpTheorems {
  import opened Bytes
  import opened Ip
  import C = Checksum
  import Rfc

  // ---------------------------------------------------------------- header sums

  /** The words of the header other than checksum, TTL/protocol word and addresses. */
  function Rest(f: IpFrame): nat {
    0x100 * f.verIhl + f.tos + C.Sum(f.totalLen) + C.Sum(f.id) + C.Sum(f.flags) + C.Sum(f.options)
  }

  function TtlWord(f: IpFrame): u16 {
    0x100 * (f.ttl as int) + f.protocol as int
  }

  lemma SumOfTwo(w: seq<byte>)
    requires |w| == 2
    ensures C.Sum(w) == Number(w)
  {
    assert w[2..] == [];
  }

  lemma HeaderSum(f: IpFrame)
    requires Sized(f)
    ensures |Header(f)| == HeaderLen(f.verIhl)
    ensures C.Sum(Header(f)) == Rest(f) + TtlWord(f) + Number(f.sum) + C.Sum(f.srcIp) + C.Sum(f.dstIp)
    ensures f.verIhl > 0
  {
    hide C.Sum;
    var h0 := [f.verIhl, f.tos] + f.totalLen;
    var h1 := h0 + f.id;
    var h2 := h1 + f.flags;
    var h3 := h2 + [f.ttl, f.protocol];
    var h4 := h3 + f.sum;
    var h5 := h4 + f.srcIp;
    var h6 := h5 + f.dstIp;
    C.SumConcat([f.verIhl, f.tos], f.totalLen);
    C.SumConcat(h0, f.id);
    C.SumConcat(h1, f.flags);
    C.SumConcat(h2, [f.ttl, f.protocol]);
    C.SumConcat(h3, f.sum);
    C.SumConcat(h4, f.srcIp);
    C.SumConcat(h5, f.dstIp);
    C.SumConcat(h6, f.options);
    SumOfTwo([f.verIhl, f.tos]);
    SumOfTwo([f.ttl, f.protocol]);
    SumOfTwo(f.sum);
  }

  lemma FieldNumber(s: seq<byte>)
    ensures Number(C.Field(s)) == C.Value(s)
  {
  }

  /** The field values that complete a sum to one that verifies: the computed one, and its alias
      0xFFFF when the computed one is 0. */
  lemma Completes(rest: nat, w: u16)
    ensures var v := C.Not(C.Fold(rest));
            (rest + w) % 0xFFFF == 0 && rest + w != 0 <==> w == v || (v == 0 && w == 0xFFFF)
  {
    var v := C.Not(C.Fold(rest));
    var k := C.Quotient(rest, C.Fold(rest));
    assert rest + w == w - v + 0xFFFF * (k + 1);
    MultipleShift(w - v, rest + w, k + 1);
  }

  lemma MultipleShift(d: int, n: int, k: int)
    requires n == d + 0xFFFF * k
    ensures n % 0xFFFF == 0 <==> d % 0xFFFF == 0
  {
    assert n % 0xFFFF == d % 0xFFFF;
  }

  /** The sum of the header's words except the checksum. */
  function HeaderRest(f: IpFrame): nat {
    Rest(f) + TtlWord(f) + C.Sum(f.srcIp) + C.Sum(f.dstIp)
  }

  lemma ResummedValue(f: IpFrame)
    requires Sized(f)
    ensures Number(Resummed(f).sum) == C.Not(C.Fold(HeaderRest(f)))
    ensures HeaderRest(f) > 0
  {
    hide C.Sum, C.Fold, Header;
    HeaderSum(f.(sum := [0, 0]));
    C.NoOverflow(Header(f.(sum := [0, 0])));
    FieldNumber(Header(f.(sum := [0, 0])));
  }

  /** A header verifies exactly when its checksum field holds the recomputed value, or holds 0xFFFF
      where that value is 0. In particular recomputing it makes any header verify. */
  lemma HeaderVerifies(f: IpFrame)
    requires Sized(f)
    ensures C.Verifies(Header(f)) <==>
            var v := Number(Resummed(f).sum); Number(f.sum) == v || (v == 0 && Number(f.sum) == 0xFFFF)
    ensures C.Verifies(Header(Resummed(f)))
  {
    hide C.Sum, C.Fold, C.Field, Header;
    ResummedValue(f);
    Completes(HeaderRest(f), Number(f.sum));
    HeaderSum(f);
    C.NoOverflow(Header(f));
    var g := Resummed(f);
    Completes(HeaderRest(f), Number(g.sum));
    HeaderSum(g);
    C.NoOverflow(Header(g));
  }

  /** What a header that verifies says about its sum. */
  lemma VerifiedSum(f: IpFrame)
    requires Sized(f) && C.Verifies(Header(f))
    ensures (HeaderRest(f) + Number(f.sum)) % 0xFFFF == 0
    ensures HeaderRest(f) > TtlWord(f)
  {
    HeaderSum(f);
    C.NoOverflow(Header(f));
  }

  // ---------------------------------------------------------------- forwarding

  /** The frame sent on carries a header that verifies, whatever checksum came in. */
  lemma ForwardVerifies(f: IpFrame, mac: seq<byte>)
    requires Sized(f) && f.ttl > 0
    ensures C.Verifies(Header(Forward(f, mac)))
  {
    var g := f.(ttl := f.ttl - 1);
    HeaderVerifies(g);
    assert Header(Forward(f, mac)) == Header(Resummed(g));
  }

  /** For a header that verifies, recomputing the checksum after the decrement is equation 3 of
      RFC 1624 applied to the TTL/protocol word, 0x0000 and 0xFFFF included. */
  lemma ForwardIsIncremental(f: IpFrame, mac: seq<byte>)
    requires Sized(f) && f.ttl > 0 && C.Verifies(Header(f))
    ensures Number(Forward(f, mac).sum) == C.Equation3(Number(f.sum), TtlWord(f), TtlWord(f) - 0x100)
  {
    hide C.Sum, C.Fold, C.Equation3, C.Field, Header;
    var g := f.(ttl := f.ttl - 1);
    var others, m := HeaderRest(f) - TtlWord(f), TtlWord(f);
    VerifiedSum(f);
    Rfc.IncrementalExact(others, Number(f.sum), m, m - 0x100);
    assert HeaderRest(g) == others + (m - 0x100);
    ResummedValue(g);
  }

  // ---------------------------------------------------------------- echo replies

  /** The reply's header verifies; for a request that verified, the checksum of the reply is that of
      the request, except that 0xFFFF becomes 0: exchanging the addresses does not change the sum. */
  lemma EchoReplyHeader(f: IpFrame, mac: seq<byte>)
    requires Repliable(f)
    ensures C.Verifies(Header(EchoReply(f, mac)))
    ensures C.Verifies(Header(f)) ==>
              Number(EchoReply(f, mac).sum) == if Number(f.sum) == 0xFFFF then 0 else Number(f.sum)
  {
    hide C.Sum, C.Fold, C.Field, ReplyMessage;
    var g := f.(dst := f.src, src := mac, srcIp := f.dstIp, dstIp := f.srcIp);
    var h := g.(dst := f.dst, src := f.src);
    assert Header(EchoReply(f, mac)) == Header(Resummed(h));
    HeaderVerifies(h);
    HeaderVerifies(f);
    ResummedValue(f);
    ResummedValue(h);
    assert EchoReply(f, mac).sum == Resummed(h).sum by {
      assert Header(g.(sum := [0, 0])) == Header(h.(sum := [0, 0]));
    }
  }

  lemma MessageSum(kind: byte, code: byte, sum: seq<byte>, data: seq<byte>)
    requires |sum| == 2
    ensures C.Sum([kind, code] + sum + data) == 0x100 * kind + code + Number(sum) + C.Sum(data)
  {
    C.SumConcat([kind, code], sum);
    C.SumConcat([kind, code] + sum, data);
    SumOfTwo([kind, code]);
    SumOfTwo(sum);
  }

  /** The reply message verifies, of even or odd length, whatever checksum the request had. */
  lemma ReplyMessageVerifies(m: seq<byte>)
    requires 8 <= |m| <= C.MAX_LENGTH
    ensures C.Verifies(ReplyMessage(m))
    ensures Number(ReplyMessage(m)[2..4]) == C.Not(C.Fold(m[1] + C.Sum(m[4..])))
  {
    hide C.Sum, C.Fold;
    var blank := [ICMP_ECHO_REPLY, m[1], 0, 0] + m[4..];
    assert blank == [ICMP_ECHO_REPLY, m[1]] + [0, 0] + m[4..];
    MessageSum(ICMP_ECHO_REPLY, m[1], [0, 0], m[4..]);
    C.NoOverflow(blank);
    FieldNumber(blank);
    var r := ReplyMessage(m);
    assert r[2..4] == C.Field(blank);
    MessageSum(ICMP_ECHO_REPLY, m[1], C.Field(blank), m[4..]);
    C.NoOverflow(r);
    Completes(m[1] + C.Sum(m[4..]), C.Value(blank));
  }

  /** The sums of a request that verifies: of its data, and of the whole message. */
  lemma RequestSum(m: seq<byte>)
    requires 8 <= |m| <= C.MAX_LENGTH && m[0] == ICMP_ECHO_REQUEST && C.Verifies(m)
    ensures (C.Sum(m[4..]) + Number(m[2..4]) + (0x0800 + m[1] as int)) % 0xFFFF == 0
  {
    assert m == [m[0], m[1]] + m[2..4] + m[4..];
    MessageSum(m[0], m[1], m[2..4], m[4..]);
    C.NoOverflow(m);
  }

  /** For a request that verified, the reply's checksum is the old one plus 0x0800 modulo 65535. */
  lemma ReplyChecksumShift(m: seq<byte>)
    requires 8 <= |m| <= C.MAX_LENGTH && m[0] == ICMP_ECHO_REQUEST && C.Verifies(m)
    ensures C.Congruent(Number(ReplyMessage(m)[2..4]), 0x0800 + Number(m[2..4]) as int)
  {
    var rest, before := C.Sum(m[4..]), Number(m[2..4]);
    RequestSum(m);
    ReplyMessageVerifies(m);
    var k := C.Quotient(m[1] + rest, C.Fold(m[1] + rest));
    var j := (rest + before + (0x0800 + m[1] as int)) / 0xFFFF;
    C.CongruentBy(Number(ReplyMessage(m)[2..4]), 0x0800 + before as int, 1 + k - j);
  }

  /** The message has a non-zero byte besides its type and its checksum. */
  predicate CarriesSomething(m: seq<byte>)
    requires |m| >= 8
  {
    m[1] != 0 || exists i | 4 <= i < |m| :: m[i] != 0
  }

  lemma CarriesSum(m: seq<byte>)
    requires |m| >= 8
    ensures CarriesSomething(m) <==> !(m[1] == 0 && C.Sum(m[4..]) == 0)
  {
    C.SumZero(m[4..]);
    assert forall i | 4 <= i < |m| :: m[i] == m[4..][i - 4];
    if i :| 0 <= i < |m[4..]| && m[4..][i] != 0 {
      assert m[i + 4] != 0;
    }
  }

  /** For a request that verified, the recomputed checksum is the one equation 3 of RFC 1624 gives
      exactly when the request carries something besides its type and its checksum. */
  lemma ReplyIsIncremental(m: seq<byte>)
    requires 8 <= |m| <= C.MAX_LENGTH && m[0] == ICMP_ECHO_REQUEST && C.Verifies(m)
    ensures Number(ReplyMessage(m)[2..4]) == C.Equation3(Number(m[2..4]), 0x0800 + m[1] as int, m[1]) <==>
            CarriesSomething(m)
  {
    hide C.Sum, C.Fold, ReplyMessage, CarriesSomething;
    RequestSum(m);
    ReplyMessageVerifies(m);
    CarriesSum(m);
    Rfc.Incremental(C.Sum(m[4..]), Number(m[2..4]), 0x0800 + m[1] as int, m[1]);
  }

  /** A ping that carries nothing: the code stores 0xFFFF where equation 3 gives 0. */
  lemma EmptyPingDiffers()
    ensures var m := [ICMP_ECHO_REQUEST, 0, 0xF7, 0xFF, 0, 0, 0, 0];
            && C.Verifies(m)
            && Number(ReplyMessage(m)[2..4]) == 0xFFFF
            && C.Equation3(Number(m[2..4]), 0x0800, 0) == 0
  {
    hide C.Fold;
    var m := [ICMP_ECHO_REQUEST, 0, 0xF7, 0xFF, 0, 0, 0, 0];
    var zeros: seq<byte> := [0, 0, 0, 0];
    assert m == [ICMP_ECHO_REQUEST, 0] + [0xF7, 0xFF] + zeros;
    C.SumZero(zeros);
    MessageSum(ICMP_ECHO_REQUEST, 0, [0xF7, 0xFF], zeros);
    C.NoOverflow(m);
    assert m[4..] == zeros;
    ReplyMessageVerifies(m);
    C.FoldCharacterised(0, 0);
    C.FoldAllOnes(0xFFFF);
  }

  /** Where the parts of a frame lie. */
  lemma FieldBytes(s: seq<byte>)
    requires Parsable(s)
    ensures var f, m := Parse(s), ETH_SIZE + HeaderLen(s[14]);
            && s[..6] == f.dst && s[6..12] == f.src
            && s[12..24] == f.etherType + [f.verIhl, f.tos] + f.totalLen + f.id + f.flags + [f.ttl, f.protocol]
            && s[26..30] == f.srcIp && s[30..34] == f.dstIp && s[34..m] == f.options && s[m..] == f.rest
  {
  }

  /** The reply byte by byte: addresses exchanged, the type cleared, the two checksums replaced;
      header, options, identifier, sequence number, data and padding are untouched. */
  lemma EchoReplyBytes(s: seq<byte>, mac: seq<byte>)
    requires WellFormed(s) && IsEchoRequest(Parse(s)) && |mac| == 6
    ensures var r, m := Serialize(EchoReply(Parse(s), mac)), ETH_SIZE + HeaderLen(s[14]);
            && |r| == |s|
            && r[..6] == s[6..12] && r[6..12] == mac && r[12..24] == s[12..24]
            && r[26..30] == s[30..34] && r[30..34] == s[26..30] && r[34..m] == s[34..m]
            && r[m] == ICMP_ECHO_REPLY && r[m + 1] == s[m + 1] && r[m + 4..] == s[m + 4..]
  {
    hide Parse, Serialize, Header, EchoReply, HeaderLen;
    var f := Parse(s);
    var g := EchoReply(f, mac);
    var r, m := Serialize(g), ETH_SIZE + HeaderLen(s[14]);
    EchoRest(f, mac);
    ParseSerialize(g);
    SerializeParse(s);
    FieldBytes(s);
    FieldBytes(r);
    assert r[m + 4..] == r[m..][4..] && s[m + 4..] == s[m..][4..];
    assert r[m] == r[m..][0] && r[m + 1] == r[m..][1] && s[m + 1] == s[m..][1];
  }

  lemma EchoRest(f: IpFrame, mac: seq<byte>)
    requires Repliable(f)
    ensures var g := EchoReply(f, mac);
            && |g.rest| == |f.rest| && g.rest[4..] == f.rest[4..]
            && g.rest[0] == ICMP_ECHO_REPLY && g.rest[1] == f.rest[1]
            && |g.sum| == 2
            && g == f.(dst := f.src, src := mac, srcIp := f.dstIp, dstIp := f.srcIp, sum := g.sum, rest := g.rest)
  {
  }

  /** The forwarded frame byte by byte: time to live, header checksum and link addresses change. */
  lemma ForwardBytes(s: seq<byte>, mac: seq<byte>)
    requires Parsable(s)
    requires s[22] > 0 && |mac| == 6
    ensures var r := Serialize(Forward(Parse(s), mac));
            && |r| == |s|
            && r[..6] == BROADCAST && r[6..12] == mac && r[12..22] == s[12..22]
            && r[22] == s[22] - 1 && r[23] == s[23] && r[26..] == s[26..]
  {
    hide Parse, Serialize, Header, HeaderLen, C.Field;
    assert Parse(s).ttl == s[22] by { FieldBytes(s); assert s[12..24][10] == s[22]; }
    var f := Parse(s);
    var g := Forward(f, mac);
    var r := Serialize(g);
    ParseSerialize(g);
    SerializeParse(s);
    FieldBytes(s);
    FieldBytes(r);
    var m := ETH_SIZE + HeaderLen(s[14]);
    assert r[12..24][..10] == s[12..24][..10];
    assert r[12..22] == r[12..24][..10] && s[12..22] == s[12..24][..10];
    assert r[22] == r[12..24][10] && r[23] == r[12..24][11] && s[23] == s[12..24][11];
    Quarters(r, 26, 30, 34, m);
    Quarters(s, 26, 30, 34, m);
  }

  lemma Quarters(s: seq<byte>, a: nat, b: nat, c: nat, d: nat)
    requires a <= b <= c <= d <= |s|
    ensures s[a..] == s[a..b] + s[b..c] + s[c..d] + s[d..]
  {
  }
}
