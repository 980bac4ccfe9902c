/**
  Echo requests and RFC 1122. The code answers every echo request for a gateway, looking at neither
  checksums nor fragmentation nor options: when is its answer the one the standard has a host give?
 */
module EchoConformance {
  import opened Bytes
  import opened Ip
  import opened EchoOptions
  import C = Checksum
  import opened IpTheorems

  // ---------------------------------------------------------------- which requests are answered

  const VERSION: nat := 4

  /** More fragments follow, or this is not the first. */
  predicate IsFragment(f: IpFrame)
    requires Sized(f)
  {
    Number(f.flags) % 0x4000 != 0
  }

  /** Section 3.2.1.3: not this network, not the loopback, neither multicast nor beyond. */
  predicate IsHostAddress(ip: seq<byte>)
    requires |ip| == 4
  {
    ip[0] != 0 && ip[0] != 127 && ip[0] < 224
  }

  /** The header passes sections 3.2.1.1 to 3.2.1.3, and the datagram is at its destination (section
      3.2.1.8); with `advised`, it did not come by link-level broadcast either (section 3.3.6). */
  predicate HasArrived(f: IpFrame, advised: bool)
    requires Sized(f)
  {
    && f.verIhl as int / 0x10 == VERSION && C.Verifies(Header(f)) && IsHostAddress(f.srcIp)
    && !Unfinished(f.options)
    && (advised ==> f.dst != BROADCAST)
  }

  /** It is a whole message (a fragment waits for the others, section 3.3.2), and undamaged by the ICMP
      checksum of RFC 792. */
  predicate IsAnswered(f: IpFrame, advised: bool)
    requires Repliable(f)
  {
    HasArrived(f, advised) && !IsFragment(f) && C.Verifies(Icmp(f))
  }

  function SettingOf(f: IpFrame, now: seq<byte>, advised: bool): (c: Setting)
    requires Sized(f) && |now| == 4
    ensures Complete(c)
  {
    Setting(f.dstIp, f.srcIp, now, advised)
  }

  /** The answer to an echo request that arrives at time `now`, sent with the given time to live. What
      the standard leaves to the host is as the code has it. */
  function Rfc1122(f: IpFrame, mac: seq<byte>, ttl: byte, now: seq<byte>, advised: bool): seq<IpFrame>
    requires Repliable(f) && |now| == 4
  {
    if !IsAnswered(f, advised) then []
    else
      var reply := f.(dst := f.src, src := mac, ttl := ttl,
                      srcIp := f.dstIp, dstIp := FirstHop(f.options, f.srcIp),
                      options := ReplyOptions(f.options, SettingOf(f, now, advised)));
      [Resummed(reply).(rest := ReplyMessage(Icmp(f)) + f.rest[IcmpLen(f)..])]
  }

  /** What the code sends is an answer of RFC 1122 with some time to live; section 3.2.1.7 forbids 0. */
  ghost predicate Conforms(f: IpFrame, mac: seq<byte>, now: seq<byte>, advised: bool)
    requires Repliable(f) && |now| == 4
  {
    exists ttl: byte | ttl > 0 :: Rfc1122(f, mac, ttl, now, advised) == [EchoReply(f, mac)]
  }

  /** The code's answer is one of RFC 1122 exactly when the request is to be answered as it stands, has
      some time to live, and carries no option that calls for a change: no source route to turn round
      and, where what is recommended is asked for too, no record route or timestamp option the router
      could still add itself to. */
  lemma ConformsToRfc1122(f: IpFrame, mac: seq<byte>, now: seq<byte>, advised: bool)
    requires Repliable(f) && |now| == 4
    ensures Conforms(f, mac, now, advised) <==>
            IsAnswered(f, advised) && f.ttl > 0 && !SomeDue(f.options, SettingOf(f, now, advised))
  {
    hide ReplyOptions, SomeDue, ReplyMessage, Header, IsAnswered, FirstHop;
    var c := SettingOf(f, now, advised);
    OptionsDiffer(f.options, c);
    if IsAnswered(f, advised) && f.ttl > 0 && !SomeDue(f.options, c) {
      SentToSource(f.options, c);
      assert Rfc1122(f, mac, f.ttl, now, advised) == [EchoReply(f, mac)];
    }
  }

  /** A request without options: all that matters is that it is to be answered. */
  lemma WithoutOptions(f: IpFrame, mac: seq<byte>, now: seq<byte>, advised: bool)
    requires Repliable(f) && |now| == 4 && HeaderLen(f.verIhl) == 20
    ensures Conforms(f, mac, now, advised) <==> IsAnswered(f, advised) && f.ttl > 0
  {
    ConformsToRfc1122(f, mac, now, advised);
  }

  // ---------------------------------------------------------------- fragments

  /** What becomes of a message whose first fragment carries `a` and is answered, once the receiver puts
      the reply and the other fragments `b` together: the checksum covers `a` alone, so the whole
      verifies exactly when the rest adds nothing to the sum. */
  lemma ReassembledReply(a: seq<byte>, b: seq<byte>)
    requires 8 <= |a| && |a| % 2 == 0 && |a| + |b| <= C.MAX_LENGTH
    ensures C.Verifies(ReplyMessage(a) + b) <==> C.Sum(b) % 0xFFFF == 0
  {
    hide C.Sum, ReplyMessage;
    ReplyMessageVerifies(a);
    C.NoOverflow(ReplyMessage(a));
    C.SumConcat(ReplyMessage(a), b);
    C.NoOverflow(ReplyMessage(a) + b);
    var k := C.Sum(ReplyMessage(a)) / 0xFFFF;
    assert C.Sum(ReplyMessage(a)) == 0xFFFF * k;
    MultipleShift(C.Sum(b), C.Sum(ReplyMessage(a) + b), k);
  }

  // ---------------------------------------------------------------- where the code does not conform

  lemma SumOfFour(a: byte, b: byte, c: byte, d: byte)
    ensures C.Sum([a, b, c, d]) == 0x100 * (a as int) + b as int + 0x100 * (c as int) + d as int
  {
    assert [a, b, c, d] == [a, b] + [c, d];
    C.SumConcat([a, b], [c, d]);
    SumOfTwo([a, b]);
    SumOfTwo([c, d]);
  }

  /** A ping of 192.168.1.1 by 192.168.2.7 that has arrived but for its options and fragmentation. */
  function Ping(verIhl: byte, len: byte, flags: byte, sum: seq<byte>, options: seq<byte>, rest: seq<byte>): IpFrame {
    IpFrame([2, 0, 0, 0, 0, 1], [2, 0, 0, 0, 0, 9], [8, 0], verIhl, 0, [0, len], [0, 0], [flags, 0],
            64, IPPROTO_ICMP, sum, [192, 168, 2, 7], TAP0_GATEWAY_IP, options, rest)
  }

  lemma PingSum(verIhl: byte, len: byte, flags: byte, sum: seq<byte>, options: seq<byte>, rest: seq<byte>)
    requires |sum| == 2 && HeaderLen(verIhl) == 20 + |options|
    ensures var f := Ping(verIhl, len, flags, sum, options, rest);
            && Sized(f) && |Header(f)| == HeaderLen(verIhl)
            && C.Sum(Header(f)) ==
               0x100 * (verIhl as int) + len as int + 0x100 * (flags as int) + Number(sum) + C.Sum(options) + 0x1C459
  {
    var f := Ping(verIhl, len, flags, sum, options, rest);
    HeaderSum(f);
    hide C.Sum, Header, HeaderLen;
    SumOfFour(192, 168, 2, 7);
    SumOfFour(192, 168, 1, 1);
    SumOfTwo(f.totalLen);
    SumOfTwo(f.id);
    SumOfTwo(f.flags);
  }

  lemma PingVerifies(verIhl: byte, len: byte, flags: byte, sum: seq<byte>, options: seq<byte>, rest: seq<byte>)
    requires |sum| == 2 && HeaderLen(verIhl) == 20 + |options|
    requires var words := 0x100 * (verIhl as int) + len as int + 0x100 * (flags as int) + Number(sum) + C.Sum(options);
             (words + 0x1C459) % 0xFFFF == 0
    ensures C.Verifies(Header(Ping(verIhl, len, flags, sum, options, rest)))
  {
    hide C.Sum, C.Verifies, Header, Ping;
    PingSum(verIhl, len, flags, sum, options, rest);
    C.NoOverflow(Header(Ping(verIhl, len, flags, sum, options, rest)));
  }

  const EMPTY_PING: seq<byte> := [ICMP_ECHO_REQUEST, 0, 0xF7, 0xFF, 0, 0, 0, 0]

  /** The loose source route through 10.0.0.1, with the given pointer, and the end of the list. */
  function Routed(pointer: byte, sum: seq<byte>): IpFrame {
    Ping(0x47, 36, 0, sum, [LOOSE_SOURCE_ROUTE, 7, pointer, 10, 0, 0, 1, END_OF_LIST], EMPTY_PING)
  }

  lemma RoutedSum(pointer: byte)
    ensures C.Sum([LOOSE_SOURCE_ROUTE, 7, pointer, 10, 0, 0, 1, END_OF_LIST]) == 0x100 * (pointer as int) + 0x8411
  {
    SumOfFour(LOOSE_SOURCE_ROUTE, 7, pointer, 10);
    SumOfFour(0, 0, 1, END_OF_LIST);
    var first, second := [LOOSE_SOURCE_ROUTE, 7, pointer, 10], [0, 0, 1, END_OF_LIST];
    assert first + second == [LOOSE_SOURCE_ROUTE, 7, pointer, 10, 0, 0, 1, END_OF_LIST];
    hide C.Sum;
    C.SumConcat(first, second);
  }

  lemma RoutedShape(pointer: byte, sum: seq<byte>)
    requires |sum| == 2
    ensures var f := Routed(pointer, sum);
            Repliable(f) && IsEchoRequest(f) && !IsFragment(f) && Icmp(f) == EMPTY_PING
  {
    assert EMPTY_PING[..8] == EMPTY_PING;
  }

  lemma RoutedVerifies(pointer: byte, sum: seq<byte>)
    requires |sum| == 2 && (Number(sum) + 0x100 * (pointer as int) + 0x28F8E) % 0xFFFF == 0
    ensures var f := Routed(pointer, sum);
            && Repliable(f) && IsEchoRequest(f) && !IsFragment(f)
            && C.Verifies(Header(f)) && C.Verifies(Icmp(f))
  {
    hide C.Sum, C.Verifies, C.Equation3, Header, ReplyMessage;
    RoutedShape(pointer, sum);
    EmptyPingDiffers();
    RoutedSum(pointer);
    PingVerifies(0x47, 36, 0, sum, Routed(pointer, sum).options, EMPTY_PING);
  }

  /** A request that has travelled its source route: the reply should go to 10.0.0.1 and on to the
      sender; the code sends it straight to the sender, with the route as it came. */
  lemma SourceRouteKept(mac: seq<byte>, ttl: byte, now: seq<byte>, advised: bool)
    requires |now| == 4
    ensures var f := Routed(8, [0x68, 0x6F]);
            && Repliable(f) && IsEchoRequest(f) && IsAnswered(f, advised)
            && var sent, due := EchoReply(f, mac), Rfc1122(f, mac, ttl, now, advised)[0];
            && sent.dstIp == f.srcIp && sent.options == f.options
            && due.dstIp == [10, 0, 0, 1]
            && due.options == [LOOSE_SOURCE_ROUTE, 7, 4] + f.srcIp + [END_OF_LIST]
  {
    RoutedVerifies(8, [0x68, 0x6F]);
    var f := Routed(8, [0x68, 0x6F]);
    OneHopList(SettingOf(f, now, advised));
    hide Header, ReplyMessage, ReplyOptions, FirstHop, C.Sum;
  }

  /** The same request before it has been to 10.0.0.1: it is to be passed on, and the code answers it. */
  lemma UnfinishedRouteAnswered(mac: seq<byte>, ttl: byte, now: seq<byte>, advised: bool)
    requires |now| == 4
    ensures var f := Routed(4, [0x6C, 0x6F]);
            && Repliable(f) && IsEchoRequest(f) && C.Verifies(Header(f)) && C.Verifies(Icmp(f))
            && !SomeDue(f.options, SettingOf(f, now, advised))
            && Rfc1122(f, mac, ttl, now, advised) == []
  {
    RoutedVerifies(4, [0x6C, 0x6F]);
    UnvisitedList(SettingOf(Routed(4, [0x6C, 0x6F]), now, advised));
    hide Header, ReplyMessage, C.Verifies, Unfinished, SomeDue;
  }

  const FIRST_FRAGMENT: seq<byte> := [ICMP_ECHO_REQUEST, 0, 0xF7, 0xFE, 0, 0, 0, 0]

  /** The first fragment of a ping of which one more is to come. */
  function Fragment(): (f: IpFrame)
    ensures Repliable(f) && IsEchoRequest(f) && Icmp(f) == FIRST_FRAGMENT
  {
    assert FIRST_FRAGMENT[..8] == FIRST_FRAGMENT;
    Ping(0x45, 28, 0x20, [0xD6, 0x88], [], FIRST_FRAGMENT)
  }

  lemma FragmentSum()
    ensures C.Sum(FIRST_FRAGMENT) == 0xFFFE && C.Sum([0, 1]) == 1
  {
    var first, second: seq<byte> := [ICMP_ECHO_REQUEST, 0, 0xF7, 0xFE], [0, 0, 0, 0];
    assert FIRST_FRAGMENT == first + second;
    hide C.Sum;
    SumOfFour(ICMP_ECHO_REQUEST, 0, 0xF7, 0xFE);
    SumOfFour(0, 0, 0, 0);
    SumOfTwo([0, 1]);
    C.SumConcat(first, second);
  }

  lemma FragmentVerifies()
    ensures C.Verifies(Header(Fragment()))
  {
    assert C.Sum([]) == 0;
    hide C.Sum, C.Verifies, Header;
    PingVerifies(0x45, 28, 0x20, [0xD6, 0x88], [], FIRST_FRAGMENT);
  }

  /** With the last fragment `b` the ping verifies. RFC 1122 waits for it; the code answers the first
      fragment, and its answer together with `b` does not verify. */
  lemma FragmentAnswered(mac: seq<byte>, ttl: byte, now: seq<byte>, advised: bool)
    requires |now| == 4
    ensures var f, b := Fragment(), [0, 1];
            && HasArrived(f, advised) && Rfc1122(f, mac, ttl, now, advised) == []
            && C.Verifies(Icmp(f) + b) && !C.Verifies(ReplyMessage(Icmp(f)) + b)
  {
    hide C.Sum, C.Verifies, Header, ReplyMessage;
    var a, b := Icmp(Fragment()), [0, 1];
    FragmentVerifies();
    FragmentSum();
    C.SumConcat(a, b);
    C.NoOverflow(a + b);
    ReassembledReply(a, b);
  }
}
