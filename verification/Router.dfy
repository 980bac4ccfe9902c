/**
  The two-interface dispatch of `main` as a step, and every run in which emitted frames come back.
 */
module Router {
  import opened Bytes
  import opened Numbers
  import Arp
  import Ip
  import IpRouter

  datatype Port = Tap0 | Tap1
  datatype Output = Nothing | Sent(port: Port, frame: seq<byte>)

  function Mac(port: Port): (mac: seq<byte>)
    ensures |mac| == 6
  {
    match port case Tap0 => [2, 0, 0, 0, 0, 1] case Tap1 => [2, 0, 0, 0, 0, 2]
  }

  function Gateway(port: Port): (ip: seq<byte>)
    ensures |ip| == 4
  {
    match port case Tap0 => Ip.TAP0_GATEWAY_IP case Tap1 => Ip.TAP1_GATEWAY_IP
  }

  function Other(port: Port): Port {
    match port case Tap0 => Tap1 case Tap1 => Tap0
  }

  function EtherType(s: seq<byte>): u16
    requires |s| >= Ip.ETH_SIZE
  {
    Number(s[12..14])
  }

  predicate IsArp(s: seq<byte>) { |s| >= Ip.ETH_SIZE && EtherType(s) == Arp.ETH_P_ARP }
  predicate IsIp(s: seq<byte>) { |s| >= Ip.ETH_SIZE && EtherType(s) == Ip.ETH_P_IP }

  /** The frames the handlers can be given: whatever they read lies within the frame. */
  predicate WellFormed(s: seq<byte>) {
    && |s| <= Ip.BUFFER_SIZE
    && (IsArp(s) ==> |s| >= Arp.ARP_FRAME_SIZE)
    && (IsIp(s) ==> Ip.WellFormed(s))
  }

  /** What the router sends in answer to a frame received on `port`. */
  function Deliver(port: Port, s: seq<byte>): Output
    requires WellFormed(s)
  {
    if IsArp(s) then
      if Arp.Answers(Arp.Parse(s), Gateway(port)) then Sent(port, Arp.Outcome(s, Mac(port), Gateway(port))) else Nothing
    else if IsIp(s) then
      var (verdict, g) := IpRouter.Route(Ip.Parse(s), Mac(port), Mac(Other(port)));
      match verdict
      case Replied => Sent(port, Ip.Serialize(g))
      case Forwarded => Sent(Other(port), Ip.Serialize(g))
      case Dropped => Nothing
    else Nothing
  }

  /** One turn of the main loop for one interface, after `read` has put `nread` bytes in the buffer. */
  method Receive(e: Endian, buffer: array<byte>, nread: nat, port: Port) returns (out: Output)
    requires nread <= buffer.Length == Ip.BUFFER_SIZE && WellFormed(buffer[..nread])
    modifies buffer
    ensures out == Deliver(port, old(buffer[..nread]))
    ensures out.Sent? ==> out.frame == buffer[..nread]
    ensures buffer[nread..] == old(buffer[nread..])
  {
    out := Nothing;
    if nread >= Ip.ETH_SIZE {
      NtohsLoad(e, buffer[12], buffer[13]);
      assert [buffer[12], buffer[13]] == buffer[..nread][12..14];
      var kind := Ntohs(e, LoadHost(e, buffer[12], buffer[13]));
      if kind == Arp.ETH_P_ARP {
        var sent := Arp.HandleArp(e, buffer, nread, Mac(port), Gateway(port));
        if sent { out := Sent(port, buffer[..nread]); }
      } else if kind == Ip.ETH_P_IP {
        var verdict := IpRouter.HandleIp(e, buffer, nread, Mac(port), Mac(Other(port)));
        match verdict {
          case Replied => out := Sent(port, buffer[..nread]);
          case Forwarded => out := Sent(Other(port), buffer[..nread]);
          case Dropped =>
        }
      }
    }
  }

  /** What the ARP-only router of arp.c sends; it copes with every frame, however short. */
  function DeliverArpOnly(port: Port, s: seq<byte>): Output {
    if IsArp(s) && |s| >= Arp.ARP_FRAME_SIZE && Arp.Answers(Arp.Parse(s), Gateway(port))
    then Sent(port, Arp.Outcome(s, Mac(port), Gateway(port)))
    else Nothing
  }

  /** One turn of the main loop of arp.c for one interface. */
  method ReceiveArpOnly(e: Endian, buffer: array<byte>, nread: nat, port: Port) returns (out: Output)
    requires nread <= buffer.Length
    modifies buffer
    ensures out == DeliverArpOnly(port, old(buffer[..nread]))
    ensures buffer[nread..] == old(buffer[nread..])
  {
    out := Nothing;
    if nread >= Ip.ETH_SIZE {
      NtohsLoad(e, buffer[12], buffer[13]);
      assert [buffer[12], buffer[13]] == buffer[..nread][12..14];
      if Ntohs(e, LoadHost(e, buffer[12], buffer[13])) == Arp.ETH_P_ARP {
        var sent := Arp.HandleArpGuarded(e, buffer, nread, Mac(port), Gateway(port));
        if sent { out := Sent(port, buffer[..nread]); }
      }
    }
  }

  /** The ARP-only router does on every frame what the full router does on ARP frames it can be
      given, and its replies are never answered, through either interface. */
  lemma ArpRoutersAgree(port: Port, other: Port, s: seq<byte>)
    ensures WellFormed(s) && IsArp(s) ==> DeliverArpOnly(port, s) == Deliver(port, s)
    ensures var out := DeliverArpOnly(port, s); out.Sent? ==> DeliverArpOnly(other, out.frame) == Nothing
  {
    if IsArp(s) && |s| >= Arp.ARP_FRAME_SIZE && Arp.Answers(Arp.Parse(s), Gateway(port)) {
      Arp.ReplyProvokesNone(s, Mac(port), Gateway(port), Gateway(other));
    }
  }

  // ---------------------------------------------------------------- how much a frame can cause

  /** The number of emissions a frame can still cause. */
  function Budget(s: seq<byte>): nat
    requires WellFormed(s)
  {
    if IsArp(s) then
      if Arp.Answers(Arp.Parse(s), Gateway(Tap0)) || Arp.Answers(Arp.Parse(s), Gateway(Tap1)) then 1 else 0
    else if IsIp(s) then
      IpBudget(Ip.Parse(s))
    else 0
  }

  function IpBudget(f: Ip.IpFrame): nat {
    if Ip.IsEchoRequest(f) then Max(f.ttl, 1) else Max(f.ttl - 1, 0)
  }

  lemma DeliverArp(port: Port, s: seq<byte>)
    requires WellFormed(s) && IsArp(s)
    ensures var out := Deliver(port, s);
            out.Sent? ==> Budget(s) == 1 && WellFormed(out.frame) && IsArp(out.frame) && Budget(out.frame) == 0
  {
    if Arp.Answers(Arp.Parse(s), Gateway(port)) {
      Arp.ReplyProvokesNone(s, Mac(port), Gateway(port), Gateway(Tap0));
      Arp.ReplyProvokesNone(s, Mac(port), Gateway(port), Gateway(Tap1));
      var r := Arp.Outcome(s, Mac(port), Gateway(port));
      assert r[12..14] == r[12..20][..2] == s[12..20][..2] == s[12..14];
    }
  }

  lemma RouteBudget(f: Ip.IpFrame, inMac: seq<byte>, outMac: seq<byte>)
    requires Ip.Sized(f) && (Ip.ToGateway(f) ==> Ip.Repliable(f)) && |inMac| == |outMac| == 6
    ensures var (verdict, g) := IpRouter.Route(f, inMac, outMac);
            && Ip.Sized(g) && (Ip.ToGateway(g) ==> Ip.Repliable(g))
            && g.verIhl == f.verIhl && g.etherType == f.etherType && |g.rest| == |f.rest|
            && (verdict == IpRouter.Dropped <==> IpBudget(f) == 0)
            && (verdict != IpRouter.Dropped ==> IpBudget(g) == IpBudget(f) - 1)
  {
  }

  /** An IP frame is answered or forwarded exactly when its budget is positive, and the frame sent
      is well-formed and has one less. */
  lemma DeliverIp(port: Port, s: seq<byte>)
    requires WellFormed(s) && IsIp(s)
    ensures var out := Deliver(port, s);
            && (out.Nothing? <==> Budget(s) == 0)
            && (out.Sent? ==> WellFormed(out.frame) && IsIp(out.frame) && Budget(out.frame) == Budget(s) - 1)
  {
    hide Ip.Parse, Ip.Serialize, Ip.EchoReply, Ip.Forward;
    var f := Ip.Parse(s);
    RouteBudget(f, Mac(port), Mac(Other(port)));
    var (verdict, g) := IpRouter.Route(f, Mac(port), Mac(Other(port)));
    Ip.ParseSerialize(g);
    SameShape(s, f, g);
  }

  lemma SameShape(s: seq<byte>, f: Ip.IpFrame, g: Ip.IpFrame)
    requires Ip.Parsable(s) && f == Ip.Parse(s) && Ip.Sized(g)
    requires g.verIhl == f.verIhl && g.etherType == f.etherType && |g.rest| == |f.rest|
    ensures |Ip.Serialize(g)| == |s| && Ip.Serialize(g)[12..14] == s[12..14] && Ip.Serialize(g)[14] == s[14]
  {
    Ip.SerializeParse(s);
    Ip.ParseSerialize(g);
  }

  /** What one delivery costs: the budget of what is sent and the sending itself are covered by the
      budget of the frame received, exactly so for IP. */
  lemma DeliverBudget(port: Port, s: seq<byte>)
    requires WellFormed(s)
    ensures var out := Deliver(port, s);
            && (out.Nothing? && IsIp(s) ==> Budget(s) == 0)
            && (out.Sent? ==> WellFormed(out.frame) && Budget(out.frame) + 1 <= Budget(s))
            && (out.Sent? && IsIp(s) ==> IsIp(out.frame) && Budget(out.frame) + 1 == Budget(s))
  {
    if IsArp(s) {
      DeliverArp(port, s);
    } else if IsIp(s) {
      DeliverIp(port, s);
    }
    hide WellFormed, Budget, Ip.Parse, Ip.Serialize, Arp.Parse;
  }

  // ---------------------------------------------------------------- runs

  /** A frame in flight, and the origin it goes back to: what the router sends in answer to a frame
      has the origin of that frame. Origins are for the account only; the router does not see them. */
  datatype Flying = Flying(origin: nat, frame: seq<byte>)

  /** The frame at `index` of those in flight reaches the router through `port`. */
  datatype Delivery = Delivery(index: nat, port: Port)

  predicate AllWellFormed(flight: seq<Flying>) {
    forall p | p in flight :: WellFormed(p.frame)
  }

  function Without(flight: seq<Flying>, i: nat): seq<Flying>
    requires i < |flight|
  {
    flight[..i] + flight[i + 1..]
  }

  /** What a delivery sends, as it comes back into flight. */
  function Emission(p: Flying, port: Port): (r: seq<Flying>)
    requires WellFormed(p.frame)
    ensures |r| <= 1 && AllWellFormed(r) && forall q | q in r :: q.origin == p.origin
  {
    DeliverBudget(port, p.frame);
    var out := Deliver(port, p.frame);
    if out.Sent? then [Flying(p.origin, out.frame)] else []
  }

  /** The frames in flight after a delivery: one was taken, and what the router sent comes back. */
  function After(flight: seq<Flying>, d: Delivery): (r: seq<Flying>)
    requires AllWellFormed(flight) && d.index < |flight|
    ensures AllWellFormed(r)
  {
    Without(flight, d.index) + Emission(flight[d.index], d.port)
  }

  /** What is in flight afterwards, as a multiset: less the frame delivered, plus what left in answer to
      it, under the same origin. */
  lemma FedBack(flight: seq<Flying>, d: Delivery)
    requires AllWellFormed(flight) && d.index < |flight|
    ensures var p := flight[d.index];
            var out := Deliver(d.port, p.frame);
            multiset(After(flight, d)) + multiset{p} ==
            multiset(flight) + if out.Sent? then multiset{Flying(p.origin, out.frame)} else multiset{}
  {
    hide Deliver, WellFormed;
    assert flight == flight[..d.index] + [flight[d.index]] + flight[d.index + 1..];
  }

  predicate IsRun(flight: seq<Flying>, run: seq<Delivery>)
    requires AllWellFormed(flight)
    decreases run
  {
    run == [] || (run[0].index < |flight| && IsRun(After(flight, run[0]), run[1..]))
  }

  function Final(flight: seq<Flying>, run: seq<Delivery>): (r: seq<Flying>)
    requires AllWellFormed(flight) && IsRun(flight, run)
    ensures AllWellFormed(r)
    decreases run
  {
    if run == [] then flight else Final(After(flight, run[0]), run[1..])
  }

  function Counted(p: Flying, n: nat, origins: set<nat>): nat {
    if p.origin in origins then n else 0
  }

  /** How often the router sends in a run on account of frames of the given origins. */
  function Emissions(flight: seq<Flying>, run: seq<Delivery>, origins: set<nat>): nat
    requires AllWellFormed(flight) && IsRun(flight, run)
    decreases run
  {
    if run == [] then 0
    else
      var p := flight[run[0].index];
      Counted(p, |Emission(p, run[0].port)|, origins) + Emissions(After(flight, run[0]), run[1..], origins)
  }

  /** The emissions that frames of the given origins can still cause. */
  function BudgetOf(flight: seq<Flying>, origins: set<nat>): nat
    requires AllWellFormed(flight)
  {
    if flight == [] then 0 else Counted(flight[0], Budget(flight[0].frame), origins) + BudgetOf(flight[1..], origins)
  }

  lemma {:induction false} BudgetConcat(a: seq<Flying>, b: seq<Flying>, origins: set<nat>)
    requires AllWellFormed(a) && AllWellFormed(b)
    ensures AllWellFormed(a + b) && BudgetOf(a + b, origins) == BudgetOf(a, origins) + BudgetOf(b, origins)
  {
    hide WellFormed, Budget;
    if a == [] {
      assert a + b == b;
    } else {
      assert (a + b)[1..] == a[1..] + b;
      BudgetConcat(a[1..], b, origins);
    }
  }

  lemma BudgetOne(p: Flying, origins: set<nat>)
    requires WellFormed(p.frame)
    ensures AllWellFormed([p]) && BudgetOf([p], origins) == Counted(p, Budget(p.frame), origins)
  {
    hide WellFormed, Budget;
    var one := [p];
    assert one[1..] == [];
  }

  lemma BudgetWithout(flight: seq<Flying>, i: nat, origins: set<nat>)
    requires AllWellFormed(flight) && i < |flight|
    ensures AllWellFormed(Without(flight, i))
    ensures BudgetOf(flight, origins) ==
            Counted(flight[i], Budget(flight[i].frame), origins) + BudgetOf(Without(flight, i), origins)
  {
    hide WellFormed, Budget, BudgetOf;
    var front, p, back := flight[..i], flight[i], flight[i + 1..];
    assert flight == front + ([p] + back);
    BudgetOne(p, origins);
    BudgetConcat([p], back, origins);
    BudgetConcat(front, [p] + back, origins);
    BudgetConcat(front, back, origins);
  }

  lemma EmissionBudget(p: Flying, port: Port, origins: set<nat>)
    requires WellFormed(p.frame)
    ensures var sent := Emission(p, port);
            var spent := BudgetOf(sent, origins) + Counted(p, |sent|, origins);
            && spent <= Counted(p, Budget(p.frame), origins)
            && (IsIp(p.frame) ==> spent == Counted(p, Budget(p.frame), origins))
            && (IsIp(p.frame) ==> forall q | q in sent :: IsIp(q.frame))
  {
    hide WellFormed, Budget, Deliver, BudgetOf, IsIp;
    DeliverBudget(port, p.frame);
    var sent := Emission(p, port);
    if sent == [] {
      NoBudget(sent, origins);
    } else {
      BudgetOne(sent[0], origins);
      assert sent == [sent[0]];
    }
  }

  /** Frames none of which has a given origin hold no budget for it. */
  lemma {:induction false} NoBudget(flight: seq<Flying>, origins: set<nat>)
    requires AllWellFormed(flight) && forall p | p in flight :: p.origin !in origins
    ensures BudgetOf(flight, origins) == 0
  {
    hide WellFormed, Budget;
    if flight != [] { NoBudget(flight[1..], origins); }
  }

  lemma AfterBudget(flight: seq<Flying>, d: Delivery, origins: set<nat>)
    requires AllWellFormed(flight) && d.index < |flight|
    ensures var p := flight[d.index];
            var spent := BudgetOf(After(flight, d), origins) + Counted(p, |Emission(p, d.port)|, origins);
            && spent <= BudgetOf(flight, origins)
            && (p.origin in origins && IsIp(p.frame) ==> spent == BudgetOf(flight, origins))
            && (p.origin !in origins ==> spent == BudgetOf(flight, origins))
  {
    hide WellFormed, Budget, Deliver, BudgetOf, Without, Emission, IsIp;
    var p := flight[d.index];
    BudgetWithout(flight, d.index, origins);
    EmissionBudget(p, d.port, origins);
    BudgetConcat(Without(flight, d.index), Emission(p, d.port), origins);
    if p.origin !in origins { NoBudget(Emission(p, d.port), origins); }
  }

  /** All frames of the given origins are IP. */
  predicate AllIp(flight: seq<Flying>, origins: set<nat>) {
    forall p | p in flight && p.origin in origins :: IsIp(p.frame)
  }

  lemma AfterIp(flight: seq<Flying>, d: Delivery, origins: set<nat>)
    requires AllWellFormed(flight) && d.index < |flight| && AllIp(flight, origins)
    ensures AllIp(After(flight, d), origins)
  {
    hide WellFormed, Budget, Deliver, BudgetOf, IsIp, Emission;
    EmissionBudget(flight[d.index], d.port, origins);
  }

  predicate From(flight: seq<Flying>, origins: set<nat>) {
    forall p | p in flight :: p.origin in origins
  }

  /** Runs end, and nobody overspends. In any run, in whatever order and through whichever interfaces
      frames are delivered, and for any origins: what the router sends on account of their frames and
      what these can still cause stay within the budget they began with, and use it up exactly if
      they are IP. Counting all origins, every delivery takes one frame out of flight. */
  lemma {:induction false} RunBound(flight: seq<Flying>, run: seq<Delivery>, origins: set<nat>)
    requires AllWellFormed(flight) && IsRun(flight, run)
    ensures Emissions(flight, run, origins) + BudgetOf(Final(flight, run), origins) <= BudgetOf(flight, origins)
    ensures AllIp(flight, origins) ==>
              Emissions(flight, run, origins) + BudgetOf(Final(flight, run), origins) == BudgetOf(flight, origins)
    ensures From(flight, origins) ==> |run| + |Final(flight, run)| == |flight| + Emissions(flight, run, origins)
    decreases run
  {
    hide Deliver, WellFormed, Budget, BudgetOf, IsIp, Emission;
    if run != [] {
      AfterBudget(flight, run[0], origins);
      RunBound(After(flight, run[0]), run[1..], origins);
      if AllIp(flight, origins) { AfterIp(flight, run[0], origins); }
    }
  }

  /** The budget of a frame, by what it is. */
  lemma BudgetBound(s: seq<byte>)
    requires WellFormed(s)
    ensures Budget(s) <= if IsArp(s) then 1 else if IsIp(s) then Max(Ip.Parse(s).ttl, 1) else 0
    ensures IsIp(s) && Ip.IsEchoRequest(Ip.Parse(s)) ==> Budget(s) == Max(Ip.Parse(s).ttl, 1)
  {
    hide Ip.Parse;
  }

  /** One frame among any others in flight: an ARP frame makes the router send at most once in all, an
      IP frame of time to live t at most max(t, 1) times, any other never; and an echo request for a
      gateway exactly max(t, 1) times once everything has been delivered. */
  lemma OneFrame(flight: seq<Flying>, i: nat, run: seq<Delivery>)
    requires AllWellFormed(flight) && IsRun(flight, run) && i < |flight|
    requires forall j | 0 <= j < |flight| && j != i :: flight[j].origin != flight[i].origin
    ensures var s, sent := flight[i].frame, Emissions(flight, run, {flight[i].origin});
            && sent <= (if IsArp(s) then 1 else if IsIp(s) then Max(Ip.Parse(s).ttl, 1) else 0)
            && (Final(flight, run) == [] && IsIp(s) && Ip.IsEchoRequest(Ip.Parse(s)) ==>
                  sent == Max(Ip.Parse(s).ttl, 1))
  {
    hide WellFormed, Budget, BudgetOf, IsIp, IsArp, Ip.Parse, Emissions, Final;
    var origins := {flight[i].origin};
    BudgetBound(flight[i].frame);
    BudgetWithout(flight, i, origins);
    NoBudget(Without(flight, i), origins);
    RunBound(flight, run, origins);
    if Final(flight, run) == [] { NoBudget(Final(flight, run), origins); }
  }

  /** Every set of frames can be delivered to the end, and IP frames have then used up their budget. */
  lemma {:induction false} RunToEnd(flight: seq<Flying>, origins: set<nat>) returns (run: seq<Delivery>)
    requires AllWellFormed(flight) && From(flight, origins)
    ensures IsRun(flight, run) && Final(flight, run) == []
    ensures |run| == |flight| + Emissions(flight, run, origins) <= |flight| + BudgetOf(flight, origins)
    ensures AllIp(flight, origins) ==> Emissions(flight, run, origins) == BudgetOf(flight, origins)
    decreases |flight| + 2 * BudgetOf(flight, origins)
  {
    hide Deliver, WellFormed, Budget, BudgetOf, IsIp, Emission;
    if flight == [] {
      run := [];
    } else {
      var d := Delivery(0, Tap0);
      AfterBudget(flight, d, origins);
      var later := RunToEnd(After(flight, d), origins);
      run := [d] + later;
      assert run[1..] == later;
    }
    RunBound(flight, run, origins);
    NoBudget([], origins);
  }
}
