/**
 The forwarding loop of python_ue_simulator/gtpu_shim.py: packets from the TUN
 device go out on N3 as T-PDUs, T-PDUs from N3 go to the TUN device.
 */
module GtpuShim {
  import opened Bytes
  import opened Gtpu

  /** What the command line fixes. rxTeids None accepts any TEID. */
  datatype Config = Config(txTeid: int, mode: Mode, qfi: int, rxTeids: Option<set<int>>)

  /** Octets that became readable on one of the two descriptors. refused says
      whether the system, for a reason of its own, would refuse to send what
      the packet becomes. */
  datatype Event = FromTun(inner: seq<byte>, refused: bool) | FromN3(datagram: seq<byte>)

  /** Crash is an exception that leaves the loop. */
  datatype Effect = Nothing | SendN3(pkt: seq<byte>) | WriteTun(inner: seq<byte>) | Crash

  /** The most that UDP over IPv4 carries: 65535 octets less both headers. */
  predicate Carriable(datagram: seq<byte>) {
    |datagram| <= 65507
  }

  function Uplink(cfg: Config, seqNo: uint16, inner: seq<byte>, refused: bool): (Effect, uint16) {
    if inner == [] || !LooksLikeIp(inner) then (Nothing, seqNo)
    else
      match BuildGtpu(cfg.txTeid, inner, cfg.mode, cfg.qfi, seqNo)
      case None => (Crash, seqNo)
      case Some(pkt) =>
        if refused || !Carriable(pkt) then (Crash, seqNo)
        else (SendN3(pkt), (seqNo + 1) % 0x1_0000)
  }

  function Downlink(cfg: Config, datagram: seq<byte>): Effect {
    match ParseGtpu(datagram)
    case NotTpdu => Nothing
    case Tpdu(teid, inner) =>
      if cfg.rxTeids.Some? && teid !in cfg.rxTeids.value then Nothing
      else if inner == [] || !LooksLikeIp(inner) then Nothing
      else WriteTun(inner)
  }

  function Step(cfg: Config, seqNo: uint16, ev: Event): (Effect, uint16) {
    match ev
    case FromTun(inner, refused) => Uplink(cfg, seqNo, inner, refused)
    case FromN3(datagram) => (Downlink(cfg, datagram), seqNo)
  }

  /** The effects of a sequence of events; the loop ends at a crash. */
  function Run(cfg: Config, seqNo: uint16, evs: seq<Event>): (seq<Effect>, uint16)
    decreases |evs|
  {
    if evs == [] then ([], seqNo)
    else
      var (eff, n) := Step(cfg, seqNo, evs[0]);
      if eff.Crash? then ([eff], n)
      else
        var (rest, m) := Run(cfg, n, evs[1..]);
        ([eff] + rest, m)
  }

  /** What one packet from the TUN device leads to: nothing, when it is empty or
      not IPv4; the end of the loop, when the TEID, the mode, the length or the
      system does not let it pass; else one datagram and the next number. */
  ghost predicate ForwardedAs(cfg: Config, inner: seq<byte>, refused: bool, before: uint16, eff: Effect,
                              after: uint16) {
    if inner == [] || inner[0] / 0x10 != 4 then eff == Nothing && after == before
    else if cfg.txTeid < 0 || cfg.txTeid > 0xffff_ffff || cfg.mode == OtherMode
            || |inner| > (if cfg.mode == Minimal then 65499 else 65491) || refused
    then eff == Crash && after == before
    else
      && eff.SendN3? && BuiltAs(eff.pkt, cfg.txTeid, inner, cfg.mode, cfg.qfi, before)
      && after == (if before == 0xffff then 0 else before + 1)
  }

  lemma UplinkExactly(cfg: Config, seqNo: uint16, inner: seq<byte>, refused: bool)
    ensures
      var (eff, n) := Uplink(cfg, seqNo, inner, refused);
      ForwardedAs(cfg, inner, refused, seqNo, eff, n)
  {
    BuiltLength(cfg, inner, seqNo);
    BuiltOctets(cfg.txTeid, inner, cfg.mode, cfg.qfi, seqNo);
  }

  /** When the datagram makes the shim write this packet: it is a T-PDU of version
      1 for a TEID that is accepted, and carries this packet, which is IPv4. */
  ghost predicate Delivers(cfg: Config, datagram: seq<byte>, inner: seq<byte>) {
    && |datagram| >= 8 && 0x20 <= datagram[0] < 0x40 && datagram[1] == 0xff
    && inner != [] && inner[0] / 0x10 == 4
    && exists teid: uint32 ::
         && ParseGtpu(datagram) == Tpdu(teid, inner) && IsWord32(datagram, 4, teid)
         && (cfg.rxTeids.None? || teid in cfg.rxTeids.value)
  }

  lemma DownlinkExactly(cfg: Config, datagram: seq<byte>, inner: seq<byte>)
    ensures Downlink(cfg, datagram) == WriteTun(inner) <==> Delivers(cfg, datagram, inner)
  {
    ParseExactly(datagram);
  }

  class Shim {
    const cfg: Config
    var seqNo: uint16

    constructor (cfg: Config, seqStart: int)
      ensures this.cfg == cfg && seqNo == seqStart % 0x1_0000
    {
      this.cfg := cfg;
      seqNo := seqStart % 0x1_0000;
    }

    method OnTunReadable(inner: seq<byte>, refused: bool) returns (eff: Effect)
      modifies this
      ensures (eff, seqNo) == Uplink(cfg, old(seqNo), inner, refused)
      ensures ForwardedAs(cfg, inner, refused, old(seqNo), eff, seqNo)
    {
      UplinkExactly(cfg, seqNo, inner, refused);
      if inner == [] {
        return Nothing;
      }
      if !LooksLikeIp(inner) {
        return Nothing;
      }
      var pkt := BuildGtpu(cfg.txTeid, inner, cfg.mode, cfg.qfi, seqNo);
      if pkt.None? {
        return Crash;
      }
      if refused || |pkt.value| > 65507 {
        return Crash; // tx.sendto raises
      }
      seqNo := (seqNo + 1) % 0x1_0000;
      return SendN3(pkt.value);
    }

    method OnN3Readable(datagram: seq<byte>) returns (eff: Effect)
      ensures eff == Downlink(cfg, datagram)
      ensures eff == Nothing || eff.WriteTun?
      ensures forall inner :: eff == WriteTun(inner) <==> Delivers(cfg, datagram, inner)
    {
      forall inner {
        DownlinkExactly(cfg, datagram, inner);
      }
      var parsed := ParseGtpu(datagram);
      if parsed.NotTpdu? {
        return Nothing;
      }
      if cfg.rxTeids.Some? && parsed.teid !in cfg.rxTeids.value {
        return Nothing;
      }
      if parsed.inner == [] {
        return Nothing;
      }
      if !LooksLikeIp(parsed.inner) {
        return Nothing;
      }
      return WriteTun(parsed.inner);
    }

    /** The body of the loop for one event. */
    method OnReadable(ev: Event) returns (eff: Effect)
      modifies this
      ensures (eff, seqNo) == Step(cfg, old(seqNo), ev)
    {
      if ev.FromTun? {
        eff := OnTunReadable(ev.inner, ev.refused);
      } else {
        eff := OnN3Readable(ev.datagram);
      }
    }

    /** The loop of main over the events that poll reports. */
    method Serve(evs: seq<Event>) returns (effs: seq<Effect>)
      modifies this
      ensures (effs, seqNo) == Run(cfg, old(seqNo), evs)
    {
      effs := [];
      var n := 0;
      assert evs[0..] == evs;
      while n < |evs|
        invariant 0 <= n <= |evs|
        invariant Run(cfg, old(seqNo), evs).0 == effs + Run(cfg, seqNo, evs[n..]).0
        invariant Run(cfg, old(seqNo), evs).1 == Run(cfg, seqNo, evs[n..]).1
      {
        ghost var before := seqNo;
        var eff := OnReadable(evs[n]);
        RunFrom(cfg, before, evs, n, effs, eff, seqNo);
        effs := effs + [eff];
        if eff.Crash? {
          return;
        }
        n := n + 1;
      }
      assert evs[n..] == [];
      assert effs + [] == effs;
    }
  }

  lemma RunAt(cfg: Config, seqNo: uint16, evs: seq<Event>, n: nat, eff: Effect, next: uint16)
    requires n < |evs| && Step(cfg, seqNo, evs[n]) == (eff, next)
    ensures Run(cfg, seqNo, evs[n..])
            == if eff.Crash? then ([eff], next)
               else var (rest, m) := Run(cfg, next, evs[n + 1..]); ([eff] + rest, m)
  {
    assert evs[n..][0] == evs[n] && evs[n..][1..] == evs[n + 1..];
  }

  lemma AppendOne(effs: seq<Effect>, eff: Effect, rest: seq<Effect>)
    ensures effs + ([eff] + rest) == effs + [eff] + rest
  {
  }

  /** One event of a run, when effs came before. */
  lemma RunFrom(cfg: Config, seqNo: uint16, evs: seq<Event>, n: nat, effs: seq<Effect>, eff: Effect, next: uint16)
    requires n < |evs| && Step(cfg, seqNo, evs[n]) == (eff, next)
    ensures eff.Crash? ==> effs + Run(cfg, seqNo, evs[n..]).0 == effs + [eff] && Run(cfg, seqNo, evs[n..]).1 == next
    ensures !eff.Crash? ==>
              && effs + Run(cfg, seqNo, evs[n..]).0 == effs + [eff] + Run(cfg, next, evs[n + 1..]).0
              && Run(cfg, seqNo, evs[n..]).1 == Run(cfg, next, evs[n + 1..]).1
  {
    RunAt(cfg, seqNo, evs, n, eff, next);
    AppendOne(effs, eff, Run(cfg, next, evs[n + 1..]).0);
  }

  // ---------- One shim feeding another ----------

  function Sent(effs: seq<Effect>): seq<seq<byte>> {
    if effs == [] then []
    else (if effs[0].SendN3? then [effs[0].pkt] else []) + Sent(effs[1..])
  }

  function Written(effs: seq<Effect>): seq<seq<byte>> {
    if effs == [] then []
    else (if effs[0].WriteTun? then [effs[0].inner] else []) + Written(effs[1..])
  }

  /** The IPv4 packets among what the TUN device delivered, in order. */
  function Forwardable(evs: seq<Event>): seq<seq<byte>> {
    if evs == [] then []
    else (if evs[0].FromTun? && LooksLikeIp(evs[0].inner) then [evs[0].inner] else []) + Forwardable(evs[1..])
  }

  function Datagrams(evs: seq<Event>): seq<seq<byte>> {
    if evs == [] then []
    else (if evs[0].FromN3? then [evs[0].datagram] else []) + Datagrams(evs[1..])
  }

  /** Everything the TUN device delivers can be sent. */
  ghost predicate AllFit(cfg: Config, evs: seq<Event>) {
    forall i | 0 <= i < |evs| :: CanStep(cfg, evs[i])
  }

  /** How many octets encapsulation adds. */
  function Overhead(mode: Mode): nat {
    if mode == Minimal then 8 else 16
  }

  /** An IPv4 packet can be sent on: the TEID has 32 bits, the mode is known, the
      datagram fits into UDP and the system takes it. */
  predicate CanStep(cfg: Config, ev: Event) {
    ev.FromTun? && LooksLikeIp(ev.inner) ==>
      && 0 <= cfg.txTeid < 0x1_0000_0000 && cfg.mode != OtherMode
      && |ev.inner| + Overhead(cfg.mode) <= 65507 && !ev.refused
  }

  lemma BuiltLength(cfg: Config, inner: seq<byte>, seqNo: int)
    ensures
      var pkt := BuildGtpu(cfg.txTeid, inner, cfg.mode, cfg.qfi, seqNo);
      && (pkt.Some? ==> |pkt.value| == |inner| + Overhead(cfg.mode))
      && (pkt.Some? && Carriable(pkt.value) <==>
            && 0 <= cfg.txTeid < 0x1_0000_0000 && cfg.mode != OtherMode
            && |inner| + Overhead(cfg.mode) <= 65507)
  {
    BuildSucceedsExactly(cfg.txTeid, inner, cfg.mode, cfg.qfi, seqNo);
  }

  lemma CrashesExactlyWhenItCannotStep(cfg: Config, seqNo: uint16, ev: Event)
    ensures Step(cfg, seqNo, ev).0.Crash? <==> !CanStep(cfg, ev)
    ensures CanStep(cfg, ev) && ev.FromTun? && LooksLikeIp(ev.inner) ==>
              && BuildGtpu(cfg.txTeid, ev.inner, cfg.mode, cfg.qfi, seqNo).Some?
              && Step(cfg, seqNo, ev) == (SendN3(BuildGtpu(cfg.txTeid, ev.inner, cfg.mode, cfg.qfi, seqNo).value),
                                          (seqNo + 1) % 0x1_0000)
    ensures ev.FromN3? || !LooksLikeIp(ev.inner) ==>
              !Step(cfg, seqNo, ev).0.SendN3? && Step(cfg, seqNo, ev).1 == seqNo
    ensures ev.FromTun? ==> !Step(cfg, seqNo, ev).0.WriteTun?
  {
    if ev.FromTun? {
      BuiltLength(cfg, ev.inner, seqNo);
    }
  }

  lemma RunCons(cfg: Config, seqNo: uint16, evs: seq<Event>)
    requires evs != [] && !Step(cfg, seqNo, evs[0]).0.Crash?
    ensures
      var (eff, n) := Step(cfg, seqNo, evs[0]);
      var rest := Run(cfg, n, evs[1..]).0;
      var effs := Run(cfg, seqNo, evs).0;
      && effs == [eff] + rest && effs[1..] == rest
      && Sent(effs) == (if eff.SendN3? then [eff.pkt] else []) + Sent(rest)
      && Written(effs) == (if eff.WriteTun? then [eff.inner] else []) + Written(rest)
  {
    var (eff, n) := Step(cfg, seqNo, evs[0]);
    assert ([eff] + Run(cfg, n, evs[1..]).0)[1..] == Run(cfg, n, evs[1..]).0;
  }

  /** The loop survives a run exactly when it can send all of it. */
  lemma {:induction false} CrashesExactly(cfg: Config, start: uint16, evs: seq<Event>)
    ensures (forall i | 0 <= i < |Run(cfg, start, evs).0| :: !Run(cfg, start, evs).0[i].Crash?) <==> AllFit(cfg, evs)
    decreases |evs|
  {
    if evs == [] {
    } else {
      CrashesExactlyWhenItCannotStep(cfg, start, evs[0]);
      var (eff, n) := Step(cfg, start, evs[0]);
      if eff.Crash? {
        assert Run(cfg, start, evs).0[0].Crash?;
      } else {
        RunCons(cfg, start, evs);
        CrashesExactly(cfg, n, evs[1..]);
        AllFitCons(cfg, evs);
        var effs := Run(cfg, start, evs).0;
        assert forall i | 0 <= i < |effs| :: i == 0 || effs[i] == effs[1..][i - 1];
        assert forall i | 0 <= i < |effs[1..]| :: effs[1..][i] == effs[i + 1];
      }
    }
  }

  /** The i-th sequence number from start on. */
  function SeqAt(start: uint16, i: nat): uint16 {
    (start + i) % 0x1_0000
  }

  lemma SeqAtNext(start: uint16, i: nat)
    ensures SeqAt(SeqAt(start, 1), i) == SeqAt(start, i + 1)
  {
  }

  /** The i-th packet is what build makes of the i-th inner packet and the i-th
      number. */
  ghost predicate BuiltInOrder(build: (seq<byte>, uint16) -> Option<seq<byte>>, start: uint16,
                               inners: seq<seq<byte>>, pkts: seq<seq<byte>>)
  {
    && |pkts| == |inners|
    && forall i | 0 <= i < |pkts| :: build(inners[i], SeqAt(start, i)) == Some(pkts[i])
  }

  lemma BuiltInOrderCons(build: (seq<byte>, uint16) -> Option<seq<byte>>, start: uint16,
                         inners: seq<seq<byte>>, pkts: seq<seq<byte>>)
    requires inners != [] && |pkts| == |inners|
    ensures BuiltInOrder(build, start, inners, pkts)
            <==> && build(inners[0], start) == Some(pkts[0])
                 && BuiltInOrder(build, SeqAt(start, 1), inners[1..], pkts[1..])
  {
    assert SeqAt(start, 0) == start;
    if BuiltInOrder(build, start, inners, pkts) {
      assert build(inners[0], SeqAt(start, 0)) == Some(pkts[0]);
      forall i | 0 <= i < |pkts[1..]| ensures build(inners[1..][i], SeqAt(SeqAt(start, 1), i)) == Some(pkts[1..][i]) {
        SeqAtNext(start, i);
        assert build(inners[i + 1], SeqAt(start, i + 1)) == Some(pkts[i + 1]);
      }
    } else if build(inners[0], start) == Some(pkts[0]) && BuiltInOrder(build, SeqAt(start, 1), inners[1..], pkts[1..]) {
      forall i | 0 <= i < |pkts| ensures build(inners[i], SeqAt(start, i)) == Some(pkts[i]) {
        if i > 0 {
          SeqAtNext(start, i - 1);
          assert build(inners[1..][i - 1], SeqAt(SeqAt(start, 1), i - 1)) == Some(pkts[1..][i - 1]);
        }
      }
    }
  }

  function Builder(cfg: Config): (seq<byte>, uint16) -> Option<seq<byte>> {
    (inner: seq<byte>, n: uint16) => BuildGtpu(cfg.txTeid, inner, cfg.mode, cfg.qfi, n)
  }

  /** The i-th packet sent carries the i-th forwardable packet, numbered
      start + i modulo 65536. */
  ghost predicate SentInOrder(cfg: Config, start: uint16, inners: seq<seq<byte>>, pkts: seq<seq<byte>>) {
    BuiltInOrder(Builder(cfg), start, inners, pkts)
  }

  /** The events before the one that ends the loop; all, when none does. */
  function Survived(cfg: Config, evs: seq<Event>): seq<Event> {
    if evs == [] || !CanStep(cfg, evs[0]) then [] else [evs[0]] + Survived(cfg, evs[1..])
  }

  lemma {:induction false} SurvivedIsPrefix(cfg: Config, evs: seq<Event>)
    ensures Survived(cfg, evs) <= evs && (Survived(cfg, evs) == evs <==> AllFit(cfg, evs))
  {
    if evs == [] {
    } else if !CanStep(cfg, evs[0]) {
      assert !AllFit(cfg, evs);
    } else {
      SurvivedIsPrefix(cfg, evs[1..]);
      AllFitCons(cfg, evs);
      PrefixCons(evs[0], Survived(cfg, evs[1..]), evs[1..]);
      assert evs == [evs[0]] + evs[1..];
    }
  }

  lemma PrefixCons<T>(x: T, s: seq<T>, t: seq<T>)
    ensures [x] + s <= [x] + t <==> s <= t
    ensures [x] + s == [x] + t <==> s == t
  {
    assert ([x] + s)[1..] == s && ([x] + t)[1..] == t;
    assert s <= t ==> t == s + t[|s|..];
    assert [x] + s <= [x] + t ==> t[..|s|] == ([x] + t)[1..|s| + 1];
  }

  lemma {:induction false} DatagramsAppend(s: seq<Event>, t: seq<Event>)
    ensures Datagrams(s + t) == Datagrams(s) + Datagrams(t)
  {
    if s == [] {
      assert s + t == t;
    } else {
      assert (s + t)[1..] == s[1..] + t;
      DatagramsAppend(s[1..], t);
    }
  }

  /** The datagrams of a prefix of the events are a prefix. */
  lemma PrefixesReceive(s: seq<Event>, evs: seq<Event>)
    requires s <= evs
    ensures Datagrams(s) <= Datagrams(evs)
  {
    assert evs == s + evs[|s|..];
    DatagramsAppend(s, evs[|s|..]);
  }

  lemma AllFitCons(cfg: Config, evs: seq<Event>)
    requires evs != []
    ensures AllFit(cfg, evs) <==> CanStep(cfg, evs[0]) && AllFit(cfg, evs[1..])
  {
    var rest := evs[1..];
    assert forall i | 0 <= i < |evs| :: i == 0 || evs[i] == rest[i - 1];
    assert forall i | 0 <= i < |rest| :: rest[i] == evs[i + 1];
  }

  /** An event that ends the loop leaves nothing behind. */
  lemma CrashLeavesNothing(cfg: Config, start: uint16, evs: seq<Event>)
    requires evs != [] && !CanStep(cfg, evs[0])
    ensures Sent(Run(cfg, start, evs).0) == [] && Written(Run(cfg, start, evs).0) == []
    ensures Survived(cfg, evs) == []
  {
    CrashesExactlyWhenItCannotStep(cfg, start, evs[0]);
    var (eff, n) := Step(cfg, start, evs[0]);
    assert Run(cfg, start, evs).0 == [eff] && [eff][1..] == [];
  }

  lemma SurvivedCons(cfg: Config, evs: seq<Event>)
    requires evs != [] && CanStep(cfg, evs[0])
    ensures
      var s, rest := Survived(cfg, evs), Survived(cfg, evs[1..]);
      && Forwardable(s)
         == (if evs[0].FromTun? && LooksLikeIp(evs[0].inner) then [evs[0].inner] else []) + Forwardable(rest)
      && Datagrams(s) == (if evs[0].FromN3? then [evs[0].datagram] else []) + Datagrams(rest)
  {
    assert Survived(cfg, evs)[1..] == Survived(cfg, evs[1..]);
  }

  /** What one event adds to what was forwardable and to what was sent. */
  lemma UplinkStep(cfg: Config, start: uint16, evs: seq<Event>)
    requires evs != [] && CanStep(cfg, evs[0])
    ensures
      var (eff, n) := Step(cfg, start, evs[0]);
      var inners, pkts := Forwardable(Survived(cfg, evs)), Sent(Run(cfg, start, evs).0);
      var inners1, pkts1 := Forwardable(Survived(cfg, evs[1..])), Sent(Run(cfg, n, evs[1..]).0);
      if eff.SendN3? then
        && n == SeqAt(start, 1) && BuildGtpu(cfg.txTeid, evs[0].inner, cfg.mode, cfg.qfi, start) == Some(eff.pkt)
        && inners == [evs[0].inner] + inners1 && pkts == [eff.pkt] + pkts1
      else
        n == start && inners == inners1 && pkts == pkts1
  {
    CrashesExactlyWhenItCannotStep(cfg, start, evs[0]);
    RunCons(cfg, start, evs);
    SurvivedCons(cfg, evs);
    var inners1 := Forwardable(Survived(cfg, evs[1..]));
    assert [] + inners1 == inners1;
  }

  /** For every run: whatever arrives from N3 in between, what goes out on N3 are
      the forwardable packets before the end of the loop, in order, with
      consecutive sequence numbers. */
  lemma {:induction false} UplinkInOrder(cfg: Config, start: uint16, evs: seq<Event>)
    ensures SentInOrder(cfg, start, Forwardable(Survived(cfg, evs)), Sent(Run(cfg, start, evs).0))
    decreases |evs|
  {
    if evs == [] {
    } else if !CanStep(cfg, evs[0]) {
      CrashLeavesNothing(cfg, start, evs);
    } else {
      UplinkStep(cfg, start, evs);
      var (eff, n) := Step(cfg, start, evs[0]);
      UplinkInOrder(cfg, n, evs[1..]);
      if eff.SendN3? {
        var inners, pkts := Forwardable(Survived(cfg, evs)), Sent(Run(cfg, start, evs).0);
        assert inners[1..] == Forwardable(Survived(cfg, evs[1..])) && pkts[1..] == Sent(Run(cfg, n, evs[1..]).0);
        BuiltInOrderCons(Builder(cfg), start, inners, pkts);
      }
    }
  }

  /** The packets that the datagrams hold for this shim, in order. */
  function Decapsulated(cfg: Config, datagrams: seq<seq<byte>>): seq<seq<byte>> {
    if datagrams == [] then []
    else
      var eff := Downlink(cfg, datagrams[0]);
      (if eff.WriteTun? then [eff.inner] else []) + Decapsulated(cfg, datagrams[1..])
  }

  /** For every run: whatever the TUN device delivers in between, what is written
      to it depends on the datagrams before the end of the loop alone. */
  lemma {:induction false} DownlinkIgnoresUplink(cfg: Config, start: uint16, evs: seq<Event>)
    ensures Written(Run(cfg, start, evs).0) == Decapsulated(cfg, Datagrams(Survived(cfg, evs)))
    decreases |evs|
  {
    if evs == [] {
    } else if !CanStep(cfg, evs[0]) {
      CrashLeavesNothing(cfg, start, evs);
    } else {
      CrashesExactlyWhenItCannotStep(cfg, start, evs[0]);
      RunCons(cfg, start, evs);
      SurvivedCons(cfg, evs);
      DownlinkIgnoresUplink(cfg, Step(cfg, start, evs[0]).1, evs[1..]);
      var datagrams, rest := Datagrams(Survived(cfg, evs)), Datagrams(Survived(cfg, evs[1..]));
      if evs[0].FromN3? {
        assert datagrams[1..] == rest;
      } else {
        assert datagrams == rest;
      }
    }
  }

  /** The datagrams are the packets, each with some octets appended. */
  ghost predicate Trailed(pkts: seq<seq<byte>>, datagrams: seq<seq<byte>>) {
    && |pkts| == |datagrams|
    && forall i | 0 <= i < |pkts| :: pkts[i] <= datagrams[i]
  }

  predicate Accepts(cfg: Config, teid: int) {
    cfg.rxTeids.None? || teid in cfg.rxTeids.value
  }

  lemma DownlinkOfBuilt(a: Config, b: Config, inner: seq<byte>, seqNo: int, datagram: seq<byte>)
    requires Accepts(b, a.txTeid) && LooksLikeIp(inner)
    requires BuildGtpu(a.txTeid, inner, a.mode, a.qfi, seqNo).Some?
    requires BuildGtpu(a.txTeid, inner, a.mode, a.qfi, seqNo).value <= datagram
    ensures Downlink(b, datagram) == WriteTun(inner)
  {
    var pkt := BuildGtpu(a.txTeid, inner, a.mode, a.qfi, seqNo).value;
    var trailing := datagram[|pkt|..];
    assert datagram == pkt + trailing;
    ParseBuilt(a.txTeid, inner, a.mode, a.qfi, seqNo, trailing);
  }

  lemma DecapsulatedCons(cfg: Config, datagrams: seq<seq<byte>>, inner: seq<byte>)
    requires datagrams != [] && Downlink(cfg, datagrams[0]) == WriteTun(inner)
    ensures Decapsulated(cfg, datagrams) == [inner] + Decapsulated(cfg, datagrams[1..])
  {
  }

  lemma TrailedCons(pkts: seq<seq<byte>>, datagrams: seq<seq<byte>>)
    requires Trailed(pkts, datagrams) && pkts != []
    ensures pkts[0] <= datagrams[0] && Trailed(pkts[1..], datagrams[1..])
  {
  }

  lemma FirstForwarded(a: Config, b: Config, start: uint16, inners: seq<seq<byte>>,
                       pkts: seq<seq<byte>>, datagrams: seq<seq<byte>>)
    requires Accepts(b, a.txTeid) && inners != [] && LooksLikeIp(inners[0])
    requires SentInOrder(a, start, inners, pkts) && Trailed(pkts, datagrams)
    ensures Downlink(b, datagrams[0]) == WriteTun(inners[0])
    ensures SentInOrder(a, SeqAt(start, 1), inners[1..], pkts[1..]) && Trailed(pkts[1..], datagrams[1..])
  {
    BuiltInOrderCons(Builder(a), start, inners, pkts);
    TrailedCons(pkts, datagrams);
    DownlinkOfBuilt(a, b, inners[0], start, datagrams[0]);
  }

  lemma {:induction false} DecapsulatedIsForwarded(a: Config, b: Config, start: uint16, inners: seq<seq<byte>>,
                                                   pkts: seq<seq<byte>>, datagrams: seq<seq<byte>>)
    requires Accepts(b, a.txTeid)
    requires forall i | 0 <= i < |inners| :: LooksLikeIp(inners[i])
    requires SentInOrder(a, start, inners, pkts) && Trailed(pkts, datagrams)
    ensures Decapsulated(b, datagrams) == inners
    decreases |inners|
  {
    if inners == [] {
    } else {
      FirstForwarded(a, b, start, inners, pkts, datagrams);
      DecapsulatedIsForwarded(a, b, SeqAt(start, 1), inners[1..], pkts[1..], datagrams[1..]);
      DecapsulatedCons(b, datagrams, inners[0]);
    }
  }

  lemma {:induction false} ForwardableIsIp(evs: seq<Event>)
    ensures forall i | 0 <= i < |Forwardable(evs)| :: LooksLikeIp(Forwardable(evs)[i])
  {
    if evs == [] {
    } else {
      ForwardableIsIp(evs[1..]);
    }
  }

  lemma NothingForOthers(a: Config, b: Config, inner: seq<byte>, seqNo: int, datagram: seq<byte>)
    requires !Accepts(b, a.txTeid)
    requires BuildGtpu(a.txTeid, inner, a.mode, a.qfi, seqNo).Some?
    requires BuildGtpu(a.txTeid, inner, a.mode, a.qfi, seqNo).value <= datagram
    ensures Downlink(b, datagram) == Nothing
  {
    var pkt := BuildGtpu(a.txTeid, inner, a.mode, a.qfi, seqNo).value;
    var trailing := datagram[|pkt|..];
    assert datagram == pkt + trailing;
    ParseBuilt(a.txTeid, inner, a.mode, a.qfi, seqNo, trailing);
  }

  lemma {:induction false} NothingDecapsulated(a: Config, b: Config, start: uint16, inners: seq<seq<byte>>,
                                               pkts: seq<seq<byte>>, datagrams: seq<seq<byte>>)
    requires !Accepts(b, a.txTeid)
    requires SentInOrder(a, start, inners, pkts) && Trailed(pkts, datagrams)
    ensures Decapsulated(b, datagrams) == []
    decreases |inners|
  {
    if inners == [] {
    } else {
      BuiltInOrderCons(Builder(a), start, inners, pkts);
      NothingForOthers(a, b, inners[0], start, datagrams[0]);
      NothingDecapsulated(a, b, SeqAt(start, 1), inners[1..], pkts[1..], datagrams[1..]);
    }
  }

  /** A shim that does not accept A's TEID writes nothing of what A sends. */
  lemma OthersWriteNothing(a: Config, startA: uint16, evsA: seq<Event>, b: Config, startB: uint16, evsB: seq<Event>)
    requires !Accepts(b, a.txTeid) && Trailed(Sent(Run(a, startA, evsA).0), Datagrams(evsB))
    ensures Written(Run(b, startB, evsB).0) == []
  {
    var forwarded, pkts := Forwardable(Survived(a, evsA)), Sent(Run(a, startA, evsA).0);
    var datagrams := Datagrams(Survived(b, evsB));
    UplinkInOrder(a, startA, evsA);
    DownlinkIgnoresUplink(b, startB, evsB);
    SurvivedIsPrefix(b, evsB);
    PrefixesReceive(Survived(b, evsB), evsB);
    NothingDecapsulated(a, b, startA, forwarded[..|datagrams|], pkts[..|datagrams|], datagrams);
  }

  /** End to end: run shim A on any interleaving of uplink and downlink events,
      and hand its packets in order, each with any trailing octets, to a shim B
      that accepts A's TEID, between any uplink events of B. What B writes to
      its TUN device is exactly what A forwarded, in order: all that A was given
      before its loop ended, as far as B got before its own did. */
  lemma EndToEnd(a: Config, startA: uint16, evsA: seq<Event>, b: Config, startB: uint16, evsB: seq<Event>)
    requires Accepts(b, a.txTeid) && Trailed(Sent(Run(a, startA, evsA).0), Datagrams(evsB))
    ensures
      var forwarded, got := Forwardable(Survived(a, evsA)), |Datagrams(Survived(b, evsB))|;
      got <= |forwarded| && Written(Run(b, startB, evsB).0) == forwarded[..got]
    ensures AllFit(a, evsA) && AllFit(b, evsB) ==> Written(Run(b, startB, evsB).0) == Forwardable(evsA)
  {
    var forwarded, pkts := Forwardable(Survived(a, evsA)), Sent(Run(a, startA, evsA).0);
    var datagrams := Datagrams(Survived(b, evsB));
    UplinkInOrder(a, startA, evsA);
    DownlinkIgnoresUplink(b, startB, evsB);
    SurvivedIsPrefix(a, evsA);
    SurvivedIsPrefix(b, evsB);
    PrefixesReceive(Survived(b, evsB), evsB);
    ForwardableIsIp(Survived(a, evsA));
    DecapsulatedIsForwarded(a, b, startA, forwarded[..|datagrams|], pkts[..|datagrams|], datagrams);
    assert AllFit(b, evsB) ==> forwarded[..|datagrams|] == forwarded;
  }

  /** The sequence number is on the wire where section 5.1 puts it. */
  lemma SequenceNumberOnTheWire(teid: int, inner: seq<byte>, qfi: int, seqNo: int)
    requires BuildGtpu(teid, inner, Ueransim, qfi, seqNo).Some?
    ensures
      var pkt := BuildGtpu(teid, inner, Ueransim, qfi, seqNo).value;
      |pkt| == 16 + |inner| && Word16(pkt[8], pkt[9]) == seqNo % 0x1_0000
  {
    WordOfBigEndian(seqNo % 0x1_0000);
    var pkt := BuildGtpu(teid, inner, Ueransim, qfi, seqNo).value;
    assert pkt[8] == BigEndian16(seqNo % 0x1_0000)[0] && pkt[9] == BigEndian16(seqNo % 0x1_0000)[1];
  }
}
