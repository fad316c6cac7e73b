/**
 NASEncode at one end and NASDecode at the other, over a channel that keeps
 order but may lose messages. Both directions are covered: the peer runs the
 same code with the directions exchanged.
 */
module NasChannel {
  import opened Bytes
  import opened NasSecurity

  // ---------- What is asked of the library ----------

  ghost predicate CipherIsInvolution<M>(lib: Library<M>) {
    forall u, p, q :: lib.NASEncrypt(u, p) == Some(q) ==> lib.NASEncrypt(u, q) == Some(p)
  }

  ghost predicate CodecRoundTrips<M(!new)>(lib: Library<M>) {
    forall m, octets :: lib.PlainNasEncode(m) == Some(octets) ==> lib.PlainNasDecode(octets) == Some(m)
  }

  /** The decoder reads nothing but what the encoder writes. */
  ghost predicate CodecIsCanonical<M(!new)>(lib: Library<M>) {
    forall m, octets :: lib.PlainNasDecode(octets) == Some(m) ==> lib.PlainNasEncode(m) == Some(octets)
  }

  ghost predicate CipherKeepsLength<M>(lib: Library<M>) {
    forall u, p, q :: lib.NASEncrypt(u, p) == Some(q) ==> |q| == |p|
  }

  ghost predicate IsNullCipher<M>(lib: Library<M>, alg: byte) {
    forall u: KeyUse, p | u.alg == alg :: lib.NASEncrypt(u, p) == Some(p)
  }

  // ---------- COUNT recovery ----------

  /** How many steps of AddOne lead from one COUNT to the other. */
  function Distance(from: Count, to: Count): (d: nat)
    ensures d < 0x100_0000
  {
    if from.Get() <= to.Get() then to.Get() - from.Get() else to.Get() + 0x100_0000 - from.Get()
  }

  /** A sender d steps ahead is taken to be d mod 256 steps ahead. */
  lemma RecoverAdvancesByGapMod256(r: Count, s: Count, d: nat)
    requires s.Get() == (r.Get() + d) % 0x100_0000
    ensures Recover(r, s.SQN()).Get() == (r.Get() + d % 0x100) % 0x100_0000
  {
    var q, k, g := (r.Get() + d) / 0x100_0000, d / 0x100, d % 0x100;
    assert r.Get() + d == 0x100_0000 * q + s.Get();
    assert d == 0x100 * k + g;
    assert r.Get() == 0x100 * r.Overflow() + r.SQN();
    assert s.Get() == 0x100 * s.Overflow() + s.SQN();
    RecoverByGap(r, s.SQN(), g, 0x1_0000 * q + s.Overflow() - r.Overflow() - k);
  }

  lemma RecoverByGap(r: Count, sqn: byte, g: byte, carry: int)
    requires r.SQN() + g == sqn + 0x100 * carry
    ensures Recover(r, sqn).Get() == (r.Get() + g) % 0x100_0000
  {
    RecoverByCases(r, sqn);
    GapAdds(r.Get(), r.Overflow(), r.SQN(), sqn, g, carry, Recover(r, sqn).Get());
  }

  lemma GapAdds(value: count24, overflow: uint16, rsqn: byte, sqn: byte, g: byte, carry: int, recovered: count24)
    requires value == 0x100 * overflow + rsqn && rsqn + g == sqn + 0x100 * carry
    requires recovered == if rsqn <= sqn then value + (sqn - rsqn)
                          else if overflow < 0xffff then value + (sqn - rsqn) + 0x100 else sqn
    ensures recovered == (value + g) % 0x100_0000
  {
    assert carry == if rsqn <= sqn then 0 else 1;
    if rsqn > sqn && overflow == 0xffff {
      assert value + g == 0x100_0000 + sqn;
    } else {
      assert value + g == recovered;
    }
  }

  lemma RecoverByCases(r: Count, sqn: byte)
    ensures r.SQN() <= sqn ==> Recover(r, sqn).Get() == r.Get() + (sqn - r.SQN())
    ensures r.SQN() > sqn && r.Overflow() < 0xffff ==> Recover(r, sqn).Get() == r.Get() + (sqn - r.SQN()) + 0x100
    ensures r.SQN() > sqn && r.Overflow() == 0xffff ==> Recover(r, sqn).Get() == sqn
  {
  }

  /** The receiver finds the sender's COUNT exactly when the sender is fewer
      than 256 steps ahead, wrap-around of the 24 bits included. */
  lemma RecoverExact(r: Count, s: Count)
    ensures Recover(r, s.SQN()) == s <==> Distance(r, s) < 0x100
  {
    RecoverByCases(r, s.SQN());
  }

  // ---------- One message ----------

  predicate Protectable<M>(msg: NasMessage<M>) {
    INTEGRITY_PROTECTED <= msg.securityHeaderType % 0x10 <= INTEGRITY_PROTECTED_AND_CIPHERED_NEW_CONTEXT
  }

  predicate OpensContext<M>(msg: NasMessage<M>) {
    IsNewContextType(msg.securityHeaderType % 0x10)
  }

  /** A call of NASEncode that sets the new-context flag exactly for the
      header types 3 and 4. */
  function SendTyped<M>(lib: Library<M>, keys: Keys, d: Direction, e: Endpoint, msg: NasMessage<M>)
    : (Outcome<seq<byte>>, Endpoint)
  {
    Send(lib, keys, d, e, msg, true, OpensContext(msg))
  }

  function CountUsed<M>(e: Endpoint, msg: NasMessage<M>): Count {
    if OpensContext(msg) then e.sent.Set(0, 0) else e.sent
  }

  /** The header of a protected message: where each part is on the wire. */
  lemma WireLayout<M>(lib: Library<M>, keys: Keys, d: Direction, c: Count, msg: NasMessage<M>)
    requires Protect(lib, keys, d, c, msg).Some?
    ensures CipherBody(lib, keys, d, c, msg.body).Some?
    ensures
      var octets := Protect(lib, keys, d, c, msg).value;
      var text := CipherBody(lib, keys, d, c, msg.body).value;
      && |octets| == 7 + |text|
      && octets[0] == msg.epd && octets[1] == msg.securityHeaderType
      && octets[6] == c.SQN() && octets[6..] == [c.SQN()] + text && octets[7..] == text
      && lib.NASMacCalculate(keys.ForIntegrity(c, d), octets[6..]) == Some(octets[2..6])
  {
    var octets := Protect(lib, keys, d, c, msg).value;
    var text := CipherBody(lib, keys, d, c, msg.body).value;
    var mac := lib.NASMacCalculate(keys.ForIntegrity(c, d), [c.SQN()] + text).value;
    assert octets == [msg.epd, msg.securityHeaderType] + mac + [c.SQN()] + text;
    assert octets[6..] == [c.SQN()] + text && octets[2..6] == mac && octets[7..] == text;
  }

  /** What reaches the decoder of a receiver with the sender's COUNT. */
  function DecoderInput<M>(lib: Library<M>, keys: Keys, d: Direction, c: Count, msg: NasMessage<M>): Option<seq<byte>> {
    if IsCipheredType(msg.securityHeaderType % 0x10) then lib.PlainNasEncode(msg.body)
    else CipherBody(lib, keys, d, c, msg.body)
  }

  /** Unprotecting with the COUNT that protected: the MAC matches, and the
      plain decoder gets the deciphered text for types 2 and 4 but the text as
      it was on the wire for types 1 and 3. */
  lemma UnprotectProtected<M>(lib: Library<M>, keys: Keys, d: Direction, c: Count, msg: NasMessage<M>)
    requires CipherIsInvolution(lib)
    requires Protect(lib, keys, d, c, msg).Some?
    ensures
      var octets := Protect(lib, keys, d, c, msg).value;
      var t := msg.securityHeaderType % 0x10;
      && |octets| >= 7 && octets[1] == msg.securityHeaderType && octets[6] == c.SQN()
      && Unprotect(lib, keys, d, c, t, octets)
         == Parsed(lib, t, true, DecoderInput(lib, keys, d, c, msg))
  {
    WireLayout(lib, keys, d, c, msg);
  }

  /** The COUNT a receiver measures the sequence number against. */
  function Reference<M>(f: Endpoint, msg: NasMessage<M>): Count {
    if OpensContext(msg) then Count(0) else f.received
  }

  lemma ReceiveIsUnprotect<M>(lib: Library<M>, keys: Keys, d: Direction, e: Endpoint, f: Endpoint, msg: NasMessage<M>)
    requires keys.integrityAlg != NIA0 && Protectable(msg)
    requires SendTyped(lib, keys, d, e, msg).0.Ok?
    ensures
      var octets := SendTyped(lib, keys, d, e, msg).0.value;
      var t := msg.securityHeaderType % 0x10;
      var c := Recover(Reference(f, msg), CountUsed(e, msg).SQN());
      && Protect(lib, keys, d, CountUsed(e, msg), msg) == Some(octets)
      && |octets| >= 7
      && Receive(lib, keys, d, f, t, octets) == (Unprotect(lib, keys, d, c, t, octets), f.(received := c))
  {
    WireLayout(lib, keys, d, CountUsed(e, msg), msg);
  }

  lemma CountFound<M>(lib: Library<M>, keys: Keys, d: Direction, e: Endpoint, f: Endpoint, msg: NasMessage<M>)
    requires keys.integrityAlg != NIA0 && Protectable(msg)
    requires SendTyped(lib, keys, d, e, msg).0.Ok?
    ensures
      var t := msg.securityHeaderType % 0x10;
      Receive(lib, keys, d, f, t, SendTyped(lib, keys, d, e, msg).0.value).1.received == CountUsed(e, msg)
      <==> OpensContext(msg) || Distance(f.received, e.sent) < 0x100
  {
    ReceiveIsUnprotect(lib, keys, d, e, f, msg);
    RecoverExact(Reference(f, msg), CountUsed(e, msg));
  }

  /** What the receiver makes of one protected message. It holds the COUNT
      the sender used exactly when the message opened a context or the sender
      was fewer than 256 steps ahead; then the MAC matches, and the plain
      decoder gets the deciphered text for types 2 and 4 but the text as it
      was on the wire for types 1 and 3. */
  lemma DeliveryExact<M>(lib: Library<M>, keys: Keys, d: Direction, e: Endpoint, f: Endpoint, msg: NasMessage<M>)
    requires CipherIsInvolution(lib)
    requires keys.integrityAlg != NIA0 && Protectable(msg)
    requires SendTyped(lib, keys, d, e, msg).0.Ok?
    ensures
      var octets := SendTyped(lib, keys, d, e, msg).0.value;
      var t := msg.securityHeaderType % 0x10;
      var (outcome, f1) := Receive(lib, keys, d, f, t, octets);
      var used := CountUsed(e, msg);
      && f1.sent == f.sent
      && (f1.received == used <==> OpensContext(msg) || Distance(f.received, e.sent) < 0x100)
      && (f1.received == used ==>
            outcome == Parsed(lib, t, true, DecoderInput(lib, keys, d, used, msg)))
  {
    var used := CountUsed(e, msg);
    ReceiveIsUnprotect(lib, keys, d, e, f, msg);
    UnprotectProtected(lib, keys, d, used, msg);
    CountFound(lib, keys, d, e, f, msg);
  }

  /** The octets of the body on the wire are what the receiver's decoder needs:
      the type is deciphered, or ciphering left the octets as they were. */
  predicate Legible<M>(lib: Library<M>, keys: Keys, d: Direction, c: Count, msg: NasMessage<M>) {
    || IsCipheredType(msg.securityHeaderType % 0x10)
    || CipherBody(lib, keys, d, c, msg.body) == lib.PlainNasEncode(msg.body)
  }

  lemma NullCipherIsLegible<M>(lib: Library<M>, keys: Keys, d: Direction, c: Count, msg: NasMessage<M>)
    requires IsNullCipher(lib, keys.cipheringAlg)
    ensures Legible(lib, keys, d, c, msg)
  {
    var plain := lib.PlainNasEncode(msg.body);
    if plain.Some? {
      assert lib.NASEncrypt(keys.ForCipher(c, d), plain.value) == plain;
    }
  }

  lemma ParsedRoundTrips<M(!new)>(lib: Library<M>, t: byte, plain: Option<seq<byte>>, body: M)
    requires CodecRoundTrips(lib) && lib.PlainNasEncode(body).Some?
    ensures plain == lib.PlainNasEncode(body) ==> Parsed(lib, t, true, plain) == Ok(Received(t, body, true))
  {
    assert lib.PlainNasDecode(lib.PlainNasEncode(body).value) == Some(body);
  }

  lemma ParsedExact<M(!new)>(lib: Library<M>, t: byte, macMatches: bool, plain: Option<seq<byte>>, body: M)
    requires CodecIsCanonical(lib)
    ensures Parsed(lib, t, macMatches, plain) == Ok(Received(t, body, macMatches)) ==> plain == lib.PlainNasEncode(body)
  {
    if plain.Some? && lib.PlainNasDecode(plain.value) == Some(body) {
      assert lib.PlainNasEncode(body) == Some(plain.value);
    }
  }

  lemma DeliveredInTime<M>(lib: Library<M>, keys: Keys, d: Direction, e: Endpoint, f: Endpoint, msg: NasMessage<M>)
    requires CipherIsInvolution(lib)
    requires keys.integrityAlg != NIA0 && Protectable(msg)
    requires SendTyped(lib, keys, d, e, msg).0.Ok?
    requires OpensContext(msg) || Distance(f.received, e.sent) < 0x100
    ensures lib.PlainNasEncode(msg.body).Some?
    ensures
      var t := msg.securityHeaderType % 0x10;
      var used := CountUsed(e, msg);
      Receive(lib, keys, d, f, t, SendTyped(lib, keys, d, e, msg).0.value)
      == (Parsed(lib, t, true, DecoderInput(lib, keys, d, used, msg)), f.(received := used))
  {
    DeliveryExact(lib, keys, d, e, f, msg);
  }

  /** A message delivered in time decodes to what was encoded, with a matching
      MAC, if and only if it is legible; the converse for a canonical codec. */
  lemma DeliveryRoundTrip<M(!new)>(lib: Library<M>, keys: Keys, d: Direction, e: Endpoint, f: Endpoint,
                                   msg: NasMessage<M>)
    requires CipherIsInvolution(lib) && CodecRoundTrips(lib)
    requires keys.integrityAlg != NIA0 && Protectable(msg)
    requires SendTyped(lib, keys, d, e, msg).0.Ok?
    requires OpensContext(msg) || Distance(f.received, e.sent) < 0x100
    ensures
      var t := msg.securityHeaderType % 0x10;
      var (outcome, f1) := Receive(lib, keys, d, f, t, SendTyped(lib, keys, d, e, msg).0.value);
      var legible := Legible(lib, keys, d, CountUsed(e, msg), msg);
      && f1 == f.(received := CountUsed(e, msg))
      && (legible ==> outcome == Ok(Received(t, msg.body, true)))
      && (CodecIsCanonical(lib) ==> (outcome == Ok(Received(t, msg.body, true)) <==> legible))
  {
    var t := msg.securityHeaderType % 0x10;
    var input := DecoderInput(lib, keys, d, CountUsed(e, msg), msg);
    DeliveredInTime(lib, keys, d, e, f, msg);
    ParsedRoundTrips(lib, t, input, msg.body);
    if CodecIsCanonical(lib) {
      ParsedExact(lib, t, true, input, msg.body);
    }
  }

  /** A wrong MAC changes nothing but the report: two payloads that differ only in
      octets 2 to 5 leave the same COUNT and hand up the same body, and the one
      whose MAC is reported as matching is the one that carries the calculated
      MAC. */
  lemma MacIsOnlyReported<M>(lib: Library<M>, keys: Keys, d: Direction, f: Endpoint, t: byte,
                             p: seq<byte>, q: seq<byte>)
    requires keys.integrityAlg != 0 && t != 0
    requires |p| >= 7 && |q| >= 7 && p[1] == q[1] && p[6..] == q[6..] && 1 <= p[1] % 0x10 <= 4
    ensures
      var (r, f1) := Receive(lib, keys, d, f, t, p);
      var (s, f2) := Receive(lib, keys, d, f, t, q);
      && f1 == f2 && (r.Ok? <==> s.Ok?)
      && (r.Ok? ==> r.value.body == s.value.body && r.value.headerType == s.value.headerType == p[1] % 0x10)
      && var use := KeyUse(keys.integrityAlg, keys.knasInt, f1.received.value, keys.bearer, d);
      (r.Ok? ==> (r.value.macMatches <==> lib.mac(use, p[6..]) == Some(p[2..6])))
  {
    assert p[6] == p[6..][0] == q[6..][0] == q[6];
    assert p[7..] == p[6..][1..] == q[6..][1..] == q[7..];
  }

  /** With NIA0 the receiver removes 3 of the 7 header octets and leaves its
      COUNT alone: it never hands up the message that was sent, whatever its
      state and whatever the type. */
  lemma NullIntegrityNeverRoundTrips<M(!new)>(lib: Library<M>, keys: Keys, d: Direction, e: Endpoint, f: Endpoint,
                                              msg: NasMessage<M>)
    requires CodecIsCanonical(lib) && CipherKeepsLength(lib)
    requires keys.integrityAlg == NIA0 && Protectable(msg)
    requires SendTyped(lib, keys, d, e, msg).0.Ok?
    ensures
      var t := msg.securityHeaderType % 0x10;
      var (outcome, f1) := Receive(lib, keys, d, f, t, SendTyped(lib, keys, d, e, msg).0.value);
      f1 == f && (outcome.Ok? ==> outcome.value.body != msg.body)
  {
    var t, used := msg.securityHeaderType % 0x10, CountUsed(e, msg);
    var octets := SendTyped(lib, keys, d, e, msg).0.value;
    WireLayout(lib, keys, d, used, msg);
    var plain := lib.PlainNasEncode(msg.body);
    assert |octets| == 7 + |plain.value|;
    var deciphered := lib.NASEncrypt(keys.ForCipher(f.received, d), octets[3..]);
    assert deciphered.Some? ==> |deciphered.value| == |plain.value| + 4;
    assert Receive(lib, keys, d, f, t, octets).0 == Parsed(lib, t, true, deciphered);
    ParsedExact(lib, t, true, deciphered, msg.body);
  }

  // ---------- Whole runs ----------

  /** One call of NASEncode, and whether its message reaches the receiver. */
  datatype Transfer<+M> = Transfer(msg: NasMessage<M>, delivered: bool)

  datatype Delivery<+M> = Delivery(msg: NasMessage<M>, used: Count, recovered: Count, outcome: Outcome<Received<M>>)

  datatype RunResult<+M> = RunResult(deliveries: seq<Delivery<M>>, sender: Endpoint, receiver: Endpoint)

  function Run<M>(lib: Library<M>, keys: Keys, d: Direction, e: Endpoint, f: Endpoint,
                  ts: seq<Transfer<M>>): RunResult<M>
    decreases |ts|
  {
    if ts == [] then RunResult([], e, f)
    else
      var (r, e1) := SendTyped(lib, keys, d, e, ts[0].msg);
      if !r.Ok? || !ts[0].delivered then Run(lib, keys, d, e1, f, ts[1..])
      else
        var (outcome, f1) := Receive(lib, keys, d, f, ts[0].msg.securityHeaderType % 0x10, r.value);
        var rest := Run(lib, keys, d, e1, f1, ts[1..]);
        rest.(deliveries := [Delivery(ts[0].msg, CountUsed(e, ts[0].msg), f1.received, outcome)] + rest.deliveries)
  }

  ghost predicate AllProtectable<M>(ts: seq<Transfer<M>>) {
    forall i | 0 <= i < |ts| :: Protectable(ts[i].msg)
  }

  /** Every delivery that opens no context finds the sender fewer than 256 steps
      ahead of r, the COUNT of the last delivery. This looks only at which
      messages went out under which COUNTs and which were lost. */
  predicate InReach<M>(lib: Library<M>, keys: Keys, d: Direction, e: Endpoint, r: Count, ts: seq<Transfer<M>>)
    decreases |ts|
  {
    ts == [] ||
    (var (sent, e1) := SendTyped(lib, keys, d, e, ts[0].msg);
     if !sent.Ok? || !ts[0].delivered then InReach(lib, keys, d, e1, r, ts[1..])
     else
       && (OpensContext(ts[0].msg) || Distance(r, e.sent) < 0x100)
       && InReach(lib, keys, d, e1, CountUsed(e, ts[0].msg), ts[1..]))
  }

  ghost predicate StaysSynchronised<M>(ds: seq<Delivery<M>>) {
    forall i | 0 <= i < |ds| :: ds[i].recovered == ds[i].used
  }

  /** Over every run, whatever fails and whatever is lost, every delivery uses
      the sender's COUNT if and only if each is in reach of the one before. */
  lemma {:induction false} RunSynchronisedExactly<M>(lib: Library<M>, keys: Keys, d: Direction,
                                                     e: Endpoint, f: Endpoint, ts: seq<Transfer<M>>)
    requires keys.integrityAlg != NIA0 && AllProtectable(ts)
    ensures StaysSynchronised(Run(lib, keys, d, e, f, ts).deliveries) <==> InReach(lib, keys, d, e, f.received, ts)
    decreases |ts|
  {
    if ts == [] {
    } else {
      var (r, e1) := SendTyped(lib, keys, d, e, ts[0].msg);
      if !r.Ok? || !ts[0].delivered {
        RunSynchronisedExactly(lib, keys, d, e1, f, ts[1..]);
      } else {
        CountFound(lib, keys, d, e, f, ts[0].msg);
        var f1 := Receive(lib, keys, d, f, ts[0].msg.securityHeaderType % 0x10, r.value).1;
        var ds := Run(lib, keys, d, e, f, ts).deliveries;
        assert ds[0].recovered == f1.received;
        if f1.received == CountUsed(e, ts[0].msg) {
          RunSynchronisedExactly(lib, keys, d, e1, f1, ts[1..]);
          assert ds[1..] == Run(lib, keys, d, e1, f1, ts[1..]).deliveries;
          assert forall i | 1 <= i < |ds| :: ds[i] == ds[1..][i - 1];
        }
      }
    }
  }

  lemma SentCounts<M>(lib: Library<M>, keys: Keys, d: Direction, e: Endpoint, msg: NasMessage<M>)
    requires SendTyped(lib, keys, d, e, msg).0.Ok?
    ensures SendTyped(lib, keys, d, e, msg).1.sent == CountUsed(e, msg).AddOne()
  {
  }

  lemma RunOfOne<M>(lib: Library<M>, keys: Keys, d: Direction, e: Endpoint, f: Endpoint, msg: NasMessage<M>)
    requires SendTyped(lib, keys, d, e, msg).0.Ok?
    ensures
      var octets := SendTyped(lib, keys, d, e, msg).0.value;
      var (outcome, f1) := Receive(lib, keys, d, f, msg.securityHeaderType % 0x10, octets);
      Run(lib, keys, d, e, f, [Transfer(msg, true)]).deliveries
      == [Delivery(msg, CountUsed(e, msg), f1.received, outcome)]
  {
    var ts := [Transfer(msg, true)];
    assert ts[1..] == [];
  }

  /** A message that opens a context is sent and lost. The next one, which opens
      none, is then decoded under the sender's COUNT if and only if COUNT 1 is in
      reach of what the receiver had before. */
  lemma LostOpening<M>(lib: Library<M>, keys: Keys, d: Direction, e: Endpoint, f: Endpoint,
                       opening: NasMessage<M>, next: NasMessage<M>)
    requires keys.integrityAlg != NIA0
    requires OpensContext(opening) && Protectable(next) && !OpensContext(next)
    requires SendTyped(lib, keys, d, e, opening).0.Ok?
    requires SendTyped(lib, keys, d, SendTyped(lib, keys, d, e, opening).1, next).0.Ok?
    ensures
      var ds := Run(lib, keys, d, e, f, [Transfer(opening, false), Transfer(next, true)]).deliveries;
      && |ds| == 1 && ds[0].used == Count(1)
      && (ds[0].recovered == Count(1) <==> f.received.Get() <= 1 || f.received.Get() >= 0xff_ff02)
  {
    var e1 := SendTyped(lib, keys, d, e, opening).1;
    assert e1.sent == Count(1) by {
      SentCounts(lib, keys, d, e, opening);
    }
    var ts := [Transfer(opening, false), Transfer(next, true)];
    assert Run(lib, keys, d, e, f, ts) == Run(lib, keys, d, e1, f, [Transfer(next, true)]) by {
      assert ts[1..] == [Transfer(next, true)];
    }
    RunOfOne(lib, keys, d, e1, f, next);
    CountFound(lib, keys, d, e1, f, next);
  }

  /** Every message that arrives is legible under the COUNT it was sent with. */
  predicate ArrivalsLegible<M>(lib: Library<M>, keys: Keys, d: Direction, e: Endpoint, ts: seq<Transfer<M>>)
    decreases |ts|
  {
    ts == [] ||
    (var (r, e1) := SendTyped(lib, keys, d, e, ts[0].msg);
     && (r.Ok? && ts[0].delivered ==> Legible(lib, keys, d, CountUsed(e, ts[0].msg), ts[0].msg))
     && ArrivalsLegible(lib, keys, d, e1, ts[1..]))
  }

  /** So it is when only types 2 and 4 are used, or the null cipher. */
  lemma {:induction false} ReadableRunIsLegible<M>(lib: Library<M>, keys: Keys, d: Direction, e: Endpoint,
                                                   ts: seq<Transfer<M>>)
    requires IsNullCipher(lib, keys.cipheringAlg)
             || forall i | 0 <= i < |ts| :: IsCipheredType(ts[i].msg.securityHeaderType % 0x10)
    ensures ArrivalsLegible(lib, keys, d, e, ts)
    decreases |ts|
  {
    if ts == [] {
    } else {
      ReadableRunIsLegible(lib, keys, d, SendTyped(lib, keys, d, e, ts[0].msg).1, ts[1..]);
      if IsNullCipher(lib, keys.cipheringAlg) {
        NullCipherIsLegible(lib, keys, d, CountUsed(e, ts[0].msg), ts[0].msg);
      }
    }
  }

  ghost predicate Faithful<M>(del: Delivery<M>) {
    && del.outcome == Ok(Received(del.msg.securityHeaderType % 0x10, del.msg.body, true))
    && del.recovered == del.used
  }

  /** The messages that were protected and not lost, in order. */
  function Arrivals<M>(lib: Library<M>, keys: Keys, d: Direction, e: Endpoint, ts: seq<Transfer<M>>): seq<NasMessage<M>>
    decreases |ts|
  {
    if ts == [] then []
    else
      var (r, e1) := SendTyped(lib, keys, d, e, ts[0].msg);
      (if r.Ok? && ts[0].delivered then [ts[0].msg] else []) + Arrivals(lib, keys, d, e1, ts[1..])
  }

  /** The deliveries are these messages, each intact. */
  ghost predicate DeliversExactly<M>(ds: seq<Delivery<M>>, msgs: seq<NasMessage<M>>) {
    && |ds| == |msgs|
    && forall i | 0 <= i < |ds| :: ds[i].msg == msgs[i] && Faithful(ds[i])
  }

  lemma DeliversOneMore<M>(del: Delivery<M>, ds: seq<Delivery<M>>, msgs: seq<NasMessage<M>>)
    ensures DeliversExactly([del] + ds, [del.msg] + msgs) <==> Faithful(del) && DeliversExactly(ds, msgs)
  {
    var all, sent := [del] + ds, [del.msg] + msgs;
    if DeliversExactly(all, sent) {
      assert all[0] == del;
      forall i | 0 <= i < |ds| ensures ds[i].msg == msgs[i] && Faithful(ds[i]) {
        assert ds[i] == all[i + 1] && msgs[i] == sent[i + 1];
      }
    }
  }

  predicate InTime<M>(e: Endpoint, f: Endpoint, msg: NasMessage<M>) {
    OpensContext(msg) || Distance(f.received, e.sent) < 0x100
  }

  /** One step of a run that delivers a message: the delivery is faithful if it
      was in time and legible, and, for a canonical codec, only then. */
  lemma RunDelivers<M(!new)>(lib: Library<M>, keys: Keys, d: Direction, e: Endpoint, f: Endpoint, ts: seq<Transfer<M>>)
    returns (del: Delivery<M>, e1: Endpoint, f1: Endpoint)
    requires CipherIsInvolution(lib) && CodecRoundTrips(lib) && keys.integrityAlg != NIA0
    requires ts != [] && ts[0].delivered && Protectable(ts[0].msg)
    requires SendTyped(lib, keys, d, e, ts[0].msg).0.Ok?
    ensures del.msg == ts[0].msg && e1 == SendTyped(lib, keys, d, e, ts[0].msg).1
    ensures InTime(e, f, ts[0].msg) && Legible(lib, keys, d, CountUsed(e, ts[0].msg), ts[0].msg) ==> Faithful(del)
    ensures Faithful(del) ==> InTime(e, f, ts[0].msg) && f1.received == CountUsed(e, ts[0].msg)
    ensures CodecIsCanonical(lib) && Faithful(del) ==> Legible(lib, keys, d, CountUsed(e, ts[0].msg), ts[0].msg)
    ensures Run(lib, keys, d, e, f, ts).deliveries == [del] + Run(lib, keys, d, e1, f1, ts[1..]).deliveries
  {
    var msg, used := ts[0].msg, CountUsed(e, ts[0].msg);
    var t := msg.securityHeaderType % 0x10;
    var (outcome, f2) := Receive(lib, keys, d, f, t, SendTyped(lib, keys, d, e, msg).0.value);
    e1, f1 := SendTyped(lib, keys, d, e, msg).1, f2;
    del := Delivery(msg, used, f1.received, outcome);
    CountFound(lib, keys, d, e, f, msg);
    if InTime(e, f, msg) {
      DeliveryRoundTrip(lib, keys, d, e, f, msg);
    }
  }

  /** The receiver hands up exactly the messages that arrived, each decoded to
      what was encoded, with a matching MAC and the sender's COUNT, if each is in
      reach and legible. Being in reach is necessary; for a canonical codec, so
      is being legible. */
  ghost predicate RoundTrips<M(!new)>(lib: Library<M>, keys: Keys, d: Direction, e: Endpoint, f: Endpoint,
                                      ts: seq<Transfer<M>>)
  {
    var exact := DeliversExactly(Run(lib, keys, d, e, f, ts).deliveries, Arrivals(lib, keys, d, e, ts));
    && (InReach(lib, keys, d, e, f.received, ts) && ArrivalsLegible(lib, keys, d, e, ts) ==> exact)
    && (exact ==> InReach(lib, keys, d, e, f.received, ts))
    && (CodecIsCanonical(lib) && exact ==> ArrivalsLegible(lib, keys, d, e, ts))
  }

  lemma StepRoundTrips<M(!new)>(lib: Library<M>, keys: Keys, d: Direction, e: Endpoint, f: Endpoint,
                                ts: seq<Transfer<M>>, del: Delivery<M>, e1: Endpoint, f1: Endpoint)
    requires ts != [] && ts[0].delivered && del.msg == ts[0].msg
    requires SendTyped(lib, keys, d, e, ts[0].msg).0.Ok? && e1 == SendTyped(lib, keys, d, e, ts[0].msg).1
    requires InTime(e, f, ts[0].msg) && Legible(lib, keys, d, CountUsed(e, ts[0].msg), ts[0].msg) ==> Faithful(del)
    requires Faithful(del) ==> InTime(e, f, ts[0].msg) && f1.received == CountUsed(e, ts[0].msg)
    requires CodecIsCanonical(lib) && Faithful(del) ==> Legible(lib, keys, d, CountUsed(e, ts[0].msg), ts[0].msg)
    requires Run(lib, keys, d, e, f, ts).deliveries == [del] + Run(lib, keys, d, e1, f1, ts[1..]).deliveries
    requires Faithful(del) ==> RoundTrips(lib, keys, d, e1, f1, ts[1..])
    ensures RoundTrips(lib, keys, d, e, f, ts)
  {
    DeliversOneMore(del, Run(lib, keys, d, e1, f1, ts[1..]).deliveries, Arrivals(lib, keys, d, e1, ts[1..]));
  }

  lemma SilentStepRoundTrips<M(!new)>(lib: Library<M>, keys: Keys, d: Direction, e: Endpoint, f: Endpoint,
                                      ts: seq<Transfer<M>>, e1: Endpoint)
    requires ts != [] && e1 == SendTyped(lib, keys, d, e, ts[0].msg).1
    requires !SendTyped(lib, keys, d, e, ts[0].msg).0.Ok? || !ts[0].delivered
    requires RoundTrips(lib, keys, d, e1, f, ts[1..])
    ensures RoundTrips(lib, keys, d, e, f, ts)
  {
    assert Run(lib, keys, d, e, f, ts) == Run(lib, keys, d, e1, f, ts[1..]);
    assert Arrivals(lib, keys, d, e, ts) == Arrivals(lib, keys, d, e1, ts[1..]);
    assert InReach(lib, keys, d, e, f.received, ts) == InReach(lib, keys, d, e1, f.received, ts[1..]);
    assert ArrivalsLegible(lib, keys, d, e, ts) == ArrivalsLegible(lib, keys, d, e1, ts[1..]);
  }

  /** So it is over every run, whatever fails and whatever is lost. */
  lemma {:induction false} RunRoundTrip<M(!new)>(lib: Library<M>, keys: Keys, d: Direction,
                                                 e: Endpoint, f: Endpoint, ts: seq<Transfer<M>>)
    requires CipherIsInvolution(lib) && CodecRoundTrips(lib) && keys.integrityAlg != NIA0
    requires AllProtectable(ts)
    ensures RoundTrips(lib, keys, d, e, f, ts)
    decreases |ts|
  {
    if ts == [] {
      assert RoundTrips(lib, keys, d, e, f, ts);
    } else {
      var (r, e1) := SendTyped(lib, keys, d, e, ts[0].msg);
      if r.Ok? && ts[0].delivered {
        var del, e2, f2 := RunDelivers(lib, keys, d, e, f, ts);
        if Faithful(del) {
          RunRoundTrip(lib, keys, d, e2, f2, ts[1..]);
        }
        StepRoundTrips(lib, keys, d, e, f, ts, del, e2, f2);
      } else {
        RunRoundTrip(lib, keys, d, e1, f, ts[1..]);
        SilentStepRoundTrips(lib, keys, d, e, f, ts, e1);
      }
    }
  }

  // ---------- Both directions ----------

  /** The security mode procedure: the network opens a context, the UE answers
      in a message that opens it too. Whatever the four COUNTs were, afterwards
      each receiver is one step behind its sender. */
  lemma SecurityModeSynchronises<M>(lib: Library<M>, keys: Keys, network: Endpoint, ue: Endpoint,
                                    command: NasMessage<M>, complete: NasMessage<M>)
    requires keys.integrityAlg != NIA0
    requires Protectable(command) && OpensContext(command) && Protectable(complete) && OpensContext(complete)
    requires SendTyped(lib, keys, Downlink, network, command).0.Ok?
    requires
      var (r, _) := SendTyped(lib, keys, Downlink, network, command);
      var ue1 := Receive(lib, keys, Downlink, ue, command.securityHeaderType % 0x10, r.value).1;
      SendTyped(lib, keys, Uplink, ue1, complete).0.Ok?
    ensures
      var (r, network1) := SendTyped(lib, keys, Downlink, network, command);
      var ue1 := Receive(lib, keys, Downlink, ue, command.securityHeaderType % 0x10, r.value).1;
      var (r2, ue2) := SendTyped(lib, keys, Uplink, ue1, complete);
      var network2 := Receive(lib, keys, Uplink, network1, complete.securityHeaderType % 0x10, r2.value).1;
      Distance(ue2.received, network2.sent) == 1 && Distance(network2.received, ue2.sent) == 1
  {
    var (r, network1) := SendTyped(lib, keys, Downlink, network, command);
    CountFound(lib, keys, Downlink, network, ue, command);
    var ue1 := Receive(lib, keys, Downlink, ue, command.securityHeaderType % 0x10, r.value).1;
    CountFound(lib, keys, Uplink, ue1, network1, complete);
  }

  /** Opening a context resets the sender's receiving COUNT as well. The other
      direction then survives exactly when its sender's COUNT is below 256. */
  lemma OpeningContextForgetsOtherDirection<M>(lib: Library<M>, keys: Keys, d: Direction, e: Endpoint, peer: Endpoint,
                                               opening: NasMessage<M>)
    requires OpensContext(opening)
    ensures
      var e1 := SendTyped(lib, keys, d, e, opening).1;
      Recover(e1.received, peer.sent.SQN()) == peer.sent <==> peer.sent.Get() < 0x100
  {
    RecoverExact(e.received.Set(0, 0), peer.sent);
  }
}
