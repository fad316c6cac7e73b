/** A library that meets every assumption of NasChannel and shows that its
    condition on header types 1 and 3 is not idle. */
module NasIntegrityOnly {
  import opened Bytes
  import opened NasSecurity
  import opened NasChannel

  /** A library whose cipher is not the identity: it complements every octet. */
  function ComplementLibrary(): Library<seq<byte>> {
    Library(
      (m: seq<byte>) => Some(m), (o: seq<byte>) => Some(o),
      (u: KeyUse, p: seq<byte>) => Some(Flip(p)),
      (u: KeyUse, p: seq<byte>) => var m: Mac := [0, 0, 0, 0]; Some(m))
  }

  function Flip(p: seq<byte>): seq<byte> {
    seq(|p|, i requires 0 <= i < |p| => var b: byte := 0xff - p[i]; b)
  }

  lemma ComplementLibraryLaws()
    ensures CipherIsInvolution(ComplementLibrary()) && CipherKeepsLength(ComplementLibrary())
    ensures CodecRoundTrips(ComplementLibrary()) && CodecIsCanonical(ComplementLibrary())
  {
    var lib := ComplementLibrary();
    forall u, p, q | lib.NASEncrypt(u, p) == Some(q) ensures lib.NASEncrypt(u, q) == Some(p) {
      assert Flip(Flip(p)) == p;
    }
  }

  lemma ComplementLibraryValues(keys: Keys, d: Direction, c: Count, msg: NasMessage<seq<byte>>)
    ensures Protect(ComplementLibrary(), keys, d, c, msg).Some?
    ensures CipherBody(ComplementLibrary(), keys, d, c, msg.body) == Some(Flip(msg.body))
    ensures forall t: byte, p :: Parsed(ComplementLibrary(), t, true, Some(p)) == Ok(Received(t, p, true))
    ensures msg.body != [] ==> Flip(msg.body) != msg.body
  {
    if msg.body != [] {
      assert Flip(msg.body)[0] + msg.body[0] == 0xff;
    }
  }

  /** A cipher with which no message of type 1 or 3 is legible, unless it is
      empty: each arrives garbled, although the COUNTs agree and the MAC
      matches. */
  lemma IntegrityOnlyIsGarbled(keys: Keys, d: Direction, e: Endpoint, f: Endpoint, msg: NasMessage<seq<byte>>)
    requires keys.integrityAlg != NIA0
    requires Protectable(msg) && !IsCipheredType(msg.securityHeaderType % 0x10)
    requires OpensContext(msg) || Distance(f.received, e.sent) < 0x100
    ensures SendTyped(ComplementLibrary(), keys, d, e, msg).0.Ok?
    ensures
      var t := msg.securityHeaderType % 0x10;
      Receive(ComplementLibrary(), keys, d, f, t, SendTyped(ComplementLibrary(), keys, d, e, msg).0.value).0
      == Ok(Received(t, Flip(msg.body), true))
    ensures msg.body != [] ==> Flip(msg.body) != msg.body
    ensures msg.body != [] ==> !Legible(ComplementLibrary(), keys, d, CountUsed(e, msg), msg)
  {
    var lib := ComplementLibrary();
    ComplementLibraryLaws();
    ComplementLibraryValues(keys, d, CountUsed(e, msg), msg);
    DeliveryExact(lib, keys, d, e, f, msg);
  }
}
