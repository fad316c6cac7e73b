/**
 The NAS security context of onvm_test/ranUe.go and the two routines of
 onvm_test/security.go that protect and unprotect messages with it.

 The library calls (plain NAS coding, NASEncrypt, NASMacCalculate) are the
 function-valued fields of a Library value: everything below holds for
 whatever functions they are.
 */
module NasSecurity {
  import opened Bytes

  type count24 = c: int | 0 <= c < 0x100_0000

  /** security.Count: 24 bits, read as a 16-bit overflow counter and an 8-bit
      sequence number (section 4.4.3.1 of 3GPP TS 24.501). */
  datatype Count = Count(value: count24) {
    function Get(): count24 {
      value
    }

    function Overflow(): uint16 {
      value / 0x100
    }

    function SQN(): byte {
      value % 0x100
    }

    function Set(overflow: uint16, sqn: byte): Count {
      Count(overflow * 0x100 + sqn)
    }

    function SetOverflow(overflow: uint16): Count {
      Count(overflow * 0x100 + value % 0x100)
    }

    function SetSQN(sqn: byte): Count {
      Count(value - value % 0x100 + sqn)
    }

    function AddOne(): Count {
      if value == 0xff_ffff then Count(0) else Count(value + 1)
    }
  }

  /** Adding one to a uint16. */
  function Increment(x: uint16): uint16 {
    if x == 0xffff then 0 else x + 1
  }

  datatype Direction = Uplink | Downlink
  datatype AccessType = ThreeGppAccess | NonThreeGppAccess | OtherAccess

  /** security.Bearer3GPP, security.BearerNon3GPP and security.OnlyOneBearer. */
  function BearerOf(t: AccessType): byte {
    match t
    case ThreeGppAccess => 1
    case NonThreeGppAccess => 2
    case OtherAccess => 0
  }

  /** What one call of NASEncrypt or NASMacCalculate is keyed with. */
  datatype KeyUse = KeyUse(alg: byte, key: seq<byte>, count: nat, bearer: byte, direction: Direction)

  type Mac = m: seq<byte> | |m| == 4 witness [0, 0, 0, 0]

  /** The library functions; None is their error return. */
  datatype Library<!M> = Library(
    plainEncode: M -> Option<seq<byte>>,
    plainDecode: seq<byte> -> Option<M>,
    encrypt: (KeyUse, seq<byte>) -> Option<seq<byte>>,
    mac: (KeyUse, seq<byte>) -> Option<Mac>)
  {
    function PlainNasEncode(body: M): Option<seq<byte>> {
      plainEncode(body)
    }

    function PlainNasDecode(octets: seq<byte>): Option<M> {
      plainDecode(octets)
    }

    function NASEncrypt(use: KeyUse, octets: seq<byte>): Option<seq<byte>> {
      encrypt(use, octets)
    }

    function NASMacCalculate(use: KeyUse, octets: seq<byte>): Option<Mac> {
      mac(use, octets)
    }
  }

  datatype NasMessage<+M> = NasMessage(epd: byte, securityHeaderType: byte, body: M)

  const PLAIN_NAS: byte := 0
  const INTEGRITY_PROTECTED: byte := 1
  const INTEGRITY_PROTECTED_AND_CIPHERED: byte := 2
  const INTEGRITY_PROTECTED_NEW_CONTEXT: byte := 3
  const INTEGRITY_PROTECTED_AND_CIPHERED_NEW_CONTEXT: byte := 4

  const NIA0: byte := 0

  predicate IsNewContextType(t: byte) {
    t == INTEGRITY_PROTECTED_NEW_CONTEXT || t == INTEGRITY_PROTECTED_AND_CIPHERED_NEW_CONTEXT
  }

  predicate IsCipheredType(t: byte) {
    t == INTEGRITY_PROTECTED_AND_CIPHERED || t == INTEGRITY_PROTECTED_AND_CIPHERED_NEW_CONTEXT
  }

  /** The parts of a context that no message changes. */
  datatype Keys = Keys(cipheringAlg: byte, integrityAlg: byte, knasEnc: seq<byte>, knasInt: seq<byte>, bearer: byte) {
    function ForCipher(c: Count, d: Direction): KeyUse {
      KeyUse(cipheringAlg, knasEnc, c.Get(), bearer, d)
    }

    function ForIntegrity(c: Count, d: Direction): KeyUse {
      KeyUse(integrityAlg, knasInt, c.Get(), bearer, d)
    }
  }

  /** One end of a connection: the COUNT it sends with and the COUNT it
      receives with. For the UE these are ULCount and DLCount. */
  datatype Endpoint = Endpoint(sent: Count, received: Count)

  datatype Outcome<+T> = Ok(value: T) | Err | Panic

  /** A decoded message. A wrong MAC is reported, not refused. */
  datatype Received<+M> = Received(headerType: byte, body: M, macMatches: bool)

  function GetSecurityHeaderType(payload: seq<byte>): byte {
    if |payload| < 2 then 0 else payload[1]
  }

  /** The COUNT rebuilt from the sequence number on the wire. */
  function Recover(c: Count, sqn: byte): Count {
    var c1 := if c.SQN() > sqn then c.SetOverflow(Increment(c.Overflow())) else c;
    c1.SetSQN(sqn)
  }

  /** The ciphered body of a message under a given COUNT. */
  function CipherBody<M>(lib: Library<M>, keys: Keys, d: Direction, c: Count, body: M): Option<seq<byte>> {
    var plain := lib.PlainNasEncode(body);
    if plain.None? then None else lib.NASEncrypt(keys.ForCipher(c, d), plain.value)
  }

  /** The octets of one protected message under a given COUNT. */
  function Protect<M>(lib: Library<M>, keys: Keys, d: Direction, c: Count, msg: NasMessage<M>): Option<seq<byte>> {
    var text := CipherBody(lib, keys, d, c, msg.body);
    if text.None? then None
    else
      var mac := lib.NASMacCalculate(keys.ForIntegrity(c, d), [c.SQN()] + text.value);
      if mac.None? then None
      else Some([msg.epd, msg.securityHeaderType] + mac.value + [c.SQN()] + text.value)
  }

  /** NASEncode at an end that sends in direction d. */
  function Send<M>(lib: Library<M>, keys: Keys, d: Direction, e: Endpoint, msg: NasMessage<M>,
                   contextAvailable: bool, newContext: bool): (Outcome<seq<byte>>, Endpoint)
  {
    if !contextAvailable then
      match lib.PlainNasEncode(msg.body)
      case None => (Err, e)
      case Some(plain) => (Ok(plain), e)
    else
      var e0 := if newContext then Endpoint(e.sent.Set(0, 0), e.received.Set(0, 0)) else e;
      match Protect(lib, keys, d, e0.sent, msg)
      case None => (Err, e0)
      case Some(octets) => (Ok(octets), e0.(sent := e0.sent.AddOne()))
  }

  /** What the octets of a protected message of type t hold under a given COUNT. */
  function Unprotect<M>(lib: Library<M>, keys: Keys, d: Direction, c: Count, t: byte,
                        octets: seq<byte>): Outcome<Received<M>>
    requires |octets| >= 7
  {
    var mac := lib.NASMacCalculate(keys.ForIntegrity(c, d), octets[6..]);
    if mac.None? then Err
    else
      var plain := if IsCipheredType(t) then lib.NASEncrypt(keys.ForCipher(c, d), octets[7..]) else Some(octets[7..]);
      Parsed(lib, t, mac.value == octets[2..6], plain)
  }

  /** NASDecode at an end that receives in direction d. */
  function Receive<M>(lib: Library<M>, keys: Keys, d: Direction, e: Endpoint,
                      headerType: byte, payload: seq<byte>): (Outcome<Received<M>>, Endpoint)
  {
    var t := GetSecurityHeaderType(payload) % 0x10;
    if headerType == PLAIN_NAS then
      (Parsed(lib, t, true, Some(payload)), e)
    else if keys.integrityAlg == NIA0 then
      if |payload| < 3 then (Panic, e)
      else (Parsed(lib, t, true, lib.NASEncrypt(keys.ForCipher(e.received, d), payload[3..])), e)
    else if |payload| < 7 then (Panic, e)
    else if !(INTEGRITY_PROTECTED <= t <= INTEGRITY_PROTECTED_AND_CIPHERED_NEW_CONTEXT) then (Err, e)
    else
      var c := Recover(if IsNewContextType(t) then e.received.Set(0, 0) else e.received, payload[6]);
      (Unprotect(lib, keys, d, c, t, payload), e.(received := c))
  }

  function Parsed<M>(lib: Library<M>, t: byte, macMatches: bool, plain: Option<seq<byte>>): Outcome<Received<M>> {
    if plain.None? then Err
    else
      match lib.PlainNasDecode(plain.value)
      case None => Err
      case Some(body) => Ok(Received(t, body, macMatches))
  }

  // ---------- What goes over the wire and into the library ----------

  /** What a call of NASEncode that sends in direction d does, in terms of
      octets, COUNTs and library calls alone. A protected message is the
      protocol discriminator, the header type, the MAC of what follows it, the
      low octet of the COUNT and the ciphered body, ciphered and authenticated
      under the whole COUNT. */
  ghost predicate EncodedAs<M>(lib: Library<M>, cipheringAlg: byte, integrityAlg: byte,
                               knasEnc: seq<byte>, knasInt: seq<byte>, bearer: byte, d: Direction,
                               before: Endpoint, msg: NasMessage<M>, contextAvailable: bool, newContext: bool,
                               r: Outcome<seq<byte>>, after: Endpoint)
  {
    var plain := lib.plainEncode(msg.body);
    if !contextAvailable then
      after == before && r == if plain.Some? then Ok(plain.value) else Err
    else
      var c := if newContext then 0 else before.sent.value;
      var text := if plain.Some? then lib.encrypt(KeyUse(cipheringAlg, knasEnc, c, bearer, d), plain.value) else None;
      var mac := if text.Some?
                 then lib.mac(KeyUse(integrityAlg, knasInt, c, bearer, d), [c % 0x100] + text.value) else None;
      && r == (if mac.None? then Err
               else Ok([msg.epd, msg.securityHeaderType] + mac.value + [c % 0x100] + text.value))
      && after.sent.value == (if r.Ok? then (c + 1) % 0x100_0000 else c)
      && after.received.value == (if newContext then 0 else before.received.value)
  }

  /** What a call of NASDecode that receives in direction d does, in the same
      terms. The COUNT of a protected message is the first one, from the last on
      or from 0 for header types 3 and 4, that ends in the octet received. A
      wrong MAC is reported; the body is handed up all the same. */
  ghost predicate DecodedAs<M>(lib: Library<M>, cipheringAlg: byte, integrityAlg: byte,
                               knasEnc: seq<byte>, knasInt: seq<byte>, bearer: byte, d: Direction,
                               before: Endpoint, headerType: byte, payload: seq<byte>,
                               r: Outcome<Received<M>>, after: Endpoint)
  {
    var t := if |payload| < 2 then 0 else payload[1] % 0x10;
    && after.sent == before.sent
    && if headerType == 0 then
         after == before && HandedUp(lib, t, true, Some(payload), r)
       else if integrityAlg == 0 then
         && after == before
         && if |payload| < 3 then r == Panic
            else
              var c := before.received.value;
              HandedUp(lib, t, true, lib.encrypt(KeyUse(cipheringAlg, knasEnc, c, bearer, d), payload[3..]), r)
       else if |payload| < 7 then
         after == before && r == Panic
       else if t == 0 || t > 4 then
         after == before && r == Err
       else
         var base := if t == 3 || t == 4 then 0 else before.received.value;
         var c := after.received.value;
         var mac := lib.mac(KeyUse(integrityAlg, knasInt, c, bearer, d), payload[6..]);
         && (c - base) % 0x100_0000 < 0x100 && c % 0x100 == payload[6]
         && if mac.None? then r == Err
            else if t == 2 || t == 4 then
              var text := lib.encrypt(KeyUse(cipheringAlg, knasEnc, c, bearer, d), payload[7..]);
              HandedUp(lib, t, mac.value == payload[2..6], text, r)
            else HandedUp(lib, t, mac.value == payload[2..6], Some(payload[7..]), r)
  }

  /** The message that the plain decoder makes of the octets, if any. */
  ghost predicate HandedUp<M>(lib: Library<M>, t: byte, macMatches: bool, plain: Option<seq<byte>>,
                              r: Outcome<Received<M>>)
  {
    if plain.Some? && lib.plainDecode(plain.value).Some?
    then r == Ok(Received(t, lib.plainDecode(plain.value).value, macMatches))
    else r == Err
  }

  lemma SendExactly<M>(lib: Library<M>, keys: Keys, d: Direction, e: Endpoint, msg: NasMessage<M>,
                       contextAvailable: bool, newContext: bool)
    ensures
      var (r, e1) := Send(lib, keys, d, e, msg, contextAvailable, newContext);
      EncodedAs(lib, keys.cipheringAlg, keys.integrityAlg, keys.knasEnc, keys.knasInt, keys.bearer, d,
                e, msg, contextAvailable, newContext, r, e1)
  {
  }

  lemma RecoveredCount(c: Count, sqn: byte)
    ensures (Recover(c, sqn).value - c.value) % 0x100_0000 < 0x100 && Recover(c, sqn).value % 0x100 == sqn
  {
    var overflow, low := c.value / 0x100, c.value % 0x100;
    assert c.value == 0x100 * overflow + low;
    if low <= sqn {
      assert Recover(c, sqn).value == 0x100 * overflow + sqn;
    } else if overflow < 0xffff {
      assert Recover(c, sqn).value == 0x100 * overflow + 0x100 + sqn;
    } else {
      assert Recover(c, sqn).value == sqn;
      assert sqn - c.value == (0x100 + sqn - low) - 0x100_0000;
    }
  }

  lemma ReceiveProtected<M>(lib: Library<M>, keys: Keys, d: Direction, e: Endpoint, headerType: byte,
                            payload: seq<byte>)
    requires headerType != 0 && keys.integrityAlg != 0 && |payload| >= 7 && 1 <= payload[1] % 0x10 <= 4
    ensures
      var (r, e1) := Receive(lib, keys, d, e, headerType, payload);
      DecodedAs(lib, keys.cipheringAlg, keys.integrityAlg, keys.knasEnc, keys.knasInt, keys.bearer, d,
                e, headerType, payload, r, e1)
  {
    var t := payload[1] % 0x10;
    var base := if t == 3 || t == 4 then e.received.Set(0, 0) else e.received;
    var c := Recover(base, payload[6]);
    var (r, e1) := Receive(lib, keys, d, e, headerType, payload);
    assert e1 == e.(received := c) && r == Unprotect(lib, keys, d, c, t, payload);
    RecoveredCount(base, payload[6]);
    UnprotectExactly(lib, keys, d, c, t, payload);
  }

  lemma UnprotectExactly<M>(lib: Library<M>, keys: Keys, d: Direction, c: Count, t: byte, payload: seq<byte>)
    requires |payload| >= 7
    ensures
      var r := Unprotect(lib, keys, d, c, t, payload);
      var mac := lib.mac(KeyUse(keys.integrityAlg, keys.knasInt, c.value, keys.bearer, d), payload[6..]);
      if mac.None? then r == Err
      else if t == 2 || t == 4 then
        var text := lib.encrypt(KeyUse(keys.cipheringAlg, keys.knasEnc, c.value, keys.bearer, d), payload[7..]);
        HandedUp(lib, t, mac.value == payload[2..6], text, r)
      else HandedUp(lib, t, mac.value == payload[2..6], Some(payload[7..]), r)
  {
  }

  lemma ReceiveExactly<M>(lib: Library<M>, keys: Keys, d: Direction, e: Endpoint, headerType: byte, payload: seq<byte>)
    ensures
      var (r, e1) := Receive(lib, keys, d, e, headerType, payload);
      DecodedAs(lib, keys.cipheringAlg, keys.integrityAlg, keys.knasEnc, keys.knasInt, keys.bearer, d,
                e, headerType, payload, r, e1)
  {
    if headerType != 0 && keys.integrityAlg != 0 && |payload| >= 7 && 1 <= payload[1] % 0x10 <= 4 {
      ReceiveProtected(lib, keys, d, e, headerType, payload);
    }
  }

  /** The bearer number goes with the access type. */
  lemma BearerValues()
    ensures BearerOf(ThreeGppAccess) == 1 && BearerOf(NonThreeGppAccess) == 2 && BearerOf(OtherAccess) == 0
  {
  }

  /** The UE side of the connection, as the test programs keep it. */
  class RanUeContext {
    var ULCount: Count
    var DLCount: Count
    var CipheringAlg: byte
    var IntegrityAlg: byte
    var KnasEnc: seq<byte>
    var KnasInt: seq<byte>
    var AnType: AccessType

    constructor (cipheringAlg: byte, integrityAlg: byte, anType: Option<AccessType>)
      ensures ULCount == Count(0) && DLCount == Count(0)
      ensures CipheringAlg == cipheringAlg && IntegrityAlg == integrityAlg
      ensures AnType == if anType.Some? then anType.value else ThreeGppAccess
      ensures KnasEnc == seq(16, _ => 0) && KnasInt == seq(16, _ => 0)
    {
      ULCount, DLCount := Count(0), Count(0);
      CipheringAlg, IntegrityAlg := cipheringAlg, integrityAlg;
      KnasEnc, KnasInt := seq(16, _ => 0), seq(16, _ => 0);
      AnType := if anType.Some? then anType.value else ThreeGppAccess;
    }

    function GetBearerType(): byte
      reads this
    {
      BearerOf(AnType)
    }

    function KeysOf(): Keys
      reads this
    {
      Keys(CipheringAlg, IntegrityAlg, KnasEnc, KnasInt, GetBearerType())
    }

    function End(): Endpoint
      reads this
    {
      Endpoint(ULCount, DLCount)
    }

    /** The target context of an N2 handover: the same keys, then both COUNTs
        set explicitly from the source context. */
    method TransferToTarget() returns (target: RanUeContext)
      ensures fresh(target)
      ensures target.End() == End() && target.KeysOf() == KeysOf()
    {
      target := new RanUeContext(CipheringAlg, IntegrityAlg, Some(AnType));
      target.KnasEnc, target.KnasInt := KnasEnc, KnasInt;
      target.ULCount := target.ULCount.Set(ULCount.Overflow(), ULCount.SQN());
      target.DLCount := target.DLCount.Set(DLCount.Overflow(), DLCount.SQN());
    }
  }

  method NASEncode<M>(lib: Library<M>, ue: RanUeContext?, msg: Option<NasMessage<M>>,
                      securityContextAvailable: bool, newSecurityContext: bool) returns (r: Outcome<seq<byte>>)
    modifies ue
    ensures ue == null || msg.None? ==> r == Err
    ensures ue != null && msg.None? ==> ue.End() == old(ue.End())
    ensures ue != null && msg.Some? ==>
              (r, ue.End()) == Send(lib, old(ue.KeysOf()), Uplink, old(ue.End()), msg.value,
                                    securityContextAvailable, newSecurityContext)
    ensures ue != null && msg.Some? ==>
              var bearer := match old(ue.AnType)
                case ThreeGppAccess => 1
                case NonThreeGppAccess => 2
                case OtherAccess => 0;
              EncodedAs(lib, old(ue.CipheringAlg), old(ue.IntegrityAlg), old(ue.KnasEnc), old(ue.KnasInt), bearer,
                        Uplink, old(ue.End()), msg.value, securityContextAvailable, newSecurityContext, r, ue.End())
    ensures ue != null ==> ue.CipheringAlg == old(ue.CipheringAlg) && ue.IntegrityAlg == old(ue.IntegrityAlg)
    ensures ue != null ==> ue.KnasEnc == old(ue.KnasEnc) && ue.KnasInt == old(ue.KnasInt) && ue.AnType == old(ue.AnType)
  {
    if ue == null || msg.None? {
      return Err;
    }
    BearerValues();
    SendExactly(lib, ue.KeysOf(), Uplink, ue.End(), msg.value, securityContextAvailable, newSecurityContext);
    if !securityContextAvailable {
      var plain := lib.PlainNasEncode(msg.value.body);
      return if plain.None? then Err else Ok(plain.value);
    }
    if newSecurityContext {
      ue.ULCount := ue.ULCount.Set(0, 0);
      ue.DLCount := ue.DLCount.Set(0, 0);
    }
    var sequenceNumber := ue.ULCount.SQN();
    var encoded := lib.PlainNasEncode(msg.value.body);
    if encoded.None? {
      return Err;
    }
    var payload := encoded.value;
    var ciphered := lib.NASEncrypt(
      KeyUse(ue.CipheringAlg, ue.KnasEnc, ue.ULCount.Get(), ue.GetBearerType(), Uplink), payload);
    if ciphered.None? {
      return Err;
    }
    payload := [sequenceNumber] + ciphered.value;
    var mac32 := lib.NASMacCalculate(
      KeyUse(ue.IntegrityAlg, ue.KnasInt, ue.ULCount.Get(), ue.GetBearerType(), Uplink), payload);
    if mac32.None? {
      return Err;
    }
    payload := mac32.value + payload;
    payload := [msg.value.epd, msg.value.securityHeaderType] + payload;
    assert payload == [msg.value.epd, msg.value.securityHeaderType] + mac32.value + [sequenceNumber] + ciphered.value;
    ue.ULCount := ue.ULCount.AddOne();
    return Ok(payload);
  }

  method NASDecode<M>(lib: Library<M>, ue: RanUeContext?, securityHeaderType: byte, received: Option<seq<byte>>)
    returns (r: Outcome<Received<M>>)
    modifies ue
    ensures ue == null || received.None? ==> r == Err
    ensures ue != null && received.None? ==> ue.End() == old(ue.End())
    ensures ue != null && received.Some? ==>
              (r, ue.End()) == Receive(lib, old(ue.KeysOf()), Downlink, old(ue.End()),
                                       securityHeaderType, received.value)
    ensures ue != null && received.Some? ==>
              var bearer := match old(ue.AnType)
                case ThreeGppAccess => 1
                case NonThreeGppAccess => 2
                case OtherAccess => 0;
              DecodedAs(lib, old(ue.CipheringAlg), old(ue.IntegrityAlg), old(ue.KnasEnc), old(ue.KnasInt), bearer,
                        Downlink, old(ue.End()), securityHeaderType, received.value, r, ue.End())
    ensures ue != null ==> ue.CipheringAlg == old(ue.CipheringAlg) && ue.IntegrityAlg == old(ue.IntegrityAlg)
    ensures ue != null ==> ue.KnasEnc == old(ue.KnasEnc) && ue.KnasInt == old(ue.KnasInt) && ue.AnType == old(ue.AnType)
  {
    if ue == null || received.None? {
      return Err;
    }
    BearerValues();
    ReceiveExactly(lib, ue.KeysOf(), Downlink, ue.End(), securityHeaderType, received.value);
    var payload := received.value;
    var t := GetSecurityHeaderType(payload) % 0x10;
    if securityHeaderType == PLAIN_NAS {
      return Parsed(lib, t, true, Some(payload));
    }
    if ue.IntegrityAlg == NIA0 {
      if |payload| < 3 {
        return Panic;
      }
      payload := payload[3..];
      var deciphered := lib.NASEncrypt(
        KeyUse(ue.CipheringAlg, ue.KnasEnc, ue.DLCount.Get(), ue.GetBearerType(), Downlink), payload);
      return Parsed(lib, t, true, deciphered);
    }
    if |payload| < 7 {
      return Panic;
    }
    var securityHeader := payload[0..6];
    var sequenceNumber := payload[6];
    var receivedMac32 := securityHeader[2..];
    payload := payload[6..];
    var ciphered := false;
    if t == INTEGRITY_PROTECTED {
    } else if t == INTEGRITY_PROTECTED_AND_CIPHERED {
      ciphered := true;
    } else if t == INTEGRITY_PROTECTED_NEW_CONTEXT {
      ue.DLCount := ue.DLCount.Set(0, 0);
    } else if t == INTEGRITY_PROTECTED_AND_CIPHERED_NEW_CONTEXT {
      ciphered := true;
      ue.DLCount := ue.DLCount.Set(0, 0);
    } else {
      return Err;
    }
    if ue.DLCount.SQN() > sequenceNumber {
      ue.DLCount := ue.DLCount.SetOverflow(Increment(ue.DLCount.Overflow()));
    }
    ue.DLCount := ue.DLCount.SetSQN(sequenceNumber);
    var mac32 := lib.NASMacCalculate(
      KeyUse(ue.IntegrityAlg, ue.KnasInt, ue.DLCount.Get(), ue.GetBearerType(), Downlink), payload);
    if mac32.None? {
      return Err;
    }
    assert receivedMac32 == received.value[2..6];
    var macMatches := mac32.value == receivedMac32;
    payload := payload[1..];
    assert payload == received.value[7..];
    var plain := Some(payload);
    if ciphered {
      plain := lib.NASEncrypt(
        KeyUse(ue.CipheringAlg, ue.KnasEnc, ue.DLCount.Get(), ue.GetBearerType(), Downlink), payload);
    }
    return Parsed(lib, t, macMatches, plain);
  }
}
