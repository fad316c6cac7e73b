/**
 GTPv1-U T-PDUs: building, parsing and skipping extension headers, as in
 python_ue_simulator/gtpu_shim.py, and the header built by onvm_test/gtp.go
 (sections 5.1 and 5.2.1 of 3GPP TS 29.281).
 */
module Gtpu {
  import opened Bytes

  // ---------- Extension headers ----------

  /** The octets an extension header says it has. */
  function Total(length: byte): nat {
    length as int * 4
  }

  /** One round of the skipping loop; None when neither layout fits. */
  function SkipOne(buf: seq<byte>, pos: nat): (r: Option<(nat, byte)>)
    ensures r.Some? ==> pos < r.value.0 <= |buf|
  {
    if pos < |buf| && buf[pos] >= 1 && pos + Total(buf[pos]) <= |buf| then
      // [length][...][next type]
      Some((pos + Total(buf[pos]), buf[pos + Total(buf[pos]) - 1]))
    else if pos + 2 <= |buf| && buf[pos + 1] >= 1 && pos + 2 + Total(buf[pos + 1]) <= |buf| then
      // [type][length][...][next type]
      Some((pos + 2 + Total(buf[pos + 1]), buf[pos + 2 + Total(buf[pos + 1]) - 1]))
    else None
  }

  function Skip(buf: seq<byte>, pos: nat, nextType: byte, rounds: nat): nat
    decreases rounds
  {
    if rounds == 0 || nextType == 0 then pos
    else
      match SkipOne(buf, pos)
      case None => pos
      case Some((p, t)) => Skip(buf, p, t, rounds - 1)
  }

  /** For every buffer the result lies between the starting position and the
      end of the buffer. */
  lemma {:induction false} SkipIsBounded(buf: seq<byte>, pos: nat, nextType: byte, rounds: nat)
    ensures pos <= Skip(buf, pos, nextType, rounds)
    ensures pos <= |buf| ==> Skip(buf, pos, nextType, rounds) <= |buf|
    decreases rounds
  {
    if rounds == 0 || nextType == 0 || SkipOne(buf, pos).None? {
    } else {
      var (p, t) := SkipOne(buf, pos).value;
      SkipIsBounded(buf, p, t, rounds - 1);
    }
  }

  /** The two readings the loop body tries, the length-only one first. */
  method TryHeader(buf: seq<byte>, pos: nat) returns (parsed: bool, newPos: nat, nextType: byte)
    ensures parsed <==> SkipOne(buf, pos).Some?
    ensures parsed ==> SkipOne(buf, pos) == Some((newPos, nextType))
  {
    if pos < |buf| {
      var length := buf[pos];
      var total := Total(length);
      if length >= 1 && pos + total <= |buf| {
        return true, pos + total, buf[pos + total - 1];
      }
    }
    if pos + 2 <= |buf| {
      var length := buf[pos + 1];
      var total := Total(length);
      if length >= 1 && pos + 2 + total <= |buf| {
        return true, pos + 2 + total, buf[pos + 2 + total - 1];
      }
    }
    return false, pos, 0;
  }

  /** One round octet by octet: the length octet counts words and the type of the
      next header is the last octet; the reading with a type octet in front is
      tried only when the first one does not fit; when neither does, or no header
      follows, the walk ends. */
  lemma SkipStep(buf: seq<byte>, pos: nat, nextType: byte, rounds: nat)
    requires rounds > 0
    ensures
      var skipped := Skip(buf, pos, nextType, rounds);
      if nextType == 0 || pos >= |buf| then skipped == pos
      else
        var end := pos + 4 * (buf[pos] as int);
        if buf[pos] != 0 && end <= |buf| then skipped == Skip(buf, end, buf[end - 1], rounds - 1)
        else if pos + 1 >= |buf| then skipped == pos
        else
          var end2 := pos + 2 + 4 * (buf[pos + 1] as int);
          if buf[pos + 1] != 0 && end2 <= |buf| then skipped == Skip(buf, end2, buf[end2 - 1], rounds - 1)
          else skipped == pos
  {
  }

  method SkipExtHeaders(buf: seq<byte>, start: nat, firstType: byte) returns (pos: nat)
    ensures pos == Skip(buf, start, firstType, 8)
    ensures start <= pos && (start <= |buf| ==> pos <= |buf|)
  {
    pos := start;
    var nextType := firstType;
    SkipIsBounded(buf, start, firstType, 8);
    for i := 0 to 8
      invariant Skip(buf, start, firstType, 8) == Skip(buf, pos, nextType, 8 - i)
    {
      if nextType == 0 {
        return;
      }
      var parsed, newPos, newType := TryHeader(buf, pos);
      if !parsed {
        return;
      }
      pos, nextType := newPos, newType;
    }
  }

  /** An extension header as section 5.2.1 defines it: a type, named by what
      precedes it, and contents of 4n - 2 octets between the length octet and
      the octet that names the next type. */
  datatype ExtHeader = ExtHeader(kind: byte, contents: seq<byte>)

  predicate ValidHeader(h: ExtHeader) {
    h.kind != 0 && |h.contents| % 4 == 2 && |h.contents| <= 1018
  }

  predicate ValidChain(hs: seq<ExtHeader>) {
    forall i | 0 <= i < |hs| :: ValidHeader(hs[i])
  }

  function FirstKind(hs: seq<ExtHeader>): byte {
    if hs == [] then 0 else hs[0].kind
  }

  /** One extension header on the wire, followed by one of the given type. */
  function HeaderOctets(h: ExtHeader, next: byte): (s: seq<byte>)
    requires ValidHeader(h)
    ensures |s| == |h.contents| + 2 && s[0] == (|h.contents| + 2) / 4 && s[|s| - 1] == next
  {
    [(|h.contents| + 2) / 4] + h.contents + [next]
  }

  function ChainOctets(hs: seq<ExtHeader>): (s: seq<byte>)
    requires ValidChain(hs)
  {
    if hs == [] then []
    else HeaderOctets(hs[0], FirstKind(hs[1..])) + ChainOctets(hs[1..])
  }

  /** How many octets the first n headers take. */
  function ChainLength(hs: seq<ExtHeader>, n: nat): nat {
    if hs == [] || n == 0 then 0 else |hs[0].contents| + 2 + ChainLength(hs[1..], n - 1)
  }

  lemma {:induction false} ChainLengthExact(hs: seq<ExtHeader>, n: nat)
    requires ValidChain(hs)
    ensures ChainLength(hs, n) == |ChainOctets(hs)| <==> |hs| <= n
    ensures ChainLength(hs, n) <= |ChainOctets(hs)|
  {
    if hs == [] || n == 0 {
    } else {
      ChainLengthExact(hs[1..], n - 1);
    }
  }

  /** The chain lies in the buffer from pos on. */
  predicate ChainAt(buf: seq<byte>, pos: nat, hs: seq<ExtHeader>)
    decreases |hs|
  {
    hs == [] ||
    (var end := pos + |hs[0].contents| + 2;
     && end <= |buf|
     && ValidHeader(hs[0])
     && buf[pos] == (|hs[0].contents| + 2) / 4
     && buf[end - 1] == FirstKind(hs[1..])
     && ChainAt(buf, end, hs[1..]))
  }

  /** The loop walks the chain: it stops at the end, or after as many headers
      as it has rounds. */
  lemma {:induction false} SkipWalksChain(buf: seq<byte>, pos: nat, hs: seq<ExtHeader>, rounds: nat)
    requires ChainAt(buf, pos, hs)
    ensures Skip(buf, pos, FirstKind(hs), rounds) == pos + ChainLength(hs, rounds)
    decreases rounds
  {
    if rounds == 0 || hs == [] {
    } else {
      var end := pos + |hs[0].contents| + 2;
      assert SkipOne(buf, pos) == Some((end, FirstKind(hs[1..])));
      SkipWalksChain(buf, end, hs[1..], rounds - 1);
    }
  }

  lemma ChainAtCons(buf: seq<byte>, pos: nat, hs: seq<ExtHeader>, header: seq<byte>)
    requires hs != [] && ValidHeader(hs[0]) && header == HeaderOctets(hs[0], FirstKind(hs[1..]))
    requires pos + |header| <= |buf| && buf[pos] == header[0] && buf[pos + |header| - 1] == header[|header| - 1]
    requires ChainAt(buf, pos + |header|, hs[1..])
    ensures ChainAt(buf, pos, hs)
  {
  }

  lemma ChainAfterHeader(buf: seq<byte>, front: seq<byte>, header: seq<byte>, more: seq<byte>, hs: seq<ExtHeader>)
    requires hs != [] && ValidHeader(hs[0]) && header == HeaderOctets(hs[0], FirstKind(hs[1..]))
    requires buf == front + header + more
    requires ChainAt(buf, |front + header|, hs[1..])
    ensures ChainAt(buf, |front|, hs)
  {
    EndsInside(front, header, more);
    ChainAtCons(buf, |front|, hs, header);
  }

  lemma {:induction false} ChainIsAt(buf: seq<byte>, front: seq<byte>, hs: seq<ExtHeader>, rest: seq<byte>)
    requires ValidChain(hs) && buf == front + ChainOctets(hs) + rest
    ensures ChainAt(buf, |front|, hs)
    decreases |hs|
  {
    if hs == [] {
    } else {
      var header, chain := HeaderOctets(hs[0], FirstKind(hs[1..])), ChainOctets(hs[1..]);
      Regroup(front, header, chain, rest);
      ChainIsAt(buf, front + header, hs[1..], rest);
      ChainAfterHeader(buf, front, header, chain + rest, hs);
    }
  }

  lemma Regroup(a: seq<byte>, b: seq<byte>, c: seq<byte>, d: seq<byte>)
    ensures a + (b + c) + d == (a + b) + c + d == a + b + (c + d)
  {
  }

  lemma EndsInside(a: seq<byte>, b: seq<byte>, c: seq<byte>)
    requires b != []
    ensures (a + b + c)[|a|] == b[0] && (a + b + c)[|a| + |b| - 1] == b[|b| - 1]
  {
  }

  /** After any front part and before any rest, the loop ends exactly at the
      end of the chain if and only if the chain has at most 8 headers. */
  lemma SkipIsExactUpToEight(buf: seq<byte>, front: seq<byte>, hs: seq<ExtHeader>, rest: seq<byte>)
    requires ValidChain(hs)
    requires buf == front + ChainOctets(hs) + rest
    ensures Skip(buf, |front|, FirstKind(hs), 8) == |front + ChainOctets(hs)| <==> |hs| <= 8
  {
    ChainIsAt(buf, front, hs, rest);
    SkipWalksChain(buf, |front|, hs, 8);
    ChainLengthExact(hs, 8);
  }

  // ---------- Parsing ----------

  datatype Parsed = NotTpdu | Tpdu(teid: uint32, inner: seq<byte>)

  function ParseGtpu(pkt: seq<byte>): Parsed {
    if |pkt| < 8 then NotTpdu
    else if pkt[0] / 0x20 != 1 || pkt[1] != 0xff then NotTpdu
    else
      var end := 8 + Word16(pkt[2], pkt[3]);
      var payload := pkt[8..if end <= |pkt| then end else |pkt|];
      var teid := Word32(pkt[4..8]);
      ParsePayload(pkt[0], teid, payload)
  }

  function Word32(s: seq<byte>): uint32
    requires |s| == 4
  {
    Word16(s[0], s[1]) * 0x1_0000 + Word16(s[2], s[3])
  }

  lemma Word32OfBigEndian(x: uint32)
    ensures Word32(BigEndian32(x)) == x
  {
  }

  lemma Word32IsWord(b: seq<byte>)
    requires |b| >= 8
    ensures IsWord32(b, 4, Word32(b[4..8]))
  {
    var t := b[4..8];
    assert t[0] == b[4] && t[1] == b[5] && t[2] == b[6] && t[3] == b[7];
  }

  /** What a datagram still has of the octets that its length field counts. */
  function Counted(pkt: seq<byte>): seq<byte>
    requires |pkt| >= 8
  {
    var length := 0x100 * (pkt[2] as int) + pkt[3];
    pkt[8..if 8 + length <= |pkt| then 8 + length else |pkt|]
  }

  lemma ParsePayloadExactly(flags: byte, teid: uint32, payload: seq<byte>)
    ensures
      var parsed := ParsePayload(flags, teid, payload);
      && (parsed.NotTpdu? <==> flags % 8 != 0 && |payload| < 4)
      && (parsed.Tpdu? ==> parsed.teid == teid)
      && (flags % 8 == 0 ==> parsed.inner == payload)
    ensures flags % 8 != 0 && |payload| >= 4 ==>
              && 4 <= Skip(payload, 4, payload[3], 8) <= |payload|
              && ParsePayload(flags, teid, payload).inner == payload[Skip(payload, 4, payload[3], 8)..]
  {
    if |payload| >= 4 {
      SkipIsBounded(payload, 4, payload[3], 8);
    }
  }

  lemma ParseIsOfPayload(pkt: seq<byte>)
    requires |pkt| >= 8 && 0x20 <= pkt[0] < 0x40 && pkt[1] == 0xff
    ensures ParseGtpu(pkt) == ParsePayload(pkt[0], Word32(pkt[4..8]), Counted(pkt))
  {
    assert pkt[0] / 0x20 == 1;
  }

  lemma NoTpduByHeader(pkt: seq<byte>)
    requires |pkt| < 8 || pkt[0] < 0x20 || pkt[0] >= 0x40 || pkt[1] != 0xff
    ensures ParseGtpu(pkt) == NotTpdu
  {
    if |pkt| >= 8 {
      assert pkt[0] < 0x20 ==> pkt[0] / 0x20 == 0;
    }
  }

  /** What the parser makes of any octets at all. */
  lemma ParseExactly(pkt: seq<byte>)
    ensures
      if |pkt| < 8 || pkt[0] < 0x20 || pkt[0] >= 0x40 || pkt[1] != 0xff then ParseGtpu(pkt) == NotTpdu
      else
        var parsed, payload := ParseGtpu(pkt), Counted(pkt);
        && (parsed.NotTpdu? <==> pkt[0] % 8 != 0 && |payload| < 4)
        && (parsed.Tpdu? ==> IsWord32(pkt, 4, parsed.teid))
        && (pkt[0] % 8 == 0 ==> parsed.inner == payload)
        && (pkt[0] % 8 != 0 && |payload| >= 4 ==>
              var pos := Skip(payload, 4, payload[3], 8);
              4 <= pos <= |payload| && parsed.inner == payload[pos..])
  {
    if |pkt| < 8 || pkt[0] < 0x20 || pkt[0] >= 0x40 || pkt[1] != 0xff {
      NoTpduByHeader(pkt);
    } else {
      ParseIsOfPayload(pkt);
      Word32IsWord(pkt);
      ParsePayloadExactly(pkt[0], Word32(pkt[4..8]), Counted(pkt));
    }
  }

  function Fixed(flags: byte, length: uint16, teid: uint32): (s: seq<byte>)
    ensures |s| == 8
  {
    [flags, 0xff] + BigEndian16(length) + BigEndian32(teid)
  }

  function ParsePayload(flags: byte, teid: uint32, payload: seq<byte>): Parsed {
    if flags % 8 == 0 then Tpdu(teid, payload)
    else if |payload| < 4 then NotTpdu
    else
      var pos := Skip(payload, 4, payload[3], 8);
      Tpdu(teid, if pos <= |payload| then payload[pos..] else [])
  }

  /** The datagram starts with a T-PDU of these parts. */
  ghost predicate Carries(pkt: seq<byte>, flags: byte, teid: uint32, payload: seq<byte>) {
    && flags / 0x20 == 1 && |payload| <= 0xffff
    && 8 + |payload| <= |pkt|
    && pkt[0] == flags && pkt[1] == 0xff
    && pkt[2..4] == BigEndian16(|payload|)
    && pkt[4..8] == BigEndian32(teid)
    && pkt[8..8 + |payload|] == payload
  }

  lemma FixedCarries(pkt: seq<byte>, flags: byte, length: uint16, teid: uint32, payload: seq<byte>, trailing: seq<byte>)
    requires flags / 0x20 == 1 && |payload| == length
    requires pkt == Fixed(flags, length, teid) + payload + trailing
    ensures Carries(pkt, flags, teid, payload)
  {
  }

  lemma ParseCarried(pkt: seq<byte>, flags: byte, teid: uint32, payload: seq<byte>)
    requires Carries(pkt, flags, teid, payload)
    ensures ParseGtpu(pkt) == ParsePayload(flags, teid, payload)
  {
    WordOfBigEndian(|payload|);
    Word32OfBigEndian(teid);
    assert Word16(pkt[2], pkt[3]) == Word16(pkt[2..4][0], pkt[2..4][1]) == |payload|;
  }

  lemma ParseChain(flags: byte, teid: uint32, payload: seq<byte>, hs: seq<ExtHeader>)
    requires flags % 8 != 0 && |hs| <= 8 && ValidChain(hs)
    requires |payload| >= 4 + |ChainOctets(hs)| && payload[3] == FirstKind(hs) && ChainAt(payload, 4, hs)
    ensures ParsePayload(flags, teid, payload) == Tpdu(teid, payload[4 + |ChainOctets(hs)|..])
  {
    ChainLengthExact(hs, 8);
    assert Skip(payload, 4, payload[3], 8) == 4 + |ChainOctets(hs)| by {
      SkipWalksChain(payload, 4, hs, 8);
    }
  }

  function Optional(sn: uint16, npdu: byte, kind: byte): (s: seq<byte>)
    ensures |s| == 4 && s[3] == kind
  {
    BigEndian16(sn) + [npdu, kind]
  }

  /** With optional fields, any chain of at most 8 headers and any trailing
      octets, the parser returns the TEID and exactly the inner packet. */
  lemma ParseWithOptionalFields(pkt: seq<byte>, flags: byte, length: uint16, teid: uint32, payload: seq<byte>,
                                trailing: seq<byte>,
                                sn: uint16, npdu: byte, hs: seq<ExtHeader>, inner: seq<byte>)
    requires flags / 0x20 == 1 && flags % 8 != 0
    requires ValidChain(hs) && |hs| <= 8
    requires length == |payload|
    requires pkt == Fixed(flags, length, teid) + payload + trailing
    requires payload == Optional(sn, npdu, FirstKind(hs)) + ChainOctets(hs) + inner
    ensures ParseGtpu(pkt) == Tpdu(teid, inner)
  {
    assert ParseGtpu(pkt) == ParsePayload(flags, teid, payload) by {
      FixedCarries(pkt, flags, length, teid, payload, trailing);
      ParseCarried(pkt, flags, teid, payload);
    }
    assert ChainAt(payload, 4, hs) by {
      ChainIsAt(payload, Optional(sn, npdu, FirstKind(hs)), hs, inner);
    }
    ParseChain(flags, teid, payload, hs);
    InnerIsLast(Optional(sn, npdu, FirstKind(hs)), ChainOctets(hs), inner);
  }

  lemma InnerIsLast(a: seq<byte>, b: seq<byte>, c: seq<byte>)
    ensures (a + b + c)[|a| + |b|..] == c
  {
  }

  // ---------- Building ----------

  datatype Mode = Minimal | Ueransim | OtherMode

  /** build_gtpu; None is the exception of struct.pack or the ValueError. */
  function BuildGtpu(teid: int, inner: seq<byte>, mode: Mode, qfi: int, seqNo: int): Option<seq<byte>> {
    if !(0 <= teid < 0x1_0000_0000) then None
    else
      match mode
      case Minimal =>
        if |inner| > 0xffff then None else Some(Fixed(0x30, |inner|, teid) + inner)
      case Ueransim =>
        var payload := UeransimPayload(inner, qfi, seqNo);
        if |payload| > 0xffff then None else Some(Fixed(0x34, |payload|, teid) + payload)
      case OtherMode => None
  }

  function UeransimPayload(inner: seq<byte>, qfi: int, seqNo: int): seq<byte> {
    Optional(seqNo % 0x1_0000, 0, 0x85) + [1, 0, qfi % 0x40, 0] + inner
  }

  /** When an inner packet fits the 16-bit length field. */
  predicate Fits(inner: seq<byte>, mode: Mode) {
    match mode
    case Minimal => |inner| <= 0xffff
    case Ueransim => |inner| + 8 <= 0xffff
    case OtherMode => false
  }

  lemma BuildSucceedsExactly(teid: int, inner: seq<byte>, mode: Mode, qfi: int, seqNo: int)
    ensures BuildGtpu(teid, inner, mode, qfi, seqNo).Some? <==> 0 <= teid < 0x1_0000_0000 && Fits(inner, mode)
  {
  }

  /** The datagram octet by octet: flags 0x30 and no optional fields, or 0x34 with
      the sequence number, no N-PDU number, and one extension header 0x85 of one
      word that carries the QFI; then the inner packet. */
  ghost predicate BuiltAs(pkt: seq<byte>, teid: int, inner: seq<byte>, mode: Mode, qfi: int, seqNo: int) {
    match mode
    case Minimal =>
      && |pkt| == 8 + |inner|
      && pkt[0] == 0x30 && pkt[1] == 0xff && IsWord(pkt, 2, |inner|) && IsWord32(pkt, 4, teid)
      && pkt[8..] == inner
    case Ueransim =>
      && |pkt| == 16 + |inner|
      && pkt[0] == 0x34 && pkt[1] == 0xff && IsWord(pkt, 2, 8 + |inner|) && IsWord32(pkt, 4, teid)
      && IsWord(pkt, 8, seqNo % 0x1_0000) && pkt[10] == 0 && pkt[11] == 0x85
      && pkt[12] == 1 && pkt[13] == 0 && pkt[14] == qfi % 0x40 && pkt[15] == 0
      && pkt[16..] == inner
    case OtherMode => false
  }

  lemma FixedOctets(pkt: seq<byte>, flags: byte, length: uint16, teid: uint32, payload: seq<byte>)
    requires pkt == Fixed(flags, length, teid) + payload
    ensures |pkt| == 8 + |payload| && pkt[8..] == payload
    ensures pkt[0] == flags && pkt[1] == 0xff && IsWord(pkt, 2, length) && IsWord32(pkt, 4, teid)
  {
    BigEndianIsWord(length);
    BigEndianIsWord32(teid);
    var f := Fixed(flags, length, teid);
    assert f[2] == BigEndian16(length)[0] && f[3] == BigEndian16(length)[1];
    assert f[4] == BigEndian32(teid)[0] && f[5] == BigEndian32(teid)[1];
    assert f[6] == BigEndian32(teid)[2] && f[7] == BigEndian32(teid)[3];
    assert forall i | 0 <= i < 8 :: pkt[i] == f[i];
  }

  lemma BuiltOctets(teid: int, inner: seq<byte>, mode: Mode, qfi: int, seqNo: int)
    ensures
      var pkt := BuildGtpu(teid, inner, mode, qfi, seqNo);
      pkt.Some? ==> BuiltAs(pkt.value, teid, inner, mode, qfi, seqNo)
  {
    var built := BuildGtpu(teid, inner, mode, qfi, seqNo);
    if built.Some? {
      match mode {
        case Minimal => FixedOctets(built.value, 0x30, |inner|, teid, inner);
        case Ueransim =>
          var payload := UeransimPayload(inner, qfi, seqNo);
          FixedOctets(built.value, 0x34, |payload|, teid, payload);
          PayloadOctets(payload, inner, qfi, seqNo);
          PayloadBehind(built.value, payload, inner, seqNo);
      }
    }
  }

  lemma PayloadOctets(payload: seq<byte>, inner: seq<byte>, qfi: int, seqNo: int)
    requires payload == UeransimPayload(inner, qfi, seqNo)
    ensures |payload| == 8 + |inner| && payload[8..] == inner
    ensures IsWord(payload, 0, seqNo % 0x1_0000) && payload[2] == 0 && payload[3] == 0x85
    ensures payload[4] == 1 && payload[5] == 0 && payload[6] == qfi % 0x40 && payload[7] == 0
  {
    BigEndianIsWord(seqNo % 0x1_0000);
    var sn := BigEndian16(seqNo % 0x1_0000);
    assert payload == [sn[0], sn[1], 0, 0x85, 1, 0, qfi % 0x40, 0] + inner;
  }

  lemma PayloadBehind(pkt: seq<byte>, payload: seq<byte>, inner: seq<byte>, seqNo: int)
    requires |pkt| == 8 + |payload| && pkt[8..] == payload && |payload| >= 8 && payload[8..] == inner
    requires IsWord(payload, 0, seqNo % 0x1_0000)
    ensures pkt[16..] == inner && IsWord(pkt, 8, seqNo % 0x1_0000)
    ensures forall i | 0 <= i < 8 :: pkt[8 + i] == payload[i]
    ensures pkt[10] == payload[2] && pkt[11] == payload[3] && pkt[12] == payload[4] && pkt[13] == payload[5]
    ensures pkt[14] == payload[6] && pkt[15] == payload[7]
  {
    assert forall i | 0 <= i < 8 :: pkt[8 + i] == pkt[8..][i];
    assert pkt[8] == payload[0] && pkt[9] == payload[1];
    assert pkt[10] == pkt[8..][2] && pkt[11] == pkt[8..][3] && pkt[12] == pkt[8..][4] && pkt[13] == pkt[8..][5];
    assert pkt[14] == pkt[8..][6] && pkt[15] == pkt[8..][7];
    assert pkt[8..][8..] == pkt[16..];
  }

  /** The container header 0x85 that the ueransim mode adds. */
  function QfiHeader(qfi: int): ExtHeader {
    ExtHeader(0x85, [0, qfi % 0x40])
  }

  /** Parsing what was built gives back the TEID and the inner packet, even
      with octets appended to the datagram. */
  lemma ParseBuilt(teid: int, inner: seq<byte>, mode: Mode, qfi: int, seqNo: int, trailing: seq<byte>)
    requires BuildGtpu(teid, inner, mode, qfi, seqNo).Some?
    ensures ParseGtpu(BuildGtpu(teid, inner, mode, qfi, seqNo).value + trailing) == Tpdu(teid, inner)
  {
    var pkt := BuildGtpu(teid, inner, mode, qfi, seqNo).value + trailing;
    match mode {
      case Minimal =>
        FixedCarries(pkt, 0x30, |inner|, teid, inner, trailing);
        ParseCarried(pkt, 0x30, teid, inner);
      case Ueransim =>
        UeransimChain(qfi, seqNo, inner);
        var payload := UeransimPayload(inner, qfi, seqNo);
        ParseWithOptionalFields(pkt, 0x34, |payload|, teid, payload, trailing,
                                seqNo % 0x1_0000, 0, [QfiHeader(qfi)], inner);
    }
  }

  lemma UeransimChain(qfi: int, seqNo: int, inner: seq<byte>)
    ensures ValidChain([QfiHeader(qfi)]) && FirstKind([QfiHeader(qfi)]) == 0x85
    ensures |ChainOctets([QfiHeader(qfi)])| == 4
    ensures UeransimPayload(inner, qfi, seqNo)
            == Optional(seqNo % 0x1_0000, 0, FirstKind([QfiHeader(qfi)])) + ChainOctets([QfiHeader(qfi)]) + inner
  {
    var hs := [QfiHeader(qfi)];
    assert hs[1..] == [];
    assert ChainOctets(hs) == [1, 0, qfi % 0x40, 0];
  }

  /** BuildGTPv1Header of gtp.go. The caller supplies the length. */
  method BuildGTPv1Header(snFlag: bool, sn: uint16, nPduFlag: bool, nPduNum: byte, extHdrFlag: bool, nExtHdrType: byte,
                          payloadLen: uint16, teID: uint32) returns (bb: seq<byte>)
    ensures bb == GTPv1Header(snFlag, sn, nPduFlag, nPduNum, extHdrFlag, nExtHdrType, payloadLen, teID)
    ensures HeaderAs(bb, snFlag, sn, nPduFlag, nPduNum, extHdrFlag, nExtHdrType, payloadLen, teID)
  {
    GTPv1HeaderOctets(snFlag, sn, nPduFlag, nPduNum, extHdrFlag, nExtHdrType, payloadLen, teID);
    var flags: byte := 0x30;
    if extHdrFlag {
      flags := flags + 4;
    }
    if snFlag {
      flags := flags + 2;
    }
    if nPduFlag {
      flags := flags + 1;
    }
    bb := [flags, 0xff] + BigEndian16(payloadLen) + BigEndian32(teID);
    if snFlag || nPduFlag || extHdrFlag {
      bb := bb + (BigEndian16(sn) + [nPduNum, nExtHdrType]);
    }
  }

  function Flags(snFlag: bool, nPduFlag: bool, extHdrFlag: bool): byte {
    0x30 + (if extHdrFlag then 4 else 0) + (if snFlag then 2 else 0) + (if nPduFlag then 1 else 0)
  }

  function GTPv1Header(snFlag: bool, sn: uint16, nPduFlag: bool, nPduNum: byte, extHdrFlag: bool, nExtHdrType: byte,
                       payloadLen: uint16, teID: uint32): seq<byte>
  {
    Fixed(Flags(snFlag, nPduFlag, extHdrFlag), payloadLen, teID)
    + if snFlag || nPduFlag || extHdrFlag then Optional(sn, nPduNum, nExtHdrType) else []
  }

  /** The header octet by octet: version 1 and protocol type 1, then a zero and
      the extension, sequence number and N-PDU flags; the optional fields stand
      exactly when one of the flags does. */
  ghost predicate HeaderAs(bb: seq<byte>, snFlag: bool, sn: uint16, nPduFlag: bool, nPduNum: byte, extHdrFlag: bool,
                           nExtHdrType: byte, payloadLen: uint16, teID: uint32)
  {
    && |bb| == (if snFlag || nPduFlag || extHdrFlag then 12 else 8)
    && bb[0] / 0x10 == 3 && bb[0] / 8 % 2 == 0
    && (bb[0] / 4 % 2 == 1 <==> extHdrFlag) && (bb[0] / 2 % 2 == 1 <==> snFlag) && (bb[0] % 2 == 1 <==> nPduFlag)
    && bb[1] == 0xff && IsWord(bb, 2, payloadLen) && IsWord32(bb, 4, teID)
    && (|bb| == 12 ==> IsWord(bb, 8, sn) && bb[10] == nPduNum && bb[11] == nExtHdrType)
  }

  lemma GTPv1HeaderOctets(snFlag: bool, sn: uint16, nPduFlag: bool, nPduNum: byte, extHdrFlag: bool,
                          nExtHdrType: byte, payloadLen: uint16, teID: uint32)
    ensures HeaderAs(GTPv1Header(snFlag, sn, nPduFlag, nPduNum, extHdrFlag, nExtHdrType, payloadLen, teID),
                     snFlag, sn, nPduFlag, nPduNum, extHdrFlag, nExtHdrType, payloadLen, teID)
  {
    var flags := Flags(snFlag, nPduFlag, extHdrFlag);
    var bb := GTPv1Header(snFlag, sn, nPduFlag, nPduNum, extHdrFlag, nExtHdrType, payloadLen, teID);
    FlagBits(snFlag, nPduFlag, extHdrFlag);
    if snFlag || nPduFlag || extHdrFlag {
      FixedOctets(bb, flags, payloadLen, teID, Optional(sn, nPduNum, nExtHdrType));
      BigEndianIsWord(sn);
      var o := bb[8..];
      assert o[0] == bb[8] && o[1] == bb[9] && o[2] == bb[10] && o[3] == bb[11];
    } else {
      FixedOctets(bb, flags, payloadLen, teID, []);
    }
  }

  lemma FlagBits(snFlag: bool, nPduFlag: bool, extHdrFlag: bool)
    ensures
      var flags := Flags(snFlag, nPduFlag, extHdrFlag);
      && flags / 0x10 == 3 && flags / 8 % 2 == 0
      && (flags / 4 % 2 == 1 <==> extHdrFlag) && (flags / 2 % 2 == 1 <==> snFlag) && (flags % 2 == 1 <==> nPduFlag)
  {
  }

  /** The Python parser reads what the Go code builds: for every combination
      of flags, when the length counts the optional fields, the chain and the
      inner packet, and the next type names the first header of the chain
      (0 for none). */
  lemma ParseGTPv1Header(snFlag: bool, sn: uint16, nPduFlag: bool, nPduNum: byte, extHdrFlag: bool, length: uint16,
                         hs: seq<ExtHeader>, teID: uint32, inner: seq<byte>, trailing: seq<byte>)
    requires ValidChain(hs) && |hs| <= 8
    requires hs != [] ==> snFlag || nPduFlag || extHdrFlag
    requires length == (if snFlag || nPduFlag || extHdrFlag then 4 else 0) + |ChainOctets(hs)| + |inner|
    ensures ParseGtpu(GTPv1Header(snFlag, sn, nPduFlag, nPduNum, extHdrFlag, FirstKind(hs), length, teID)
                      + ChainOctets(hs) + inner + trailing)
            == Tpdu(teID, inner)
  {
    var header := GTPv1Header(snFlag, sn, nPduFlag, nPduNum, extHdrFlag, FirstKind(hs), length, teID);
    var pkt := header + ChainOctets(hs) + inner + trailing;
    var flags := Flags(snFlag, nPduFlag, extHdrFlag);
    FlagsShape(snFlag, nPduFlag, extHdrFlag);
    if snFlag || nPduFlag || extHdrFlag {
      var payload := Optional(sn, nPduNum, FirstKind(hs)) + ChainOctets(hs) + inner;
      Regroup5(Fixed(flags, length, teID), Optional(sn, nPduNum, FirstKind(hs)), ChainOctets(hs), inner, trailing);
      ParseWithOptionalFields(pkt, flags, length, teID, payload, trailing, sn, nPduNum, hs, inner);
    } else {
      DropEmpty(Fixed(flags, length, teID), ChainOctets(hs), inner, trailing);
      FixedCarries(pkt, flags, length, teID, inner, trailing);
      ParseCarried(pkt, flags, teID, inner);
    }
  }

  lemma FlagsShape(snFlag: bool, nPduFlag: bool, extHdrFlag: bool)
    ensures Flags(snFlag, nPduFlag, extHdrFlag) / 0x20 == 1
    ensures Flags(snFlag, nPduFlag, extHdrFlag) % 8 == 0 <==> !(snFlag || nPduFlag || extHdrFlag)
  {
  }

  lemma DropEmpty(a: seq<byte>, b: seq<byte>, c: seq<byte>, d: seq<byte>)
    requires b == []
    ensures (a + []) + b + c + d == a + c + d
  {
    assert a + [] == a && a + b == a;
  }

  lemma Regroup5(a: seq<byte>, b: seq<byte>, c: seq<byte>, d: seq<byte>, e: seq<byte>)
    ensures a + (b + c + d) + e == (a + b) + c + d + e
  {
  }

  /** _looks_like_ip */
  predicate LooksLikeIp(inner: seq<byte>) {
    |inner| >= 1 && inner[0] / 0x10 == 4
  }
}
