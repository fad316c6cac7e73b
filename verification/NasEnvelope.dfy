/**
 NAS messages over a TCP stream: each is preceded by its length in two octets
 (section 9.4 of 3GPP TS 24.502), as onvm_test/non3gpp_test.go writes and reads
 them.
 */
module NasEnvelope {
  import opened Bytes

  /** The envelope of one message; the length is cut to 16 bits. */
  function Envelope(pdu: seq<byte>): (s: seq<byte>)
    ensures |s| == 2 + |pdu|
  {
    BigEndian16(|pdu| % 0x1_0000) + pdu
  }

  /** The envelope octet by octet. */
  lemma EnvelopeOctets(pdu: seq<byte>)
    ensures IsWord(Envelope(pdu), 0, |pdu| % 0x1_0000) && Envelope(pdu)[2..] == pdu
  {
    BigEndianIsWord(|pdu| % 0x1_0000);
  }

  /** How the test fills the envelope buffer. */
  method WriteEnvelope(pdu: seq<byte>) returns (nasEnv: array<byte>)
    ensures fresh(nasEnv) && nasEnv[..] == Envelope(pdu)
    ensures IsWord(nasEnv[..], 0, |pdu| % 0x1_0000) && nasEnv[2..] == pdu
  {
    EnvelopeOctets(pdu);
    nasEnv := new byte[2 + |pdu|](_ => 0);
    nasEnv[0] := (|pdu| % 0x1_0000) / 0x100;
    nasEnv[1] := |pdu| % 0x1_0000 % 0x100;
    for i := 0 to |pdu|
      invariant nasEnv[..2] == BigEndian16(|pdu| % 0x1_0000)
      invariant nasEnv[2..2 + i] == pdu[..i]
    {
      nasEnv[2 + i] := pdu[i];
    }
    assert nasEnv[..] == nasEnv[..2] + nasEnv[2..2 + |pdu|];
  }

  function Stream(pdus: seq<seq<byte>>): seq<byte> {
    if pdus == [] then [] else Envelope(pdus[0]) + Stream(pdus[1..])
  }

  function Concat(chunks: seq<seq<byte>>): seq<byte> {
    if chunks == [] then [] else chunks[0] + Concat(chunks[1..])
  }

  /** The reading end of a connection: what has arrived, in the pieces in which
      reads will return it. The writer is done. */
  class TcpConn {
    var chunks: seq<seq<byte>>

    constructor (chunks: seq<seq<byte>>)
      ensures this.chunks == chunks
    {
      this.chunks := chunks;
    }

    function Unread(): seq<byte>
      reads this
    {
      Concat(chunks)
    }

    /** One read of at most max octets: they come from one piece. None is the
        end of the stream. */
    method Read(max: nat) returns (r: Option<seq<byte>>)
      modifies this
      ensures r.None? <==> old(chunks) == []
      ensures r.None? ==> chunks == old(chunks)
      ensures r.Some? ==> |r.value| <= max && old(Unread()) == r.value + Unread()
      ensures r.Some? && max > 0 ==> |chunks| < |old(chunks)| || (|chunks| == |old(chunks)| && |r.value| == max)
    {
      if chunks == [] {
        return None;
      }
      var c := chunks[0];
      if |c| <= max {
        chunks := chunks[1..];
        return Some(c);
      }
      assert c == c[..max] + c[max..];
      ghost var rest := Concat(chunks[1..]);
      chunks := [c[max..]] + chunks[1..];
      assert chunks[1..] == old(chunks)[1..];
      assert c + rest == c[..max] + (c[max..] + rest);
      return Some(c[..max]);
    }

    /** io.ReadFull for a buffer of n octets; None when the stream ends first. */
    method ReadFull(n: nat) returns (r: Option<seq<byte>>)
      modifies this
      ensures r.Some? <==> n <= |old(Unread())|
      ensures r.Some? ==> r.value == old(Unread())[..n] && Unread() == old(Unread())[n..]
      ensures r.None? ==> Unread() == []
    {
      var buf: seq<byte> := [];
      while |buf| < n
        invariant |buf| <= n
        invariant buf + Unread() == old(Unread())
        decreases |chunks|, n - |buf|
      {
        ghost var u := Unread();
        var got := Read(n - |buf|);
        if got.None? {
          assert Unread() == [] && buf + [] == buf;
          return None;
        }
        assert buf + u == (buf + got.value) + Unread();
        buf := buf + got.value;
      }
      assert (buf + Unread())[..n] == buf && (buf + Unread())[n..] == Unread();
      return Some(buf);
    }

    /** Length first, then that many octets; None is a failed read. */
    method ReadEnvelope() returns (r: Option<seq<byte>>)
      modifies this
      ensures
        var (msg, rest) := Unwrap(old(Unread()));
        r == msg && (msg.Some? ==> Unread() == rest)
    {
      ghost var u := Unread();
      var lengthBuf := ReadFull(2);
      if lengthBuf.None? {
        return None;
      }
      var nasMsgLen := Word16(lengthBuf.value[0], lengthBuf.value[1]);
      assert nasMsgLen == Word16(u[0], u[1]);
      r := ReadFull(nasMsgLen);
      if r.Some? {
        assert u[2..][..nasMsgLen] == u[2..2 + nasMsgLen] && u[2..][nasMsgLen..] == u[2 + nasMsgLen..];
      }
    }

    /** Reads envelopes until one cannot be read. */
    method ReadAll() returns (msgs: seq<seq<byte>>)
      modifies this
      ensures msgs == UnwrapAll(old(Unread()))
    {
      msgs := [];
      var more := true;
      while more
        invariant more ==> UnwrapAll(old(Unread())) == msgs + UnwrapAll(Unread())
        invariant !more ==> UnwrapAll(old(Unread())) == msgs
        decreases more, |Unread()|
      {
        ghost var u := Unread();
        var r := ReadEnvelope();
        if r.None? {
          assert msgs + [] == msgs;
          more := false;
        } else {
          assert msgs + ([r.value] + UnwrapAll(Unread())) == msgs + [r.value] + UnwrapAll(Unread());
          msgs := msgs + [r.value];
        }
      }
    }
  }

  /** The first message of a stream, and what follows it. */
  function Unwrap(s: seq<byte>): (r: (Option<seq<byte>>, seq<byte>))
    ensures r.0.Some? ==> |r.1| < |s|
  {
    if |s| < 2 || |s| < 2 + Word16(s[0], s[1]) then (None, s)
    else (Some(s[2..2 + Word16(s[0], s[1])]), s[2 + Word16(s[0], s[1])..])
  }

  /** What is read from any octets at all. */
  lemma UnwrapExactly(s: seq<byte>)
    ensures
      var (msg, rest) := Unwrap(s);
      if |s| < 2 then msg == None && rest == s
      else
        var n := 0x100 * (s[0] as int) + s[1];
        if |s| < 2 + n then msg == None && rest == s
        else msg == Some(s[2..2 + n]) && rest == s[2 + n..]
  {
  }

  function UnwrapAll(s: seq<byte>): seq<seq<byte>>
    decreases |s|
  {
    var (msg, rest) := Unwrap(s);
    if msg.None? then [] else [msg.value] + UnwrapAll(rest)
  }

  lemma UnwrapEnvelope(pdu: seq<byte>, rest: seq<byte>)
    requires |pdu| <= 0xffff
    ensures Unwrap(Envelope(pdu) + rest) == (Some(pdu), rest)
  {
    WordOfBigEndian(|pdu|);
    var s := Envelope(pdu) + rest;
    assert s[..2] == BigEndian16(|pdu|);
    assert s[0] == s[..2][0] && s[1] == s[..2][1];
    assert s[2..2 + |pdu|] == pdu && s[2 + |pdu|..] == rest;
  }

  /** A message comes back out of its envelope exactly when it has at most
      65535 octets. */
  lemma EnvelopeExact(pdu: seq<byte>, rest: seq<byte>)
    ensures Unwrap(Envelope(pdu) + rest).0 == Some(pdu) <==> |pdu| <= 0xffff
  {
    if |pdu| <= 0xffff {
      UnwrapEnvelope(pdu, rest);
    } else if Unwrap(Envelope(pdu) + rest).0.Some? {
      assert |Unwrap(Envelope(pdu) + rest).0.value| <= 0xffff;
    }
  }

  lemma {:induction false} UnwrappedFit(s: seq<byte>)
    ensures forall i | 0 <= i < |UnwrapAll(s)| :: |UnwrapAll(s)[i]| <= 0xffff
    decreases |s|
  {
    var (msg, rest) := Unwrap(s);
    if msg.None? {
    } else {
      UnwrappedFit(rest);
    }
  }

  ghost predicate AllFit(pdus: seq<seq<byte>>) {
    forall i | 0 <= i < |pdus| :: |pdus[i]| <= 0xffff
  }

  lemma {:induction false} UnwrapFitting(pdus: seq<seq<byte>>)
    requires AllFit(pdus)
    ensures UnwrapAll(Stream(pdus)) == pdus
  {
    if pdus == [] {
    } else {
      UnwrapEnvelope(pdus[0], Stream(pdus[1..]));
      UnwrapFitting(pdus[1..]);
    }
  }

  /** A stream of envelopes unwraps to the messages it was made of if and only if
      each has at most 65535 octets. */
  lemma UnwrapStream(pdus: seq<seq<byte>>)
    ensures UnwrapAll(Stream(pdus)) == pdus <==> AllFit(pdus)
  {
    UnwrappedFit(Stream(pdus));
    if AllFit(pdus) {
      UnwrapFitting(pdus);
    }
  }

  /** Framing: however the stream of the envelopes is cut into pieces, the
      reader returns exactly the messages that were written if and only if each
      has at most 65535 octets. */
  method ReadBack(pdus: seq<seq<byte>>, conn: TcpConn) returns (msgs: seq<seq<byte>>)
    requires conn.Unread() == Stream(pdus)
    modifies conn
    ensures msgs == pdus <==> AllFit(pdus)
  {
    msgs := conn.ReadAll();
    UnwrapStream(pdus);
  }
}
