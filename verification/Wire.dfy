/**
  * `src/protocol/frame.rs`, and the length-encoded integers and strings of `src/protocol/handshake.rs` and
  * `src/client.rs`.
  */
module Wire {
  import opened Prelude
  import opened Bincode

  // ---- Packets ------------------------------------------------------------------------------

  datatype Packet = Packet(seqId: byte, payload: Bytes)

  const FRAME: nat := 0x100_0000

  /** Three bytes of length, the sequence number, the payload. */
  function Framed(seqId: byte, payload: Bytes): Bytes {
    Little(|payload| % FRAME, 3) + ([seqId] + payload)
  }

  /** One packet off the front; `None` when the stream ends inside it. */
  function DecPacket(b: Bytes): (r: Parsed<Packet>)
    ensures r.Some? ==> |r.value.1| < |b|
  {
    if |b| < 4 then None
    else
      var n := FromLittle(b[..3]);
      if |b| < 4 + n then None else Some((Packet(b[3], b[4..4 + n]), b[4 + n..]))
  }

  lemma PacketReads(seqId: byte, payload: Bytes, rest: Bytes)
    requires |payload| < FRAME
    ensures DecPacket(Framed(seqId, payload) + rest) == Some((Packet(seqId, payload), rest))
  {
    assert Pow256(3) == 256 * Pow256(2);
    Widths();
    LittleRoundTrip(|payload|, 3);
    var b := Framed(seqId, payload) + rest;
    assert b[..3] == Little(|payload|, 3);
    assert b[4..4 + |payload|] == payload && b[4 + |payload|..] == rest;
  }

  /** Packets numbered from `first` on, the number wrapping at 256. */
  function Frames(first: nat, payloads: seq<Bytes>): Bytes
    decreases |payloads|
  {
    if payloads == [] then [] else Framed(first % 256, payloads[0]) + Frames(first + 1, payloads[1..])
  }

  lemma FrontOfSum(xs: seq<Bytes>, ys: seq<Bytes>)
    requires xs != []
    ensures (xs + ys)[0] == xs[0] && (xs + ys)[1..] == xs[1..] + ys
  {
  }

  lemma {:induction false} FramesSplit(first: nat, xs: seq<Bytes>, ys: seq<Bytes>)
    ensures Frames(first, xs + ys) == Frames(first, xs) + Frames(first + |xs|, ys)
    decreases |xs|
  {
    if xs == [] {
      assert xs + ys == ys;
    } else {
      FramesSplit(first + 1, xs[1..], ys);
      FrontOfSum(xs, ys);
      Assoc(Framed(first % 256, xs[0]), Frames(first + 1, xs[1..]), Frames(first + |xs|, ys));
    }
  }

  lemma OneMoreFrame(first: nat, xs: seq<Bytes>, y: Bytes)
    ensures Frames(first, xs + [y]) == Frames(first, xs) + Framed((first + |xs|) % 256, y)
  {
    FramesSplit(first, xs, [y]);
    var none: Bytes := [];
    assert Frames(first + |xs|, [y]) == Framed((first + |xs|) % 256, y) + none;
  }

  /** One direction of a connection: what was written and not yet read. */
  class Pipe {
    var bytes: Bytes

    constructor (bytes: Bytes)
      ensures this.bytes == bytes
    {
      this.bytes := bytes;
    }

    method WritePacket(seqId: byte, payload: Bytes)
      modifies this
      ensures bytes == old(bytes) + Framed(seqId, payload)
    {
      var header := Little(|payload| % FRAME, 3) + [seqId];
      Assoc(Little(|payload| % FRAME, 3), [seqId], payload);
      Assoc(bytes, header, payload);
      bytes := bytes + header;
      if payload != [] {
        bytes := bytes + payload;
      }
    }

    method ReadPacket() returns (packet: Option<Packet>)
      modifies this
      ensures match DecPacket(old(bytes))
              case None => packet == None
              case Some((p, rest)) => packet == Some(p) && bytes == rest
    {
      if |bytes| < 4 {
        return None;
      }
      var header := bytes[..4];
      assert header[..3] == bytes[..3];
      var n := FromLittle(header[..3]);
      var left := bytes[4..];
      if n <= |left| {
        assert left[n..] == bytes[4 + n..];
      }
      bytes := left;
      if |left| < n {
        return None;
      }
      assert left[..n] == old(bytes)[4..4 + n];
      packet := Some(Packet(header[3], left[..n]));
      bytes := left[n..];
    }
  }

  // ---- Length-encoded integers and strings ------------------------------------------------------

  function LenInt(v: u64): (b: Bytes)
    ensures b != [] && b[0] != 0xFB && b[0] != 0xFF
  {
    if v < 251 then [v]
    else if v < 0x1_0000 then [0xFC] + Little(v, 2)
    else if v < FRAME then [0xFD] + Little(v, 3)
    else [0xFE] + Little(v, 8)
  }

  /** The client's `parse_lenenc_int`: the value and how many bytes it took; `None` is an index out of range. */
  function ParseInt(b: Bytes): (r: Option<(u64, nat)>)
    ensures r.Some? && b != [] ==> r.value.1 >= 1
  {
    if b == [] then Some((0, 0))
    else if b[0] == 0xFB then Some((0, 1))
    else if b[0] == 0xFC then ParseFixed(b, 2)
    else if b[0] == 0xFD then ParseFixed(b, 3)
    else if b[0] == 0xFE then ParseFixed(b, 8)
    else Some((b[0], 1))
  }

  function ParseFixed(b: Bytes, w: nat): (r: Option<(u64, nat)>)
    requires b != [] && w <= 8
    ensures r.Some? ==> r.value.1 == 1 + w
  {
    if |b| < 1 + w then None
    else
      FixedBound(b[1..1 + w]);
      Some((FromLittle(b[1..1 + w]), 1 + w))
  }

  lemma {:induction false} PowGrows(v: nat, w: nat)
    requires v <= w
    ensures Pow256(v) <= Pow256(w)
  {
    if v < w {
      PowGrows(v, w - 1);
    }
  }

  lemma FixedBound(b: Bytes)
    requires |b| <= 8
    ensures FromLittle(b) < U64
  {
    FromLittleBound(b);
    PowGrows(|b|, 8);
    Widths();
  }

  lemma FixedReads(tag: byte, v: u64, w: nat, rest: Bytes)
    requires w <= 8 && v < Pow256(w)
    ensures ParseFixed(([tag] + Little(v, w)) + rest, w) == Some((v, 1 + w))
  {
    LittleRoundTrip(v, w);
    assert (([tag] + Little(v, w)) + rest)[1..1 + w] == Little(v, w);
  }

  /** Every 64-bit number is read back, over exactly its own bytes. */
  lemma LenIntReads(v: u64, rest: Bytes)
    ensures ParseInt(LenInt(v) + rest) == Some((v, |LenInt(v)|))
  {
    Widths();
    assert Pow256(3) == 256 * Pow256(2);
    if 251 <= v < 0x1_0000 {
      FixedReads(0xFC, v, 2, rest);
    } else if 0x1_0000 <= v < FRAME {
      FixedReads(0xFD, v, 3, rest);
    } else if FRAME <= v {
      FixedReads(0xFE, v, 8, rest);
    }
  }

  function LenStr(s: Bytes): (b: Bytes)
    ensures b != [] && b[0] != 0xFB && b[0] != 0xFF
  {
    LenInt(|s| % U64) + s
  }

  /** The client's `parse_lenenc_str`: the string and how many bytes it took. */
  function ParseStr(b: Bytes): (r: Option<(Bytes, nat)>)
    ensures r.Some? ==> r.value.1 <= |b| && (b != [] ==> r.value.1 >= 1)
  {
    var (len, n) :- ParseInt(b);
    if n + len <= |b| then Some((b[n..n + len], n + len)) else None
  }

  lemma LenStrReads(s: Bytes, rest: Bytes)
    requires |s| < U64
    ensures ParseStr(LenStr(s) + rest) == Some((s, |LenStr(s)|))
    ensures (LenStr(s) + rest)[|LenStr(s)|..] == rest
  {
    var n := |LenInt(|s|)|;
    Assoc(LenInt(|s|), s, rest);
    LenIntReads(|s|, s + rest);
    assert (LenStr(s) + rest)[n..n + |s|] == s;
  }
}
