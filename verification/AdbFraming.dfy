/**
 * ADB packets on the wire: a 24-byte little-endian header, then the payload.
 *
 * `Decode` takes as many whole packets as the bytes hold. Cutting the bytes differently never changes what is decoded.
 */
module AdbFraming {
  const U32: nat := 0x1_0000_0000

  type Byte = b: int | 0 <= b < 256

  /** An unsigned 32-bit integer, as the header's fields are. */
  type Word = n: nat | n < U32
  const HEADER_SIZE: nat := 24

  /** Its length is a header field, so it has to fit one. */
  type Payload = bytes: seq<Byte> | |bytes| < U32

  datatype Packet = Packet(command: Word, arg0: Word, arg1: Word, payload: Payload)

  /** `setUint32(…, n, true)`: four bytes, the least significant first; what does not fit is dropped. */
  function ToU32(n: nat): (bytes: seq<Byte>)
    ensures |bytes| == 4
  {
    [n % 256, n / 256 % 256, n / 65536 % 256, n / 16777216 % 256]
  }

  /** `getUint32(at, true)`. */
  function U32At(bytes: seq<Byte>, at: nat): Word
    requires at + 4 <= |bytes|
  {
    (bytes[at] as int) + 256 * (bytes[at + 1] as int) + 65536 * (bytes[at + 2] as int) + 16777216 * (bytes[at + 3] as int)
  }

  lemma U32RoundTrip(n: nat)
    ensures U32At(ToU32(n), 0) == n % U32
  {
    var a := n / 256;
    var b := n / 65536;
    var c := n / 16777216;
    assert b == a / 256 && c == b / 256;
    assert n == 256 * a + n % 256 && a == 256 * b + a % 256 && b == 256 * c + b % 256;
    assert c == 256 * (c / 256) + c % 256;
    assert n == U32 * (c / 256) + U32At(ToU32(n), 0);
    Remainder(n, c / 256, U32At(ToU32(n), 0));
  }

  lemma Remainder(n: nat, q: nat, r: nat)
    requires n == U32 * q + r && r < U32
    ensures n % U32 == r
  {
  }

  function Checksum(payload: seq<Byte>): nat {
    if payload == [] then 0 else payload[0] + Checksum(payload[1..])
  }

  function Header(p: Packet): (bytes: seq<Byte>)
    ensures |bytes| == HEADER_SIZE
  {
    ToU32(p.command) + ToU32(p.arg0) + ToU32(p.arg1) + ToU32(|p.payload|) + ToU32(Checksum(p.payload))
    + ToU32(U32 - 1 - p.command)
  }

  function Encode(p: Packet): seq<Byte> {
    Header(p) + p.payload
  }

  function EncodeAll(packets: seq<Packet>): seq<Byte> {
    if packets == [] then [] else Encode(packets[0]) + EncodeAll(packets[1..])
  }

  /** The size of the packet the bytes begin with. */
  function PacketSize(bytes: seq<Byte>): nat
    requires |bytes| >= HEADER_SIZE
  {
    HEADER_SIZE + U32At(bytes, 12)
  }

  predicate HoldsPacket(bytes: seq<Byte>) {
    |bytes| >= HEADER_SIZE && |bytes| >= PacketSize(bytes)
  }

  function FirstPacket(bytes: seq<Byte>): Packet
    requires HoldsPacket(bytes)
  {
    Packet(U32At(bytes, 0), U32At(bytes, 4), U32At(bytes, 8), bytes[HEADER_SIZE..PacketSize(bytes)])
  }

  /** The whole packets at the head of the bytes, and what is left. */
  function Decode(bytes: seq<Byte>): (r: (seq<Packet>, seq<Byte>))
    ensures !HoldsPacket(r.1)
    decreases |bytes|
  {
    if !HoldsPacket(bytes) then ([], bytes)
    else
      var rest := Decode(bytes[PacketSize(bytes)..]);
      ([FirstPacket(bytes)] + rest.0, rest.1)
  }

  // ----- encoding and decoding -----

  lemma FieldReads(bytes: seq<Byte>, at: nat, n: nat)
    requires at + 4 <= |bytes| && bytes[at..at + 4] == ToU32(n)
    ensures U32At(bytes, at) == n % U32
  {
    U32RoundTrip(n);
    var field := bytes[at..at + 4];
    assert bytes[at] == field[0] && bytes[at + 1] == field[1] && bytes[at + 2] == field[2] && bytes[at + 3] == field[3];
  }

  lemma HeaderFields(p: Packet)
    ensures Header(p)[0..4] == ToU32(p.command) && Header(p)[4..8] == ToU32(p.arg0) && Header(p)[8..12] == ToU32(p.arg1)
    ensures Header(p)[12..16] == ToU32(|p.payload|)
    ensures Header(p)[16..20] == ToU32(Checksum(p.payload)) && Header(p)[20..24] == ToU32(U32 - 1 - p.command)
  {
  }

  lemma EncodedField(p: Packet, rest: seq<Byte>, at: nat, n: nat)
    requires at + 4 <= HEADER_SIZE && Header(p)[at..at + 4] == ToU32(n)
    ensures U32At(Encode(p) + rest, at) == n % U32
  {
    var bytes := Encode(p) + rest;
    assert bytes[at..at + 4] == Header(p)[at..at + 4];
    FieldReads(bytes, at, n);
  }

  lemma EncodedWord(p: Packet, rest: seq<Byte>, at: nat, n: Word)
    requires at + 4 <= HEADER_SIZE && Header(p)[at..at + 4] == ToU32(n)
    ensures U32At(Encode(p) + rest, at) == n
  {
    EncodedField(p, rest, at, n);
    Remainder(n, 0, n);
  }

  /** The header says what it was given: the command, both sockets and the length. */
  lemma HeaderReads(p: Packet, rest: seq<Byte>)
    ensures var bytes := Encode(p) + rest;
            U32At(bytes, 0) == p.command && U32At(bytes, 4) == p.arg0 && U32At(bytes, 8) == p.arg1 && U32At(bytes, 12) == |p.payload|
  {
    HeaderFields(p);
    EncodedWord(p, rest, 0, p.command);
    EncodedWord(p, rest, 4, p.arg0);
    EncodedWord(p, rest, 8, p.arg1);
    EncodedWord(p, rest, 12, |p.payload|);
  }

  /** What a receiver may check it by: the sum of the payload's bytes modulo 2^32, and the command with every bit inverted. */
  lemma HeaderChecks(p: Packet, rest: seq<Byte>)
    ensures U32At(Encode(p) + rest, 16) == Checksum(p.payload) % U32
    ensures U32At(Encode(p) + rest, 20) + p.command == U32 - 1
  {
    HeaderFields(p);
    EncodedField(p, rest, 16, Checksum(p.payload));
    EncodedWord(p, rest, 20, U32 - 1 - p.command);
  }

  /** The checksum is the sum of the bytes: a byte counts for itself, and text put end to end adds up. */
  lemma {:induction false} ChecksumAdds(a: seq<Byte>, b: seq<Byte>, byte: Byte)
    ensures Checksum([]) == 0 && Checksum([byte]) == byte
    ensures Checksum(a + b) == Checksum(a) + Checksum(b)
  {
    if a == [] {
      assert a + b == b;
    } else {
      ChecksumAdds(a[1..], b, byte);
      assert (a + b)[1..] == a[1..] + b;
    }
  }

  /** A packet followed by anything decodes to itself, then the rest. */
  lemma DecodeOne(p: Packet, rest: seq<Byte>)
    ensures var bytes := Encode(p) + rest;
            && HoldsPacket(bytes) && PacketSize(bytes) == |Encode(p)|
            && FirstPacket(bytes) == p && bytes[PacketSize(bytes)..] == rest
  {
    HeaderReads(p, rest);
  }

  lemma DecodeHead(p: Packet, rest: seq<Byte>)
    ensures Decode(Encode(p) + rest) == ([p] + Decode(rest).0, Decode(rest).1)
  {
    DecodeOne(p, rest);
  }

  lemma {:induction false} DecodeAll(packets: seq<Packet>)
    ensures Decode(EncodeAll(packets)) == (packets, [])
  {
    if packets != [] {
      DecodeHead(packets[0], EncodeAll(packets[1..]));
      DecodeAll(packets[1..]);
      assert packets == [packets[0]] + packets[1..];
    }
  }

  // ----- chunking -----

  /** Bytes that follow do not change the packet at the head. */
  lemma FirstPacketStays(a: seq<Byte>, b: seq<Byte>)
    requires HoldsPacket(a)
    ensures HoldsPacket(a + b) && PacketSize(a + b) == PacketSize(a) && FirstPacket(a + b) == FirstPacket(a)
    ensures (a + b)[PacketSize(a)..] == a[PacketSize(a)..] + b
  {
    assert (a + b)[HEADER_SIZE..PacketSize(a)] == a[HEADER_SIZE..PacketSize(a)];
  }

  /** Decoding in two goes: the packets of the first, then those its residue makes with the rest. */
  lemma {:induction false} DecodeConcat(a: seq<Byte>, b: seq<Byte>)
    ensures Decode(a + b) == (Decode(a).0 + Decode(Decode(a).1 + b).0, Decode(Decode(a).1 + b).1)
    decreases |a|
  {
    if HoldsPacket(a) {
      var tail := a[PacketSize(a)..];
      FirstPacketStays(a, b);
      DecodeConcat(tail, b);
      var after := Decode(Decode(tail).1 + b);
      assert [FirstPacket(a)] + (Decode(tail).0 + after.0) == ([FirstPacket(a)] + Decode(tail).0) + after.0;
    } else {
      assert [] + Decode(a + b).0 == Decode(a + b).0;
    }
  }

  function Flatten(chunks: seq<seq<Byte>>): seq<Byte> {
    if chunks == [] then [] else Flatten(chunks[..|chunks| - 1]) + chunks[|chunks| - 1]
  }

  /** What a receiver has taken out and still holds after these chunks. */
  function Fed(chunks: seq<seq<Byte>>): (seq<Packet>, seq<Byte>) {
    if chunks == [] then ([], [])
    else
      var before := Fed(chunks[..|chunks| - 1]);
      var now := Decode(before.1 + chunks[|chunks| - 1]);
      (before.0 + now.0, now.1)
  }

  /** Chunk by chunk is the same as all at once. */
  lemma {:induction false} ChunkingIsInvisible(chunks: seq<seq<Byte>>)
    ensures Fed(chunks) == Decode(Flatten(chunks))
  {
    if chunks != [] {
      ChunkingIsInvisible(chunks[..|chunks| - 1]);
      DecodeConcat(Flatten(chunks[..|chunks| - 1]), chunks[|chunks| - 1]);
    }
  }

  /** However the bytes of some packets are cut, exactly those packets come out, in order, with nothing left; and at no
      point does the receiver hold a whole packet. */
  lemma ReassemblyIsExact(packets: seq<Packet>, chunks: seq<seq<Byte>>)
    requires Flatten(chunks) == EncodeAll(packets)
    ensures Fed(chunks) == (packets, [])
    ensures forall k | 0 <= k <= |chunks| :: !HoldsPacket(Fed(chunks[..k]).1) && Fed(chunks[..k]).0 <= packets
  {
    ChunkingIsInvisible(chunks);
    DecodeAll(packets);
    forall k | 0 <= k <= |chunks| ensures !HoldsPacket(Fed(chunks[..k]).1) && Fed(chunks[..k]).0 <= Fed(chunks).0 {
      FedGrows(chunks, k);
    }
  }

  lemma {:induction false} FedGrows(chunks: seq<seq<Byte>>, k: nat)
    requires k <= |chunks|
    ensures !HoldsPacket(Fed(chunks[..k]).1) && Fed(chunks[..k]).0 <= Fed(chunks).0
    decreases |chunks|
  {
    if k == |chunks| {
      assert chunks[..k] == chunks;
    } else {
      FedGrows(chunks[..|chunks| - 1], k);
      assert chunks[..|chunks| - 1][..k] == chunks[..k];
    }
  }
}
