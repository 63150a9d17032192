/**
 * The link-layer side of the producer: admission of inbound Ethernet II
 * frames, decoding of their packed 24-bit stereo samples into the two
 * channel stores, and serialisation of the register bank for the outbound frame.
 */
module Link {
  import opened Results
  import opened Bits
  import Registers
  import opened Samples
  import opened Cyclic

  type Byte = b: int | 0 <= b < 256

  /** A 24-bit two's-complement sample value. */
  type Sample24 = x: int | -0x80_0000 <= x < 0x80_0000

  /** EtherType 0x88B5, the first Local Experimental EtherType of IEEE Std 802. */
  const EtherType := 0x88B5
  /** The device's address: the only accepted source, and the destination of register frames. */
  const PeerMac: string := "80:1F:12:CA:83:63"
  /** The all-ones address, used as the source of register frames. */
  const PlaceholderMac: string := "FF:FF:FF:FF:FF:FF"

  /** An Ethernet II frame as the capture layer presents it. */
  datatype Frame = Frame(dst: string, src: string, etherType: int, payload: seq<Byte>)

  /** Decoded samples of one frame, one sequence per channel. */
  datatype Stereo = Stereo(left: seq<Sample>, right: seq<Sample>)

  // ---------------------------------------------------------------- admission

  /** ASCII lower-casing of one character. */
  function LowerChar(c: char): char
  {
    if 'A' <= c <= 'Z' then (c as int - 'A' as int + 'a' as int) as char else c
  }

  /** `str.lower()` restricted to ASCII letters, which is all a MAC string holds. */
  function Lower(s: string): (r: string)
    ensures |r| == |s|
  {
    seq(|s|, i requires 0 <= i < |s| => LowerChar(s[i]))
  }

  /** The inbound filter: the configured EtherType and the peer as source, compared case-insensitively. */
  predicate Admits(f: Frame)
    ensures Admits(f) ==> f.etherType == 0x88B5 && |f.src| == |PeerMac|
  {
    f.etherType == EtherType && Lower(f.src) == Lower(PeerMac)
  }

  /** Lower-casing twice is lower-casing once. */
  lemma LowerIdempotent(s: string)
    ensures Lower(Lower(s)) == Lower(s)
  {
  }

  /**
   * The case of the source address never matters to the filter: a frame is
   * admitted exactly when its lower-cased twin is, and the frame that names
   * the peer in lower case is admitted.
   */
  lemma {:induction false} AdmitsIgnoresCase(f: Frame)
    ensures Admits(f) <==> Admits(f.(src := Lower(f.src)))
    ensures Admits(f) <==> f.etherType == EtherType && Lower(f.src) == "80:1f:12:ca:83:63"
  {
    LowerIdempotent(f.src);
    assert Lower(PeerMac) == "80:1f:12:ca:83:63";
  }

  // ---------------------------------------------------------------- sample decoding

  /**
   * The bytes the decoder cuts into groups: `payload[6 : (len(payload) // 6) * 6]`.
   * The first 6 bytes are a header, and every stereo group is 6 bytes, three
   * for the left sample and three for the right; a trailing partial group is dropped.
   */
  function Body(payload: seq<Byte>): seq<Byte>
  {
    var whole := |payload| / 6 * 6;
    if 6 <= whole then payload[6..whole] else []
  }

  /**
   * The body is the payload after its header, cut to whole groups: a
   * multiple of 6 bytes, fewer than 6 bytes short of the rest of the payload,
   * and empty when the payload does not hold a header and one group.
   */
  lemma BodyShape(payload: seq<Byte>)
    ensures |Body(payload)| % 6 == 0
    ensures |payload| < 12 ==> Body(payload) == []
    ensures 12 <= |payload| ==> Body(payload) == payload[6..6 + |Body(payload)|]
    ensures 12 <= |payload| ==> |payload| - 12 < |Body(payload)| <= |payload| - 6
  {
  }

  /** `(b0 << 16) | (b1 << 8) | b2`: three bytes read as a big-endian unsigned 24-bit number. */
  function Be24(b0: Byte, b1: Byte, b2: Byte): (u: nat)
    ensures u == b0 * 0x1_0000 + b1 * 0x100 + b2
    ensures u < 0x100_0000
  {
    Be24IsSum(b0, b1, b2);
    Or(Or(b0 * 0x1_0000, b1 * 0x100), b2)
  }

  /** The OR of the three shifted bytes adds them, as their bit fields do not overlap. */
  lemma Be24IsSum(b0: Byte, b1: Byte, b2: Byte)
    ensures Or(Or(b0 * 0x1_0000, b1 * 0x100), b2) == b0 * 0x1_0000 + b1 * 0x100 + b2
  {
    Pow2Values();
    var hi: nat := b0 * 0x100;
    assert b0 * 0x1_0000 == hi * Pow2(8) && b1 * 0x100 == b1 * Pow2(8);
    OrShift(hi, b1, 8);
    OrDisjoint(b0, b1, 8);
    assert Or(hi, b1) == hi + b1;
    assert Or(b0 * Pow2(16), b1 * Pow2(8)) == (hi + b1) * Pow2(8);
    OrDisjoint(hi + b1, b2, 8);
  }

  /** `(u ^ (1 << 23)) - (1 << 23)`: two's-complement reading of a 24-bit word. */
  function SignExtend24(u: nat): (s: Sample24)
    requires u < 0x100_0000
    ensures s == if u < 0x80_0000 then u else u - 0x100_0000
    ensures (s - u) % 0x100_0000 == 0
  {
    Pow2Values();
    XorTopBit(u, 23);
    Xor(u, Pow2(23)) - Pow2(23)
  }

  /** The sample stored big-endian in `bytes[at..at+3]`. */
  function SampleAt(bytes: seq<Byte>, at: nat): Sample24
    requires at + 3 <= |bytes|
  {
    SignExtend24(Be24(bytes[at], bytes[at + 1], bytes[at + 2]))
  }

  /** `handle_packet`'s decoding: per group, the left sample from bytes 0-2 and the right from bytes 3-5. */
  function Decode(payload: seq<Byte>): Stereo
  {
    var body := Body(payload);
    var n := |body| / 6;
    Stereo(seq(n, g requires 0 <= g < n => SampleAt(body, 6 * g)),
           seq(n, g requires 0 <= g < n => SampleAt(body, 6 * g + 3)))
  }

  /** Number of stereo pairs in a payload of `len` bytes: `max(0, len // 6 - 1)`. */
  function PairCount(len: nat): nat
  {
    if len / 6 >= 1 then len / 6 - 1 else 0
  }

  /** A sample read from a slice of the payload is the one at the shifted offset of the payload. */
  lemma SampleInSlice(p: seq<Byte>, lo: nat, hi: nat, j: nat)
    requires lo <= hi <= |p| && j + 3 <= hi - lo
    ensures SampleAt(p[lo..hi], j) == SampleAt(p, lo + j)
  {
    var q := p[lo..hi];
    assert q[j] == p[lo + j] && q[j + 1] == p[lo + j + 1] && q[j + 2] == p[lo + j + 2];
  }

  /**
   * Where the decoded samples come from: a payload of `L` bytes yields
   * `max(0, L // 6 - 1)` pairs, the same number per channel, and pair `g`
   * reads the left sample at offset `6 + 6g` and the right at `9 + 6g`, so
   * the header and any trailing partial group are ignored.
   */
  lemma {:induction false} DecodeLayout(payload: seq<Byte>)
    ensures |Decode(payload).left| == |Decode(payload).right| == PairCount(|payload|)
    ensures forall g :: 0 <= g < PairCount(|payload|) ==>
              Decode(payload).left[g] == SampleAt(payload, 6 + 6 * g) &&
              Decode(payload).right[g] == SampleAt(payload, 6 + 6 * g + 3)
  {
    DecodeCount(payload);
    forall g | 0 <= g < PairCount(|payload|)
      ensures Decode(payload).left[g] == SampleAt(payload, 6 + 6 * g)
      ensures Decode(payload).right[g] == SampleAt(payload, 6 + 6 * g + 3)
    {
      DecodeAt(payload, g);
    }
  }

  /** The body holds `PairCount` whole groups after the header. */
  lemma DecodeCount(payload: seq<Byte>)
    ensures |Body(payload)| == 6 * PairCount(|payload|)
    ensures |Decode(payload).left| == |Decode(payload).right| == PairCount(|payload|)
  {
  }

  /** Pair `g` of the decode, located in the payload. */
  lemma DecodeAt(payload: seq<Byte>, g: nat)
    requires g < PairCount(|payload|)
    ensures Decode(payload).left[g] == SampleAt(payload, 6 + 6 * g)
    ensures Decode(payload).right[g] == SampleAt(payload, 6 + 6 * g + 3)
  {
    DecodeCount(payload);
    var whole := |payload| / 6 * 6;
    var body := Body(payload);
    assert body == payload[6..whole];
    assert Decode(payload).left[g] == SampleAt(body, 6 * g);
    assert Decode(payload).right[g] == SampleAt(body, 6 * g + 3);
    SampleInSlice(payload, 6, whole, 6 * g);
    SampleInSlice(payload, 6, whole, 6 * g + 3);
  }

  /** Worked decodes: `00 00 01` is 1, `FF FF FF` is -1, `80 00 00` is -8388608. */
  lemma KnownSamples()
    ensures SampleAt([0x00, 0x00, 0x01], 0) == 1
    ensures SampleAt([0xFF, 0xFF, 0xFF], 0) == -1
    ensures SampleAt([0x80, 0x00, 0x00], 0) == -8388608
  {
  }

  // ---------------------------------------------------------------- reference encoder

  // The device's firmware is not part of this model. The encoder below is this
  // model's own big-endian two's-complement packing, the other half of the
  // decoding round trip.

  /** A 24-bit sample packed as its two's-complement word, big-endian (the model's reference encoder). */
  function Encode24(s: Sample24): (b: seq<Byte>)
    ensures |b| == 3
  {
    var u := if s < 0 then s + 0x100_0000 else s;
    [u / 0x1_0000, u % 0x1_0000 / 0x100, u % 0x100]
  }

  /** A 24-bit word is the sum of its three bytes' place values. */
  lemma ByteSplit(u: nat)
    requires u < 0x100_0000
    ensures u == u / 0x1_0000 * 0x1_0000 + u % 0x1_0000 / 0x100 * 0x100 + u % 0x100
  {
    var lo16 := u % 0x1_0000;
    assert u == u / 0x1_0000 * 0x1_0000 + lo16;
    assert lo16 == lo16 / 0x100 * 0x100 + lo16 % 0x100;
    assert lo16 % 0x100 == u % 0x100;
  }

  /** Decoding the three bytes of an encoded sample gives the sample back. */
  lemma SampleRoundTrip(s: Sample24)
    ensures SampleAt(Encode24(s), 0) == s
  {
    var u := if s < 0 then s + 0x100_0000 else s;
    ByteSplit(u);
    var b := Encode24(s);
    assert Be24(b[0], b[1], b[2]) == u;
  }

  /** The sample groups of a frame packed by the reference encoder, left then right per group. */
  function Groups(left: seq<Sample24>, right: seq<Sample24>): (b: seq<Byte>)
    requires |left| == |right|
    ensures |b| == 6 * |left|
  {
    if left == [] then [] else Encode24(left[0]) + Encode24(right[0]) + Groups(left[1..], right[1..])
  }

  lemma {:induction false} GroupsAt(left: seq<Sample24>, right: seq<Sample24>, g: nat)
    requires |left| == |right| && g < |left|
    ensures Groups(left, right)[6 * g..6 * g + 3] == Encode24(left[g])
    ensures Groups(left, right)[6 * g + 3..6 * g + 6] == Encode24(right[g])
  {
    var b := Groups(left, right);
    var head := Encode24(left[0]) + Encode24(right[0]);
    if g > 0 {
      GroupsAt(left[1..], right[1..], g - 1);
      assert b[6 * g..6 * g + 3] == Groups(left[1..], right[1..])[6 * (g - 1)..6 * (g - 1) + 3];
      assert b[6 * g + 3..6 * g + 6] == Groups(left[1..], right[1..])[6 * (g - 1) + 3..6 * (g - 1) + 6];
    } else {
      assert b[..6] == head;
    }
  }

  /** A sample encoded at offset `j` of the groups sits at offset `6 + j` of the framed payload. */
  lemma SampleInFrame(header: seq<Byte>, body: seq<Byte>, stray: seq<Byte>, j: nat, s: Sample24)
    requires |header| == 6 && j + 3 <= |body| && body[j..j + 3] == Encode24(s)
    ensures SampleAt(header + body + stray, 6 + j) == s
  {
    var p := header + body + stray;
    var e := Encode24(s);
    assert p[6 + j] == e[0] && p[6 + j + 1] == e[1] && p[6 + j + 2] == e[2];
    SampleRoundTrip(s);
  }

  /**
   * Round trip with the reference framing: any 6-byte header, the packed
   * groups of equal-length channels, and fewer than 6 stray bytes decode to
   * exactly the channels that were packed.
   */
  lemma {:induction false} DecodeFramed(header: seq<Byte>, left: seq<Sample24>, right: seq<Sample24>, stray: seq<Byte>)
    requires |header| == 6 && |left| == |right| && |stray| < 6
    ensures Decode(header + Groups(left, right) + stray) == Stereo(left, right)
  {
    var payload := header + Groups(left, right) + stray;
    FramedCount(header, left, right, stray);
    DecodeCount(payload);
    var d := Decode(payload);
    forall g | 0 <= g < |left|
      ensures d.left[g] == left[g] && d.right[g] == right[g]
    {
      FramedAt(header, left, right, stray, g);
    }
  }

  /** A framed payload of `n` groups decodes to `n` pairs. */
  lemma FramedCount(header: seq<Byte>, left: seq<Sample24>, right: seq<Sample24>, stray: seq<Byte>)
    requires |header| == 6 && |left| == |right| && |stray| < 6
    ensures PairCount(|header + Groups(left, right) + stray|) == |left|
  {
    assert |header + Groups(left, right) + stray| == 6 * (|left| + 1) + |stray|;
  }

  /** Pair `g` of a framed payload is the `g`-th packed pair. */
  lemma FramedAt(header: seq<Byte>, left: seq<Sample24>, right: seq<Sample24>, stray: seq<Byte>, g: nat)
    requires |header| == 6 && |left| == |right| && |stray| < 6 && g < |left|
    ensures Decode(header + Groups(left, right) + stray).left[g] == left[g]
    ensures Decode(header + Groups(left, right) + stray).right[g] == right[g]
  {
    var body := Groups(left, right);
    FramedCount(header, left, right, stray);
    DecodeAt(header + body + stray, g);
    GroupsAt(left, right, g);
    SampleInFrame(header, body, stray, 6 * g, left[g]);
    SampleInFrame(header, body, stray, 6 * g + 3, right[g]);
  }

  /**
   * `handle_packet`: a frame the filter rejects writes nothing; an admitted
   * one appends its left samples to the left store and its right samples to
   * the right store.
   */
  method HandlePacket(frame: Frame, left: RingBuffer, right: RingBuffer)
    requires left != right && left.buf != right.buf
    requires left.Valid() && right.Valid()
    requires Admits(frame) ==> PairCount(|frame.payload|) <= left.size && PairCount(|frame.payload|) <= right.size
    modifies left`writePtr, left`written, left`fftCache, left.buf
    modifies right`writePtr, right`written, right`fftCache, right.buf
    ensures left.Valid() && right.Valid()
    ensures !Admits(frame) ==> unchanged(left, left.buf, right, right.buf)
    ensures left.windowCache == old(left.windowCache) && right.windowCache == old(right.windowCache)
    ensures Admits(frame) ==> |Decode(frame.payload).left| == |Decode(frame.payload).right| == PairCount(|frame.payload|)
    ensures Admits(frame) ==> left.written == old(left.written) + Decode(frame.payload).left
    ensures Admits(frame) ==> right.written == old(right.written) + Decode(frame.payload).right
    ensures Admits(frame) ==>
              && left.buf[..] == WriteInto(old(left.buf[..]), old(left.writePtr), Decode(frame.payload).left)
              && left.writePtr == Advance(old(left.writePtr), PairCount(|frame.payload|), left.size)
              && left.fftCache == if PairCount(|frame.payload|) == 0 then old(left.fftCache) else map[]
    ensures Admits(frame) ==>
              && right.buf[..] == WriteInto(old(right.buf[..]), old(right.writePtr), Decode(frame.payload).right)
              && right.writePtr == Advance(old(right.writePtr), PairCount(|frame.payload|), right.size)
              && right.fftCache == if PairCount(|frame.payload|) == 0 then old(right.fftCache) else map[]
  {
    if frame.etherType == EtherType {
      if Lower(frame.src) != Lower(PeerMac) {
        return;
      }
      var stereo := Decode(frame.payload);
      DecodeLayout(frame.payload);
      left.Write(stereo.left);
      right.Write(stereo.right);
    }
  }

  // ---------------------------------------------------------------- register frames

  /** `x.to_bytes(4, "big")`: four big-endian bytes, or the OverflowError outside `[0, 2^32)`. */
  function WordBytes(x: int): (b: Option<seq<Byte>>)
    ensures b.Some? <==> 0 <= x < 0x1_0000_0000
    ensures b.Some? ==> |b.value| == 4
  {
    if 0 <= x < 0x1_0000_0000 then
      Some([x / 0x100_0000, x / 0x1_0000 % 0x100, x / 0x100 % 0x100, x % 0x100])
    else None
  }

  /** Four bytes read as a big-endian unsigned word: the model's reference decoder for a register word. */
  function WordOf(b: seq<Byte>): int
    requires |b| == 4
  {
    b[0] as int * 0x100_0000 + b[1] as int * 0x1_0000 + b[2] as int * 0x100 + b[3] as int
  }

  /** `b"".join(x.to_bytes(4, "big") for x in words)`, failing at the first word that does not fit. */
  function Serialise(words: seq<int>): (p: Option<seq<Byte>>)
    ensures p.Some? ==> |p.value| == 4 * |words|
  {
    if words == [] then Some([])
    else match WordBytes(words[0])
      case None => None
      case Some(b) =>
        match Serialise(words[1..])
        case None => None
        case Some(rest) => Some(b + rest)
  }

  /** The words of a payload, four big-endian bytes each, by the reference decoder. */
  function Deserialise(p: seq<Byte>): seq<int>
    requires |p| % 4 == 0
  {
    if p == [] then [] else [WordOf(p[..4])] + Deserialise(p[4..])
  }

  /** A single word survives encoding exactly when it fits in 32 bits. */
  lemma WordRoundTrip(x: int)
    ensures WordBytes(x).Some? <==> 0 <= x < 0x1_0000_0000
    ensures WordBytes(x).Some? ==> |WordBytes(x).value| == 4 && WordOf(WordBytes(x).value) == x
  {
  }

  /** Serialisation succeeds exactly when every word fits in 32 bits. */
  lemma {:induction false} SerialiseSucceeds(words: seq<int>)
    ensures Serialise(words).Some? <==> Registers.AllWords(words)
  {
    if words != [] {
      SerialiseSucceeds(words[1..]);
      WordRoundTrip(words[0]);
      assert Registers.AllWords(words) <==> 0 <= words[0] < 0x1_0000_0000 && Registers.AllWords(words[1..]);
    }
  }

  /**
   * A successful serialisation yields four bytes per word, and the reference
   * decoder reads every word back.
   */
  lemma {:induction false} SerialiseRoundTrip(words: seq<int>)
    ensures Serialise(words).Some? ==> |Serialise(words).value| == 4 * |words|
    ensures Serialise(words).Some? ==> Deserialise(Serialise(words).value) == words
  {
    if words != [] && Serialise(words).Some? {
      SerialiseRoundTrip(words[1..]);
      WordRoundTrip(words[0]);
      var b := WordBytes(words[0]).value;
      var rest := Serialise(words[1..]).value;
      var p := b + rest;
      assert Serialise(words).value == p;
      assert p[..4] == b && p[4..] == rest;
      assert words == [words[0]] + words[1..];
    }
  }

  /**
   * The register payload of the transmitter: for any bank state, `dump()`
   * serialises to 48 bytes whose twelve words are the twelve registers in
   * index order. This holds because `set` masks every value to 32 bits.
   */
  lemma RegisterPayload(regs: seq<int>)
    requires |regs| == Registers.RegCount && Registers.AllWords(regs)
    ensures Serialise(regs).Some? && |Serialise(regs).value| == 48
    ensures Deserialise(Serialise(regs).value) == regs
  {
    SerialiseSucceeds(regs);
    SerialiseRoundTrip(regs);
  }

  /** The outbound register frame: `Ether(src=DST_MAC, dst=SRC_MAC, type=ETHERTYPE) / payload`. */
  function RegisterFrame(words: seq<int>): (f: Option<Frame>)
    ensures f.Some? <==> Registers.AllWords(words)
    ensures f.Some? ==> f.value.etherType == EtherType && |f.value.payload| == 4 * |words|
  {
    SerialiseSucceeds(words);
    match Serialise(words)
    case None => None
    case Some(p) => Some(Frame(PeerMac, PlaceholderMac, EtherType, p))
  }

  /**
   * The register frame is addressed to the peer but carries the all-ones
   * placeholder as its source, so the inbound filter, which expects the peer
   * as source, would drop it: the two directions use swapped addressing.
   */
  lemma RegisterFrameAddressing(regs: seq<int>)
    requires |regs| == Registers.RegCount && Registers.AllWords(regs)
    ensures RegisterFrame(regs).Some?
    ensures RegisterFrame(regs).value.dst == PeerMac && RegisterFrame(regs).value.etherType == EtherType
    ensures RegisterFrame(regs).value.src == PlaceholderMac
    ensures |RegisterFrame(regs).value.payload| == 48
    ensures Deserialise(RegisterFrame(regs).value.payload) == regs
    ensures !Admits(RegisterFrame(regs).value)
  {
    RegisterPayload(regs);
    assert Lower(PlaceholderMac)[0] == 'f' != '8' == Lower(PeerMac)[0];
  }
}
