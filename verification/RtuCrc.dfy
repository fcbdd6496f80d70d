/** The Modbus RTU frame check of internal/modbusframe/rtu.go (Modbus over Serial Line V1.02, section 6.2.2).

    The specification is bit-serial: the register consumes the frame one bit at a time, least significant bit of each
    byte first. The code works a byte at a time. Bit-vector operations stand behind small named functions, whose laws
    are proved once; the proofs about bit strings use only the laws. */
module RtuCrc {
  import opened Common

  datatype FrameError = BadLength | CrcMismatch

  function Xor(x: bv16, y: bv16): bv16 { x ^ y }

  function Low(w: bv16): bool { w & 1 != 0 }

  function Half(w: bv16): bv16 { w >> 1 }

  function Bit(b: bool): bv16 { if b then 1 else 0 }

  /** One shift of the register. The lowest bit, spread over the word, decides whether the reflected polynomial is fed
      back; written without a branch, this is visibly a linear map. */
  function Shift(v: bv16): bv16 {
    (v >> 1) ^ ((0 - (v & 1)) & 0xa001)
  }

  function Step(v: bv16, b: bool): bv16 {
    Shift(Xor(v, Bit(b)))
  }

  /** The register after consuming `bits`, starting from `v`. */
  function Feed(v: bv16, bits: seq<bool>): bv16
    decreases bits
  {
    if bits == [] then v else Feed(Step(v, bits[0]), bits[1..])
  }

  /** The low `n` bits of `w`, least significant first. */
  function WordBits(w: bv16, n: nat): (bits: seq<bool>)
    ensures |bits| == n
    decreases n
  {
    if n == 0 then [] else [Low(w)] + WordBits(Half(w), n - 1)
  }

  /** The bits of a byte string in the order the register consumes them. */
  function Bits(data: seq<byte>): (bits: seq<bool>)
    ensures |bits| == 8 * |data|
  {
    if data == [] then [] else WordBits(data[0] as bv16, 8) + Bits(data[1..])
  }

  function CrcOf(data: seq<byte>): bv16 {
    Feed(0xffff, Bits(data))
  }

  /** `w` has no bit set at position `n` or above. */
  predicate Fits(w: bv16, n: nat)
    decreases n
  {
    if n == 0 then w == 0 else Fits(Half(w), n - 1)
  }

  // ---------- the code ----------

  method Crc(data: seq<byte>) returns (v: bv16)
    ensures v == CrcOf(data)
  {
    v := 0xffff;
    CrcEnds(data, v);
    for k := 0 to |data|
      invariant Feed(v, Bits(data[k..])) == CrcOf(data)
    {
      hide *;
      NextByte(v, data[k..]);
      assert data[k..][1..] == data[k + 1..];
      v := CrcByte(v, data[k]);
    }
    CrcEnds(data, v);
  }

  /** The inner loop of the source: one byte, eight shifts. */
  method CrcByte(start: bv16, b: byte) returns (v: bv16)
    ensures v == Feed(start, WordBits(b as bv16, 8))
  {
    hide *;
    // v equals the register that has consumed the bits so far, xored with the bits still to come.
    ghost var fed, rest := start, b as bv16;
    ByteFits(b);
    XorDef(start, b as bv16);
    v := start ^ (b as bv16);
    for i := 0 to 8
      invariant v == Xor(fed, rest) && Fits(rest, 8 - i)
      invariant Feed(fed, WordBits(rest, 8 - i)) == Feed(start, WordBits(b as bv16, 8))
    {
      ShiftConsumesBit(fed, rest);
      UnfoldBits(fed, rest, 8 - i);
      fed, rest := Step(fed, Low(rest)), Half(rest);
      if v & 1 != 0 {
        OddShift(v);
        v := (v >> 1) ^ 0xa001;
      } else {
        EvenShift(v);
        v := v >> 1;
      }
    }
    NoBitsLeft(fed, rest);
  }

  /** `binary.LittleEndian.Uint16`. */
  function Le16(lo: byte, hi: byte): bv16 {
    (lo as bv16) | ((hi as bv16) << 8)
  }

  function Framed(data: seq<byte>): seq<byte> {
    data + [(CrcOf(data) & 0xff) as bv8, (CrcOf(data) >> 8) as bv8]
  }

  method AppendCrc(data: seq<byte>) returns (frame: seq<byte>)
    ensures frame == Framed(data)
  {
    var v := Crc(data);
    frame := data + [(v & 0xff) as bv8, (v >> 8) as bv8];
  }

  /** The length is legal and the two trailer bytes hold the check of everything before them. */
  predicate Accepts(frame: seq<byte>) {
    5 <= |frame| <= 256 && CrcOf(frame[..|frame| - 2]) == Le16(frame[|frame| - 2], frame[|frame| - 1])
  }

  method Validate(frame: seq<byte>) returns (r: Result<(), FrameError>)
    ensures r.Ok? <==> Accepts(frame)
    ensures r == Err(BadLength) <==> !(5 <= |frame| <= 256)
  {
    hide CrcOf;
    if |frame| < 5 || |frame| > 256 {
      return Err(BadLength);
    }
    var v := Crc(frame[..|frame| - 2]);
    if v != Le16(frame[|frame| - 2], frame[|frame| - 1]) {
      return Err(CrcMismatch);
    }
    return Ok(());
  }

  // ---------- laws of the register ----------

  lemma XorDef(x: bv16, y: bv16)
    ensures Xor(x, y) == x ^ y
  {
  }

  lemma OddShift(v: bv16)
    requires v & 1 != 0
    ensures Shift(v) == (v >> 1) ^ 0xa001
  {
  }

  lemma EvenShift(v: bv16)
    requires v & 1 == 0
    ensures Shift(v) == v >> 1
  {
  }

  lemma XorCancels(x: bv16)
    ensures Xor(x, x) == 0 && Xor(x, 0) == x && Xor(0, x) == x
  {
  }

  lemma XorAssociates(a: bv16, b: bv16, c: bv16)
    ensures Xor(Xor(a, b), c) == Xor(a, Xor(b, c))
  {
  }

  lemma XorCommutes(a: bv16, b: bv16)
    ensures Xor(a, b) == Xor(b, a)
  {
  }

  lemma XorSwapsPairs(a: bv16, b: bv16, c: bv16, d: bv16)
    ensures Xor(Xor(a, b), Xor(c, d)) == Xor(Xor(a, c), Xor(b, d))
  {
    hide Xor;
    XorAssociates(a, b, Xor(c, d));
    XorAssociates(b, c, d);
    XorCommutes(b, c);
    XorAssociates(c, b, d);
    XorAssociates(a, c, Xor(b, d));
  }

  lemma XorZero(x: bv16, y: bv16)
    ensures Xor(x, y) == 0 <==> x == y
  {
  }

  lemma BitIsLinear(b: bool, c: bool)
    ensures Xor(Bit(b), Bit(c)) == Bit(b != c)
  {
  }

  lemma ShiftIsLinear(x: bv16, y: bv16)
    ensures Shift(Xor(x, y)) == Xor(Shift(x), Shift(y))
  {
  }

  lemma ShiftKeepsNonzero(v: bv16)
    ensures Shift(v) == 0 <==> v == 0
  {
  }

  /** Shifting a register that already holds the coming bits consumes the lowest of them. */
  lemma ShiftConsumesBit(fed: bv16, rest: bv16)
    ensures Shift(Xor(fed, rest)) == Xor(Step(fed, Low(rest)), Half(rest))
  {
  }

  lemma StepIsLinear(v: bv16, w: bv16, b: bool, c: bool)
    ensures Step(Xor(v, w), b != c) == Xor(Step(v, b), Step(w, c))
  {
    hide Shift, Xor, Low, Half, Bit;
    BitIsLinear(b, c);
    XorSwapsPairs(v, w, Bit(b), Bit(c));
    ShiftIsLinear(Xor(v, Bit(b)), Xor(w, Bit(c)));
  }

  // ---------- feeding bit strings ----------

  lemma ByteFits(b: byte)
    ensures Fits(b as bv16, 8)
  {
  }

  lemma UnfoldBits(v: bv16, w: bv16, n: nat)
    requires n > 0
    ensures Feed(v, WordBits(w, n)) == Feed(Step(v, Low(w)), WordBits(Half(w), n - 1))
    ensures Fits(w, n) == Fits(Half(w), n - 1)
  {
  }

  lemma NoBitsLeft(v: bv16, w: bv16)
    requires Fits(w, 0)
    ensures Xor(v, w) == v && Feed(v, WordBits(w, 0)) == v
  {
  }

  lemma {:induction false} FeedConcat(v: bv16, a: seq<bool>, b: seq<bool>)
    ensures Feed(v, a + b) == Feed(Feed(v, a), b)
    decreases a
  {
    hide Step;
    if a == [] {
      assert a + b == b;
    } else {
      assert (a + b)[0] == a[0] && (a + b)[1..] == a[1..] + b;
      FeedConcat(Step(v, a[0]), a[1..], b);
    }
  }

  lemma CrcEnds(data: seq<byte>, v: bv16)
    ensures Feed(0xffff, Bits(data[0..])) == CrcOf(data)
    ensures Feed(v, Bits(data[|data|..])) == v
  {
  }

  lemma NextByte(v: bv16, data: seq<byte>)
    requires data != []
    ensures Feed(v, Bits(data)) == Feed(Feed(v, WordBits(data[0] as bv16, 8)), Bits(data[1..]))
  {
    hide Step, WordBits;
    FeedConcat(v, WordBits(data[0] as bv16, 8), Bits(data[1..]));
  }

  lemma {:induction false} BitsConcat(a: seq<byte>, b: seq<byte>)
    ensures Bits(a + b) == Bits(a) + Bits(b)
  {
    hide WordBits;
    if a == [] {
      assert a + b == b;
    } else {
      assert (a + b)[1..] == a[1..] + b;
      BitsConcat(a[1..], b);
    }
  }

  lemma {:induction false} FeedIsLinear(v: bv16, w: bv16, a: seq<bool>, b: seq<bool>)
    requires |a| == |b|
    ensures Feed(Xor(v, w), Differences(a, b)) == Xor(Feed(v, a), Feed(w, b))
    decreases a
  {
    hide Step, Xor;
    if a != [] {
      StepIsLinear(v, w, a[0], b[0]);
      assert Differences(a, b)[1..] == Differences(a[1..], b[1..]);
      FeedIsLinear(Step(v, a[0]), Step(w, b[0]), a[1..], b[1..]);
    }
  }

  /** Where two bit strings differ. */
  function Differences(a: seq<bool>, b: seq<bool>): (d: seq<bool>)
    requires |a| == |b|
    ensures |d| == |a|
    ensures forall k :: 0 <= k < |d| ==> d[k] == (a[k] != b[k])
  {
    seq(|a|, k requires 0 <= k < |a| => a[k] != b[k])
  }

  // ---------- going back from the zero register ----------

  lemma {:induction false} FitsIsMonotone(w: bv16, m: nat, n: nat)
    requires m <= n && Fits(w, m)
    ensures Fits(w, n)
    decreases n
  {
    if m == 0 {
      assert Half(0) == 0;
      if n > 0 { FitsIsMonotone(w, 0, n - 1); }
    } else {
      FitsIsMonotone(Half(w), m - 1, n - 1);
    }
  }

  /** `mask` has no bit set below position `n`. */
  predicate Above(mask: bv16, n: nat)
    decreases n
  {
    n == 0 || (!Low(mask) && Above(Half(mask), n - 1))
  }

  lemma FifteenBits(w: bv16)
    requires Fits(w, 15)
    ensures w & 0x8000 == 0
  {
  }

  /** Feedback sets the top bit, so a register without it was shifted plainly. */
  lemma NoFeedback(v: bv16, b: bool)
    requires Step(v, b) & 0x8000 == 0
    ensures Low(v) == b && Half(v) == Step(v, b)
  {
  }

  /** At most sixteen bits bring a register to zero only if they are the register's own bits. */
  lemma {:induction false} FeedToZero(v: bv16, bits: seq<bool>)
    requires |bits| <= 16 && Feed(v, bits) == 0
    ensures Fits(v, |bits|) && WordBits(v, |bits|) == bits
    decreases bits
  {
    hide Step, Low, Half;
    if bits != [] {
      var next := Step(v, bits[0]);
      FeedToZero(next, bits[1..]);
      FitsIsMonotone(next, |bits| - 1, 15);
      FifteenBits(next);
      NoFeedback(v, bits[0]);
      assert bits == [bits[0]] + bits[1..];
    }
  }

  lemma {:induction false} FeedOwnBits(v: bv16, n: nat)
    requires Fits(v, n)
    ensures Feed(v, WordBits(v, n)) == 0
    decreases n
  {
    if n > 0 {
      UnfoldBits(v, v, n);
      OwnBit(v);
      FeedOwnBits(Half(v), n - 1);
    }
  }

  lemma OwnBit(v: bv16)
    ensures Step(v, Low(v)) == Half(v)
  {
  }

  lemma {:induction false} WordBitsInjective(v: bv16, w: bv16, n: nat)
    requires Fits(v, n) && Fits(w, n) && WordBits(v, n) == WordBits(w, n)
    ensures v == w
    decreases n
  {
    if n > 0 {
      assert WordBits(v, n)[1..] == WordBits(Half(v), n - 1) && WordBits(w, n)[1..] == WordBits(Half(w), n - 1);
      WordBitsInjective(Half(v), Half(w), n - 1);
      assert WordBits(v, n)[0] == WordBits(w, n)[0];
      HalvesAgree(v, w);
    }
  }

  lemma HalvesAgree(v: bv16, w: bv16)
    requires Half(v) == Half(w) && Low(v) == Low(w)
    ensures v == w
  {
  }

  // ---------- bytes and words ----------

  lemma WordFits(w: bv16)
    ensures Fits(w, 16)
  {
    HighByteShifts(w);
    ByteFits((w >> 8) as bv8);
    EightHalves(w);
    FitsAfter(w, 8, 8);
  }

  function Halves(w: bv16, n: nat): bv16
    decreases n
  {
    if n == 0 then w else Halves(Half(w), n - 1)
  }

  lemma EightHalves(w: bv16)
    ensures Halves(w, 8) == w >> 8
  {
  }

  lemma {:induction false} FitsAfter(w: bv16, m: nat, n: nat)
    ensures Fits(w, m + n) <==> Fits(Halves(w, m), n)
    decreases m
  {
    hide Half;
    if m > 0 {
      FitsAfter(Half(w), m - 1, n);
    }
  }

  lemma {:induction false} WordBitsAfter(w: bv16, m: nat, n: nat)
    ensures WordBits(w, m + n) == WordBits(w, m) + WordBits(Halves(w, m), n)
    decreases m
  {
    hide Half, Low;
    if m > 0 {
      WordBitsAfter(Half(w), m - 1, n);
    }
  }

  lemma HighByteShifts(w: bv16)
    ensures w >> 8 == ((w >> 8) as bv8) as bv16
  {
  }

  /** Words that differ only at position `n` and above have the same first `n` bits. */
  lemma {:induction false} SameLowBits(v: bv16, w: bv16, n: nat)
    requires Above(Xor(v, w), n)
    ensures WordBits(v, n) == WordBits(w, n)
    decreases n
  {
    hide Xor, Half, Low;
    if n > 0 {
      HalvesOfXor(v, w);
      SameLowBits(Half(v), Half(w), n - 1);
    }
  }

  lemma HalvesOfXor(v: bv16, w: bv16)
    ensures Half(Xor(v, w)) == Xor(Half(v), Half(w))
    ensures !Low(Xor(v, w)) <==> Low(v) == Low(w)
  {
  }

  lemma HighByteIsAbove(w: bv16)
    requires w & 0xff == 0
    ensures Above(w, 8)
  {
  }

  lemma Le16Halves(lo: byte, hi: byte)
    ensures Le16(lo, hi) >> 8 == hi as bv16
    ensures Xor(Le16(lo, hi), lo as bv16) & 0xff == 0
  {
  }

  lemma {:induction false} TrailerBits(lo: byte, hi: byte)
    ensures Bits([lo, hi]) == WordBits(Le16(lo, hi), 16)
  {
    hide Le16, WordBits;
    var w := Le16(lo, hi);
    Le16Halves(lo, hi);
    EightHalves(w);
    HighByteIsAbove(Xor(w, lo as bv16));
    SameLowBits(w, lo as bv16, 8);
    WordBitsAfter(w, 8, 8);
    assert Bits([hi]) == WordBits(hi as bv16, 8) + Bits([]);
    assert [lo, hi][1..] == [hi];
  }

  // ---------- bytes from bits ----------

  function ByteOf(b0: bool, b1: bool, b2: bool, b3: bool, b4: bool, b5: bool, b6: bool, b7: bool): byte {
    (if b0 then 1 else 0) | (if b1 then 2 else 0) | (if b2 then 4 else 0) | (if b3 then 8 else 0) |
    (if b4 then 16 else 0) | (if b5 then 32 else 0) | (if b6 then 64 else 0) | (if b7 then 128 else 0)
  }

  function Wide(b: byte): bv16 {
    b as bv16
  }

  lemma ByteShifts(b0: bool, b1: bool, b2: bool, b3: bool, b4: bool, b5: bool, b6: bool, b7: bool)
    ensures
      var w := Wide(ByteOf(b0, b1, b2, b3, b4, b5, b6, b7));
      && Low(w) == b0 && Low(w >> 1) == b1 && Low(w >> 2) == b2 && Low(w >> 3) == b3
      && Low(w >> 4) == b4 && Low(w >> 5) == b5 && Low(w >> 6) == b6 && Low(w >> 7) == b7
  {
  }

  lemma NextShift(w: bv16)
    ensures Half(w) == w >> 1 && Half(w >> 1) == w >> 2 && Half(w >> 2) == w >> 3 && Half(w >> 3) == w >> 4
    ensures Half(w >> 4) == w >> 5 && Half(w >> 5) == w >> 6 && Half(w >> 6) == w >> 7
  {
  }

  lemma NoHalves(w: bv16)
    ensures Halves(w, 0) == w
  {
  }

  lemma {:induction false} NextHalves(w: bv16, k: nat)
    ensures Halves(w, k + 1) == Half(Halves(w, k))
    decreases k
  {
    hide Half;
    if k > 0 {
      NextHalves(Half(w), k - 1);
    }
  }

  lemma SomeHalves(w: bv16)
    ensures Halves(w, 0) == w && Halves(w, 1) == w >> 1 && Halves(w, 2) == w >> 2 && Halves(w, 3) == w >> 3
    ensures Halves(w, 4) == w >> 4 && Halves(w, 5) == w >> 5 && Halves(w, 6) == w >> 6 && Halves(w, 7) == w >> 7
  {
    hide Half, Halves;
    NextShift(w);
    NoHalves(w);
    NextHalves(w, 0);
    NextHalves(w, 1);
    NextHalves(w, 2);
    NextHalves(w, 3);
    NextHalves(w, 4);
    NextHalves(w, 5);
    NextHalves(w, 6);
  }

  lemma ByteHalves(b0: bool, b1: bool, b2: bool, b3: bool, b4: bool, b5: bool, b6: bool, b7: bool)
    ensures
      var w := Wide(ByteOf(b0, b1, b2, b3, b4, b5, b6, b7));
      && Low(Halves(w, 0)) == b0 && Low(Halves(w, 1)) == b1 && Low(Halves(w, 2)) == b2 && Low(Halves(w, 3)) == b3
      && Low(Halves(w, 4)) == b4 && Low(Halves(w, 5)) == b5 && Low(Halves(w, 6)) == b6 && Low(Halves(w, 7)) == b7
  {
    hide Halves, Low, Wide, ByteOf;
    ByteShifts(b0, b1, b2, b3, b4, b5, b6, b7);
    SomeHalves(Wide(ByteOf(b0, b1, b2, b3, b4, b5, b6, b7)));
  }

  lemma {:induction false} WordBitsAt(w: bv16, n: nat, k: nat)
    requires k < n
    ensures WordBits(w, n)[k] == Low(Halves(w, k))
    decreases k
  {
    hide Low, Half;
    if k > 0 {
      WordBitsAt(Half(w), n - 1, k - 1);
    }
  }

  function ByteFrom(bits: seq<bool>): byte
    requires |bits| == 8
  {
    ByteOf(bits[0], bits[1], bits[2], bits[3], bits[4], bits[5], bits[6], bits[7])
  }

  lemma ByteFromBits(bits: seq<bool>)
    requires |bits| == 8
    ensures WordBits(Wide(ByteFrom(bits)), 8) == bits
  {
    hide Low, Halves, WordBits, Wide, ByteOf;
    assert |WordBits(Wide(ByteFrom(bits)), 8)| == 8;
    ByteHalves(bits[0], bits[1], bits[2], bits[3], bits[4], bits[5], bits[6], bits[7]);
    forall k | 0 <= k < 8
      ensures WordBits(Wide(ByteFrom(bits)), 8)[k] == bits[k]
    {
      WordBitsAt(Wide(ByteFrom(bits)), 8, k);
    }
  }

  /** The byte string with the given bits. */
  function FromBits(bits: seq<bool>): (data: seq<byte>)
    requires |bits| % 8 == 0
    ensures 8 * |data| == |bits|
  {
    if bits == [] then [] else [ByteFrom(bits[..8])] + FromBits(bits[8..])
  }

  lemma BitsCons(b: byte, rest: seq<byte>)
    ensures Bits([b] + rest) == WordBits(Wide(b), 8) + Bits(rest)
  {
    hide WordBits;
    assert ([b] + rest)[1..] == rest;
  }

  lemma {:induction false} FromBitsRoundTrip(bits: seq<bool>)
    requires |bits| % 8 == 0
    ensures Bits(FromBits(bits)) == bits
    decreases |bits|
  {
    hide ByteFrom, WordBits, Wide;
    if bits == [] {
    } else {
      FromBitsRoundTrip(bits[8..]);
      ByteFromBits(bits[..8]);
      hide Bits;
      BitsCons(ByteFrom(bits[..8]), FromBits(bits[8..]));
      assert bits == bits[..8] + bits[8..];
    }
  }

  // ---------- what the check detects ----------

  /** The check passes exactly when the register is zero after the whole frame, trailer included. */
  lemma ResidueIsZero(frame: seq<byte>)
    requires 2 <= |frame|
    ensures CrcOf(frame) == 0 <==> CrcOf(frame[..|frame| - 2]) == Le16(frame[|frame| - 2], frame[|frame| - 1])
  {
    hide Le16, Bits, WordBits, Fits;
    var body, lo, hi := frame[..|frame| - 2], frame[|frame| - 2], frame[|frame| - 1];
    assert frame == body + [lo, hi];
    BitsConcat(body, [lo, hi]);
    FeedConcat(0xffff, Bits(body), Bits([lo, hi]));
    TrailerBits(lo, hi);
    var c, t := CrcOf(body), Le16(lo, hi);
    WordFits(c);
    WordFits(t);
    if Feed(c, WordBits(t, 16)) == 0 {
      FeedToZero(c, WordBits(t, 16));
      WordBitsInjective(c, t, 16);
    }
    if c == t {
      FeedOwnBits(c, 16);
    }
  }

  lemma AcceptedMeansZero(frame: seq<byte>)
    ensures Accepts(frame) <==> 5 <= |frame| <= 256 && CrcOf(frame) == 0
  {
    hide CrcOf, Le16;
    if 2 <= |frame| {
      ResidueIsZero(frame);
    }
  }

  /** `AppendCRC` makes an acceptable frame of every body of legal length, and of no other. */
  lemma FramedIsAccepted(data: seq<byte>)
    ensures Accepts(Framed(data)) <==> 3 <= |data| <= 254
  {
  }

  /** A corruption confined to sixteen consecutive bits of an accepted frame is always rejected. */
  lemma BurstIsRejected(frame: seq<byte>, received: seq<byte>, i: nat)
    requires Accepts(frame) && |received| == |frame| && received != frame
    requires i + 16 <= 8 * |frame|
    requires forall k :: 0 <= k < 8 * |frame| && !(i <= k < i + 16) ==> Bits(received)[k] == Bits(frame)[k]
    ensures !Accepts(received)
  {
    hide CrcOf, Le16, Bits;
    if Accepts(received) {
      var d := Differences(Bits(frame), Bits(received));
      BothAccepted(frame, received, d);
      BurstVanishes(d, i);
      assert Bits(frame) == Bits(received);
      BitsInjective(frame, received);
    }
  }

  /** No burst of at most sixteen bits leaves the zero register at zero. */
  lemma BurstVanishes(d: seq<bool>, i: nat)
    requires i + 16 <= |d| && Feed(0, d) == 0
    requires forall k :: 0 <= k < |d| && !(i <= k < i + 16) ==> !d[k]
    ensures forall k :: 0 <= k < |d| ==> !d[k]
  {
    hide Feed, WordBits, Fits;
    var zeros, window, tail := d[..i], d[i..i + 16], d[i + 16..];
    assert d == zeros + (window + tail);
    FeedConcat(0, zeros, window + tail);
    FeedConcat(0, window, tail);
    FeedZeros(0, zeros);
    FeedZeros(Feed(0, window), tail);
    FeedToZero(0, window);
    ZeroWord(16);
    assert forall k :: i <= k < i + 16 ==> d[k] == window[k - i] == WordBits(0, 16)[k - i];
  }

  /** The generator of the check, seventeen bits long. */
  function Generator(): (bits: seq<bool>)
    ensures |bits| == 17 && bits[0]
  {
    [true] + WordBits(0xa001, 16)
  }

  /** Seventeen bits are one too many: at every position of every accepted frame there is a corruption of seventeen
      consecutive bits that is accepted, namely the generator. */
  lemma WiderBurstIsAccepted(frame: seq<byte>, i: nat) returns (received: seq<byte>)
    requires Accepts(frame) && i + 17 <= 8 * |frame|
    ensures Accepts(received) && received != frame && |received| == |frame|
    ensures forall k :: 0 <= k < 8 * |frame| && !(i <= k < i + 17) ==> Bits(received)[k] == Bits(frame)[k]
  {
    hide Accepts, Bits, Generator, WordBits, FromBits, Differences;
    var zeros, tail := seq(i, _ => false), seq(8 * |frame| - i - 17, _ => false);
    var d := zeros + (Generator() + tail);
    var bits := Differences(Bits(frame), d);
    received := FromBits(bits);
    FromBitsRoundTrip(bits);
    DifferencesTwice(Bits(frame), d);
    assert forall k :: 0 <= k < |d| && !(i <= k < i + 17) ==> !d[k];
    GeneratorGoesUnnoticed(frame, received, zeros, tail);
  }

  lemma DifferencesTwice(a: seq<bool>, d: seq<bool>)
    requires |a| == |d|
    ensures Differences(a, Differences(a, d)) == d
  {
  }

  lemma GeneratorGoesUnnoticed(frame: seq<byte>, received: seq<byte>, zeros: seq<bool>, tail: seq<bool>)
    requires Accepts(frame) && |received| == |frame|
    requires Differences(Bits(frame), Bits(received)) == zeros + (Generator() + tail)
    requires forall k :: 0 <= k < |zeros| ==> !zeros[k]
    requires forall k :: 0 <= k < |tail| ==> !tail[k]
    ensures Accepts(received) && received != frame
  {
    hide Le16, Bits, WordBits, Step, Xor, Low, Half, Fits, Generator;
    var d := Differences(Bits(frame), Bits(received));
    assert d[|zeros|];
    FeedConcat(0, zeros, Generator() + tail);
    FeedZeros(0, zeros);
    FeedConcat(0, Generator(), tail);
    GeneratorVanishes();
    FeedZeros(0, tail);
    SameResidue(frame, received);
  }

  /** The generator as a bit string: a one, then the feedback word it leaves in the register. */
  lemma GeneratorVanishes()
    ensures Feed(0, Generator()) == 0
  {
    assert Step(0, true) == 0xa001;
    OwnBitsVanish(Step(0, true));
  }

  lemma OwnBitsVanish(v: bv16)
    requires v == Step(0, true)
    ensures Feed(0, [true] + WordBits(v, 16)) == 0
  {
    hide Step, WordBits, Fits;
    var bits := [true] + WordBits(v, 16);
    UnfoldFeed(0, bits);
    assert bits[1..] == WordBits(v, 16);
    WordFits(v);
    FeedOwnBits(v, 16);
  }

  lemma SameResidue(frame: seq<byte>, received: seq<byte>)
    requires Accepts(frame) && |received| == |frame|
    requires Feed(0, Differences(Bits(frame), Bits(received))) == 0
    ensures Accepts(received)
  {
    hide Accepts, Bits, Xor, Feed, Step;
    AcceptedMeansZero(frame);
    AcceptedMeansZero(received);
    FeedIsLinear(0xffff, 0xffff, Bits(frame), Bits(received));
    XorCancels(0xffff);
    XorZero(CrcOf(frame), CrcOf(received));
  }

  lemma BothAccepted(frame: seq<byte>, received: seq<byte>, d: seq<bool>)
    requires Accepts(frame) && Accepts(received) && |received| == |frame|
    requires d == Differences(Bits(frame), Bits(received))
    ensures Feed(0, d) == 0
  {
    hide Accepts, Bits, Xor, Feed, Step;
    AcceptedMeansZero(frame);
    AcceptedMeansZero(received);
    FeedIsLinear(0xffff, 0xffff, Bits(frame), Bits(received));
    XorCancels(0xffff);
    XorCancels(0);
  }

  lemma {:induction false} FeedZeros(v: bv16, bits: seq<bool>)
    requires forall k :: 0 <= k < |bits| ==> !bits[k]
    ensures Feed(v, bits) == 0 <==> v == 0
    decreases bits
  {
    if bits != [] {
      XorCancels(v);
      ShiftKeepsNonzero(v);
      hide *;
      StepOnZero(v);
      UnfoldFeed(v, bits);
      FeedZeros(Step(v, false), bits[1..]);
    }
  }

  lemma StepOnZero(v: bv16)
    ensures Step(v, false) == 0 <==> v == 0
  {
  }

  lemma UnfoldFeed(v: bv16, bits: seq<bool>)
    requires bits != []
    ensures Feed(v, bits) == Feed(Step(v, bits[0]), bits[1..])
  {
  }

  lemma {:induction false} ZeroWord(n: nat)
    ensures forall k :: 0 <= k < n ==> !WordBits(0, n)[k]
  {
    if n > 0 {
      assert Half(0) == 0 && !Low(0);
      ZeroWord(n - 1);
    }
  }

  lemma {:induction false} BitsInjective(a: seq<byte>, b: seq<byte>)
    requires |a| == |b| && Bits(a) == Bits(b)
    ensures a == b
  {
    hide Bits;
    if a != [] {
      FirstByte(a, b);
      BitsInjective(a[1..], b[1..]);
      assert a == [a[0]] + a[1..] && b == [b[0]] + b[1..];
    }
  }

  lemma FirstByte(a: seq<byte>, b: seq<byte>)
    requires |a| == |b| != 0 && Bits(a) == Bits(b)
    ensures a[0] == b[0] && Bits(a[1..]) == Bits(b[1..])
  {
    hide WordBits, Fits, Low, Half;
    var x, y := WordBits(a[0] as bv16, 8), WordBits(b[0] as bv16, 8);
    assert x == Bits(a)[..8] && y == Bits(b)[..8];
    assert Bits(a[1..]) == Bits(a)[8..] && Bits(b[1..]) == Bits(b)[8..];
    ByteFits(a[0]);
    ByteFits(b[0]);
    WordBitsInjective(a[0] as bv16, b[0] as bv16, 8);
    WidenInjective(a[0], b[0]);
  }

  lemma WidenInjective(a: byte, b: byte)
    requires a as bv16 == b as bv16
    ensures a == b
  {
  }

  // ---------- a known answer ----------

  /** Eight shifts, written out. */
  lemma EightSteps(v: bv16, w: bv16, s: seq<bv16>)
    requires |s| == 9 && s[0] == v
    requires s[1] == Step(s[0], Low(w)) && s[2] == Step(s[1], Low(w >> 1)) && s[3] == Step(s[2], Low(w >> 2))
    requires s[4] == Step(s[3], Low(w >> 3)) && s[5] == Step(s[4], Low(w >> 4)) && s[6] == Step(s[5], Low(w >> 5))
    requires s[7] == Step(s[6], Low(w >> 6)) && s[8] == Step(s[7], Low(w >> 7))
    ensures Feed(v, WordBits(w, 8)) == s[8]
  {
    Halvings(w);
    hide Step, Low, Half;
    UnfoldBits(s[0], w, 8);
    UnfoldBits(s[1], w >> 1, 7);
    UnfoldBits(s[2], w >> 2, 6);
    UnfoldBits(s[3], w >> 3, 5);
    UnfoldBits(s[4], w >> 4, 4);
    UnfoldBits(s[5], w >> 5, 3);
    UnfoldBits(s[6], w >> 6, 2);
    UnfoldBits(s[7], w >> 7, 1);
  }

  lemma Halvings(w: bv16)
    ensures Half(w) == w >> 1 && Half(w >> 1) == w >> 2 && Half(w >> 2) == w >> 3 && Half(w >> 3) == w >> 4
    ensures Half(w >> 4) == w >> 5 && Half(w >> 5) == w >> 6 && Half(w >> 6) == w >> 7
  {
  }

  /** The worked example of Modbus over Serial Line V1.02, section 6.2.2: the bytes 02 07 are followed by 41 12. */
  lemma KnownAnswer()
    ensures Framed([0x02, 0x07]) == [0x02, 0x07, 0x41, 0x12]
  {
    var data: seq<byte> := [0x02, 0x07];
    var a: seq<bv16> := [0xffff, 0xdffe, 0xcffe, 0x67ff, 0x93fe, 0x49ff, 0x84fe, 0x427f, 0x813e];
    var b: seq<bv16> := [0x813e, 0xe09e, 0xd04e, 0xc826, 0x6413, 0x9208, 0x4904, 0x2482, 0x1241];
    EightSteps(0xffff, 0x02, a);
    EightSteps(a[8], 0x07, b);
    NextByte(0xffff, data);
    NextByte(a[8], data[1..]);
    CrcEnds(data, b[8]);
    assert data[0..] == data && data[1..][1..] == data[2..];
    hide Feed, Bits, WordBits;
    assert CrcOf(data) == 0x1241;
  }
}
