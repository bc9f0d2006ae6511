/**
  The host-side CompactLength helpers that the build script of taffy-wasm emits as
  TypeScript: the eight tag constants, the eight constructors and the two readers
  `getTag` and `getValue`.

  A CompactLength is a BigInt. Its "natural" layout puts the f32 payload bits in the
  high 32 bits and the tag in the low 8 bits; the constructors swap the two 32-bit
  halves before handing the word out, so that an encoded word carries the tag in its
  high half and the payload in its low half.

  The f32 payload is an opaque 32-bit pattern (`U32`): the conversion of a JS number
  to those bits, and back, is not modelled.

  The readers are modelled as written. Their "unrotate" step puts the high half back
  into the high half and the low half into the low half, so it returns its input
  unchanged (for words below 2^64): `getTag` reads the low byte of the word as
  handed out, which holds payload bits, not the tag, and `getValue` reads the high
  half, which holds the tag. `DecodeTag` and `DecodePayloadBits` are the readers
  with the half swap their comments describe, and `EncodeDecodeRoundTrip` is proved
  for them.
 */
module CompactLength {
  import opened BigIntBits

  const Two32: nat := 0x1_0000_0000
  const Two64: nat := 0x1_0000_0000_0000_0000

  /** The bit pattern of an f32, as `getUint32` returns it. */
  type U32 = x: nat | x < 0x1_0000_0000

  // Tag constants
  const LENGTH_TAG: nat := 0x01
  const PERCENT_TAG: nat := 0x02
  const AUTO_TAG: nat := 0x03
  const FR_TAG: nat := 0x04
  const MIN_CONTENT_TAG: nat := 0x07
  const MAX_CONTENT_TAG: nat := 0x0F
  const FIT_CONTENT_PX_TAG: nat := 0x17
  const FIT_CONTENT_PERCENT_TAG: nat := 0x1F

  const Tags: seq<nat> := [LENGTH_TAG, PERCENT_TAG, AUTO_TAG, FR_TAG,
                           MIN_CONTENT_TAG, MAX_CONTENT_TAG, FIT_CONTENT_PX_TAG, FIT_CONTENT_PERCENT_TAG]

  /** The eight tags are pairwise distinct and fit in the low byte. */
  lemma TagsDistinctBytes()
    ensures |Tags| == 8
    ensures forall i :: 0 <= i < |Tags| ==> Tags[i] < 0x100
    ensures forall i, j :: 0 <= i < j < |Tags| ==> Tags[i] != Tags[j]
  {
  }

  // ---------------------------------------------------------------------------
  // The BigInt operations used below, read as arithmetic

  lemma Low32(x: nat)
    ensures BitAnd(x, 0xFFFF_FFFF) == x % Two32
  {
    Pow2Values();
    AndLowMask(x, 32);
  }

  lemma Low8(x: nat)
    ensures BitAnd(x, 0xFF) == x % 0x100
  {
    Pow2Values();
    AndLowMask(x, 8);
  }

  lemma Shift32(x: nat)
    ensures ShiftLeft(x, 32) == x * Two32
    ensures ShiftRight(x, 32) == x / Two32
  {
    Pow2Values();
  }

  /** `(hi << 32n) | lo` with `lo` below 2^32 places `hi` above `lo` without overlap. */
  lemma JoinHalves(hi: nat, lo: nat)
    requires lo < Two32
    ensures BitOr(ShiftLeft(hi, 32), lo) == hi * Two32 + lo
  {
    Pow2Values();
    OrDisjoint(ShiftLeft(hi, 32), lo, 32);
  }

  /** A number below `m` is its own remainder modulo `m`. */
  lemma Small(x: nat, m: nat)
    requires x < m
    ensures x % m == x && x / m == 0
  {
    DivModUnique(x, m, 0, x);
  }

  /** The high half of a 64-bit word is below 2^32. */
  lemma HighBelow(w: nat)
    requires w < Two64
    ensures w / Two32 < Two32
    ensures (w / Two32) % Two32 == w / Two32
  {
    var hi := w / Two32;
    assert w == hi * Two32 + w % Two32;
    Small(hi, Two32);
  }

  /** The halves of a word `hi * 2^32 + lo`. */
  lemma Halves(hi: nat, lo: nat)
    requires lo < Two32
    ensures (hi * Two32 + lo) / Two32 == hi
    ensures (hi * Two32 + lo) % Two32 == lo
  {
    DivModUnique(hi * Two32 + lo, Two32, hi, lo);
  }

  // ---------------------------------------------------------------------------
  // Constructors

  /**
    The encoders' serialisation step, "rotate left 32":
    `((w & 0xFFFFFFFFn) << 32n) | ((w >> 32n) & 0xFFFFFFFFn)`.
    The low half of `w` becomes the high half of the result and the second 32 bits
    of `w` become the low half; anything of `w` above bit 63 is dropped.
   */
  function SwapHalves(w: nat): (r: nat)
    ensures r == (w % Two32) * Two32 + (w / Two32) % Two32
    ensures r < Two64
  {
    var low32 := BitAnd(w, 0xFFFF_FFFF);
    var high32 := BitAnd(ShiftRight(w, 32), 0xFFFF_FFFF);
    Low32(w);
    Shift32(w);
    Low32(w / Two32);
    JoinHalves(low32, high32);
    BitOr(ShiftLeft(low32, 32), high32)
  }

  /** On 64-bit words the half swap is its own inverse. */
  lemma SwapHalvesInvolution(w: nat)
    requires w < Two64
    ensures SwapHalves(SwapHalves(w)) == w
  {
    var hi, lo := w / Two32, w % Two32;
    assert w == hi * Two32 + lo;
    HighBelow(w);
    Small(lo, Two32);
    var s := SwapHalves(w);
    assert s == lo * Two32 + hi;
    Halves(lo, hi);
    assert SwapHalves(s) == hi * Two32 + lo;
  }

  /**
    The natural layout `(bits << 32n) | tag`: the payload sits in the high half and the
    tag in the low half, and OR-ing the tag in leaves every payload bit as it was.
   */
  function Tagged(bits: U32, tag: nat): (r: nat)
    requires tag < Two32
    ensures r == bits * Two32 + tag && r < Two64
    ensures r / Two32 == bits && r % Two32 == tag
  {
    JoinHalves(bits, tag);
    Halves(bits, tag);
    BitOr(ShiftLeft(bits, 32), tag)
  }

  /** A payload-carrying constructor: the tagged word, halves swapped. */
  function EncodePayload(tag: nat, bits: U32): (r: nat)
    requires tag < Two32
    ensures r == tag * Two32 + bits && r < Two64
    ensures r / Two32 == tag && r % Two32 == bits
  {
    var t := Tagged(bits, tag);
    Small(bits, Two32);
    Halves(tag, bits);
    SwapHalves(t)
  }

  /** A constructor without payload: `BigInt(tag)`, halves swapped. */
  function EncodeBare(tag: nat): (r: nat)
    requires tag < Two32
    ensures r == tag * Two32 && r < Two64
    ensures r / Two32 == tag && r % Two32 == 0
  {
    Small(tag, Two32);
    Halves(tag, 0);
    SwapHalves(tag)
  }

  function Length(bits: U32): (r: nat)
    ensures r / Two32 == LENGTH_TAG && r % Two32 == bits
  {
    EncodePayload(LENGTH_TAG, bits)
  }

  function Percent(bits: U32): (r: nat)
    ensures r / Two32 == PERCENT_TAG && r % Two32 == bits
  {
    EncodePayload(PERCENT_TAG, bits)
  }

  function Auto(): (r: nat)
    ensures r / Two32 == AUTO_TAG && r % Two32 == 0
  {
    EncodeBare(AUTO_TAG)
  }

  function Fr(bits: U32): (r: nat)
    ensures r / Two32 == FR_TAG && r % Two32 == bits
  {
    EncodePayload(FR_TAG, bits)
  }

  function MinContent(): (r: nat)
    ensures r / Two32 == MIN_CONTENT_TAG && r % Two32 == 0
  {
    EncodeBare(MIN_CONTENT_TAG)
  }

  function MaxContent(): (r: nat)
    ensures r / Two32 == MAX_CONTENT_TAG && r % Two32 == 0
  {
    EncodeBare(MAX_CONTENT_TAG)
  }

  function FitContentPx(bits: U32): (r: nat)
    ensures r / Two32 == FIT_CONTENT_PX_TAG && r % Two32 == bits
  {
    EncodePayload(FIT_CONTENT_PX_TAG, bits)
  }

  function FitContentPercent(bits: U32): (r: nat)
    ensures r / Two32 == FIT_CONTENT_PERCENT_TAG && r % Two32 == bits
  {
    EncodePayload(FIT_CONTENT_PERCENT_TAG, bits)
  }

  // ---------------------------------------------------------------------------
  // Readers, as written

  /**
    The readers' "unrotate" step, `((v >> 32n) & 0xFFFFFFFFn) << 32n | (v & 0xFFFFFFFFn)`:
    it rebuilds the low 64 bits of `v` in their own places.
   */
  function Unrotate(v: nat): (r: nat)
    ensures r == v % Two64
  {
    var low32 := BitAnd(v, 0xFFFF_FFFF);
    var high32 := BitAnd(ShiftRight(v, 32), 0xFFFF_FFFF);
    Low32(v);
    Shift32(v);
    Low32(v / Two32);
    JoinHalves(high32, low32);
    ModSplit(v, Two32, Two32);
    BitOr(ShiftLeft(high32, 32), low32)
  }

  /** The "unrotate" step changes a word exactly when the word does not fit in 64 bits. */
  lemma UnrotateIsIdentity(v: nat)
    ensures Unrotate(v) == v <==> v < Two64
  {
    if v < Two64 {
      DivModUnique(v, Two64, 0, v);
    }
  }

  /** `getTag`: `unrotated & 0xFFn`; it is the low byte of its argument. */
  function GetTag(v: nat): (r: nat)
    ensures r == v % 0x100
    ensures r == BitAnd(v, 0xFF)
  {
    var u := Unrotate(v);
    Low8(u);
    Low8(v);
    ModSplit(v, 0x100, 0x100_0000_0000_0000);
    DivModUnique(u, 0x100, (v / 0x100) % 0x100_0000_0000_0000, v % 0x100);
    BitAnd(u, 0xFF)
  }

  /**
    The bits `getValue` hands to `setUint32`: `Number(unrotated >> 32n)`. They are
    the second 32 bits of the argument, so always a valid `Uint32`.
   */
  function GetValueBits(v: nat): (r: nat)
    ensures r == (v / Two32) % Two32 && r < Two32
  {
    var u := Unrotate(v);
    Shift32(u);
    ModSplit(v, Two32, Two32);
    Halves((v / Two32) % Two32, v % Two32);
    ShiftRight(u, 32)
  }

  /** On 64-bit words `getValue` reads the high half unchanged: `v >> 32n`. */
  lemma GetValueBitsIsHighHalf(v: nat)
    requires v < Two64
    ensures GetValueBits(v) == ShiftRight(v, 32)
  {
    Shift32(v);
    HighBelow(v);
  }

  /**
    What the readers as written return for a payload-carrying word: `getTag` yields the
    low byte of the payload and `getValue` yields the tag as payload bits.
   */
  lemma ReadersOnPayloadWord(tag: nat, bits: U32)
    requires tag < Two32
    ensures GetTag(EncodePayload(tag, bits)) == bits % 0x100
    ensures GetValueBits(EncodePayload(tag, bits)) == tag
  {
    var w := EncodePayload(tag, bits);
    Small(tag, Two32);
    assert w == 0x100 * (tag * 0x100_0000 + bits / 0x100) + bits % 0x100;
    DivModUnique(w, 0x100, tag * 0x100_0000 + bits / 0x100, bits % 0x100);
  }

  /** For a word without payload, `getTag` yields 0 and `getValue` yields the tag. */
  lemma ReadersOnBareWord(tag: nat)
    requires tag < Two32
    ensures GetTag(EncodeBare(tag)) == 0
    ensures GetValueBits(EncodeBare(tag)) == tag
  {
    var w := EncodeBare(tag);
    Small(tag, Two32);
    assert w == 0x100 * (tag * 0x100_0000);
    DivModUnique(w, 0x100, tag * 0x100_0000, 0);
  }

  /** `getTag(auto())` is 0, which is no tag at all, instead of `AUTO_TAG`. */
  lemma GetTagOfAutoIsNotAutoTag()
    ensures GetTag(Auto()) == 0 != AUTO_TAG
    ensures GetValueBits(Auto()) == AUTO_TAG
  {
    ReadersOnBareWord(AUTO_TAG);
  }

  /**
    `getTag(length(x))` is the low byte of the bits of `x`, so it is 0 for every `x`
    whose low byte is 0 (1.0f32, bits 0x3F800000, is one), and `getValue` of it
    reinterprets `LENGTH_TAG` as f32 bits.
   */
  lemma GetTagOfLengthIsPayloadByte(bits: U32)
    requires bits % 0x100 == 0
    ensures GetTag(Length(bits)) == 0 != LENGTH_TAG
    ensures GetValueBits(Length(bits)) == LENGTH_TAG
  {
    ReadersOnPayloadWord(LENGTH_TAG, bits);
  }

  // ---------------------------------------------------------------------------
  // Readers with the half swap their comments describe ("rotate right 32")

  /** The tag of a word as handed out: the low byte of the swapped word. */
  function DecodeTag(v: nat): (r: nat)
    ensures r == ((v / Two32) % Two32) % 0x100
  {
    var u := SwapHalves(v);
    Low8(u);
    assert u == 0x100 * ((v % Two32) * 0x100_0000 + ((v / Two32) % Two32) / 0x100)
                + ((v / Two32) % Two32) % 0x100;
    DivModUnique(u, 0x100, (v % Two32) * 0x100_0000 + ((v / Two32) % Two32) / 0x100,
                 ((v / Two32) % Two32) % 0x100);
    BitAnd(u, 0xFF)
  }

  /** The payload bits of a word as handed out: the high half of the swapped word. */
  function DecodePayloadBits(v: nat): (r: U32)
    ensures r == v % Two32
  {
    var u := SwapHalves(v);
    Shift32(u);
    Halves(v % Two32, (v / Two32) % Two32);
    ShiftRight(u, 32)
  }

  /** Every constructor round-trips through the corrected readers, bit for bit. */
  lemma EncodeDecodeRoundTrip(bits: U32)
    ensures DecodeTag(Length(bits)) == LENGTH_TAG && DecodePayloadBits(Length(bits)) == bits
    ensures DecodeTag(Percent(bits)) == PERCENT_TAG && DecodePayloadBits(Percent(bits)) == bits
    ensures DecodeTag(Auto()) == AUTO_TAG && DecodePayloadBits(Auto()) == 0
    ensures DecodeTag(Fr(bits)) == FR_TAG && DecodePayloadBits(Fr(bits)) == bits
    ensures DecodeTag(MinContent()) == MIN_CONTENT_TAG && DecodePayloadBits(MinContent()) == 0
    ensures DecodeTag(MaxContent()) == MAX_CONTENT_TAG && DecodePayloadBits(MaxContent()) == 0
    ensures DecodeTag(FitContentPx(bits)) == FIT_CONTENT_PX_TAG
    ensures DecodePayloadBits(FitContentPx(bits)) == bits
    ensures DecodeTag(FitContentPercent(bits)) == FIT_CONTENT_PERCENT_TAG
    ensures DecodePayloadBits(FitContentPercent(bits)) == bits
  {
    DecodeEncodePayload(LENGTH_TAG, bits);
    DecodeEncodePayload(PERCENT_TAG, bits);
    DecodeEncodePayload(AUTO_TAG, bits);
    DecodeEncodePayload(FR_TAG, bits);
    DecodeEncodePayload(MIN_CONTENT_TAG, bits);
    DecodeEncodePayload(MAX_CONTENT_TAG, bits);
    DecodeEncodePayload(FIT_CONTENT_PX_TAG, bits);
    DecodeEncodePayload(FIT_CONTENT_PERCENT_TAG, bits);
  }

  /** The corrected readers recover tag and payload of any word built by the two encoders. */
  lemma DecodeEncodePayload(tag: nat, bits: U32)
    requires tag < 0x100
    ensures DecodeTag(EncodePayload(tag, bits)) == tag
    ensures DecodePayloadBits(EncodePayload(tag, bits)) == bits
    ensures DecodeTag(EncodeBare(tag)) == tag
    ensures DecodePayloadBits(EncodeBare(tag)) == 0
  {
    Small(tag, Two32);
    Small(tag, 0x100);
  }
}
