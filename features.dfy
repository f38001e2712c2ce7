/**
 * The AirPlay feature flags of src/lib.rs: the 64-bit `features` word of a
 * receiver's TXT record, read one bit (or a few bits) per flag, and the same
 * word given as two 32-bit halves.
 */
module AirPlayFeatures {

  /** `AirPlayFeatures`: one flag per capability, in the order the source declares them. */
  datatype Features = Features(
    supportsVideoV1: bool,
    supportsVideoV2: bool,
    supportsPhoto: bool,
    supportsSlideshow: bool,
    supportsScreen: bool,
    supportsAudio: bool,
    audioRedundant: bool,
    rsaAuth: bool,
    fairplayAuth: bool,
    mfiAuth: bool,
    sendArtwork: bool,
    sendTrackProgress: bool,
    sendDaapNowPlaying: bool,
    sendBplistNowPlaying: bool,
    supportsAlac: bool,
    supportsAac: bool,
    supportsAacEld: bool,
    supportsOpus: bool,
    supportsLegacyPairing: bool,
    hasUnifiedAdvertiserInfo: bool,
    isCarplay: bool,
    supportsVolume: bool,
    supportsAirplayVideoQueue: bool,
    supportsAirplayFromCloud: bool,
    supportsTlsPsk: bool,
    supportsUnifiedMediaControl: bool,
    supportsBufferedAudio: bool,
    supportsPtp: bool,
    supportsScreenMultiCodec: bool,
    supportsSystemPairing: bool,
    isApValeriaScreenSender: bool,
    supportsHomekit: bool,
    supportsCoreutils: bool,
    supportsUnifiedPairMfi: bool,
    supportsSetpeersExtendedMessage: bool,
    supportsApSync: bool,
    supportsWol: bool,
    supportsHangdog: bool,
    supportsAudioStreamConnectionSetup: bool,
    supportsAudioMediaDataControl: bool,
    supportsRfc2198Redundancy: bool)

  /**
   * `is_bit_set(v, b)`: `v & (1 << b) != 0`. The shift is on a `u64`, so a
   * `b` of 64 or more overflows; every call in the source passes a constant
   * below 64.
   */
  function IsBitSet(v: bv64, b: bv8): (r: bool)
    requires b < 64
  {
    v & (1 << b) != 0
  }

  /** Bit `b` of a 32-bit word. */
  function IsBitSet32(v: bv32, b: bv8): (r: bool)
    requires b < 32
  {
    v & (1 << b) != 0
  }

  /** `u64::from(hi) << 32 | u64::from(lo)`: `hi` is the upper half of the word and `lo` the lower. */
  function Combine(lo: bv32, hi: bv32): (x: bv64)
  {
    ((hi as bv64) << 32) | (lo as bv64)
  }

  /** `From<u64> for AirPlayFeatures`: each flag is one bit of the word, or the OR of a few. */
  function FromWord(v: bv64): (f: Features)
  {
    Features(
      supportsVideoV1 := IsBitSet(v, 0),
      supportsVideoV2 := IsBitSet(v, 49),
      supportsPhoto := IsBitSet(v, 1),
      supportsSlideshow := IsBitSet(v, 5),
      supportsScreen := IsBitSet(v, 7),
      supportsAudio := IsBitSet(v, 9),
      audioRedundant := IsBitSet(v, 11),
      rsaAuth := IsBitSet(v, 23),
      fairplayAuth := IsBitSet(v, 14),
      mfiAuth := IsBitSet(v, 26) || IsBitSet(v, 51),
      sendArtwork := IsBitSet(v, 15),
      sendTrackProgress := IsBitSet(v, 16),
      sendDaapNowPlaying := IsBitSet(v, 17),
      sendBplistNowPlaying := IsBitSet(v, 50),
      supportsAlac := IsBitSet(v, 18),
      supportsAac := IsBitSet(v, 19),
      supportsAacEld := IsBitSet(v, 20),
      supportsOpus := IsBitSet(v, 21),
      supportsLegacyPairing := IsBitSet(v, 27),
      hasUnifiedAdvertiserInfo := IsBitSet(v, 30),
      isCarplay := IsBitSet(v, 32),
      supportsVolume := !IsBitSet(v, 32),
      supportsAirplayVideoQueue := IsBitSet(v, 33),
      supportsAirplayFromCloud := IsBitSet(v, 34),
      supportsTlsPsk := IsBitSet(v, 35),
      supportsUnifiedMediaControl := IsBitSet(v, 38),
      supportsBufferedAudio := IsBitSet(v, 40),
      supportsPtp := IsBitSet(v, 41),
      supportsScreenMultiCodec := IsBitSet(v, 42),
      supportsSystemPairing := IsBitSet(v, 43),
      isApValeriaScreenSender := IsBitSet(v, 44),
      supportsHomekit := IsBitSet(v, 46),
      supportsCoreutils := IsBitSet(v, 38) || IsBitSet(v, 43) || IsBitSet(v, 46) || IsBitSet(v, 48),
      supportsUnifiedPairMfi := IsBitSet(v, 51),
      supportsSetpeersExtendedMessage := IsBitSet(v, 52),
      supportsApSync := IsBitSet(v, 54),
      supportsWol := IsBitSet(v, 55) || IsBitSet(v, 56),
      supportsHangdog := IsBitSet(v, 58),
      supportsAudioStreamConnectionSetup := IsBitSet(v, 59),
      supportsAudioMediaDataControl := IsBitSet(v, 60),
      supportsRfc2198Redundancy := IsBitSet(v, 61))
  }

  /**
   * `From<(u32, u32)> for AirPlayFeatures`: the first half is the low word.
   * Read from two halves, CarPlay, volume control and video v2 (bits 32 and
   * 49 of the word) come from the high half, and MFi authentication (bit 26
   * or bit 51) from either.
   */
  function FromPair(lo: bv32, hi: bv32): (f: Features)
    ensures f.isCarplay == IsBitSet32(hi, 0) && f.supportsVolume == !IsBitSet32(hi, 0)
    ensures f.supportsVideoV2 == IsBitSet32(hi, 17)
    ensures f.mfiAuth == (IsBitSet32(lo, 26) || IsBitSet32(hi, 19))
  {
    LowBit(lo, hi, 26);
    HighBit(lo, hi, 32);
    HighBit(lo, hi, 49);
    HighBit(lo, hi, 51);
    WordFlags(Combine(lo, hi), lo, hi);
    FromWord(Combine(lo, hi))
  }

  lemma WordFlags(x: bv64, lo: bv32, hi: bv32)
    requires IsBitSet(x, 32) == IsBitSet32(hi, 0) && IsBitSet(x, 49) == IsBitSet32(hi, 17)
    requires IsBitSet(x, 26) == IsBitSet32(lo, 26) && IsBitSet(x, 51) == IsBitSet32(hi, 19)
    ensures FromWord(x).isCarplay == IsBitSet32(hi, 0) && FromWord(x).supportsVolume == !IsBitSet32(hi, 0)
    ensures FromWord(x).supportsVideoV2 == IsBitSet32(hi, 17)
    ensures FromWord(x).mfiAuth == (IsBitSet32(lo, 26) || IsBitSet32(hi, 19))
  {
  }

  /** `is_bit_set` tests exactly bit `b`: the bit that shifting right by `b` brings to the bottom. */
  lemma BitTest(v: bv64, b: bv8)
    requires b < 64
    ensures IsBitSet(v, b) <==> (v >> b) & 1 == 1
  {
  }

  /** Bit `i` of the combined word is bit `i` of the low half below 32 and bit `i - 32` of the high half above. */
  lemma PairBits(lo: bv32, hi: bv32)
    ensures forall i: bv8 :: i < 32 ==> (IsBitSet(Combine(lo, hi), i) <==> IsBitSet32(lo, i))
    ensures forall i: bv8 :: 32 <= i < 64 ==> (IsBitSet(Combine(lo, hi), i) <==> IsBitSet32(hi, i - 32))
  {
    forall i: bv8 | i < 32
      ensures IsBitSet(Combine(lo, hi), i) <==> IsBitSet32(lo, i)
    {
      LowBit(lo, hi, i);
    }
    forall i: bv8 | 32 <= i < 64
      ensures IsBitSet(Combine(lo, hi), i) <==> IsBitSet32(hi, i - 32)
    {
      HighBit(lo, hi, i);
    }
  }

  lemma LowBit(lo: bv32, hi: bv32, i: bv8)
    requires i < 32
    ensures IsBitSet(Combine(lo, hi), i) <==> IsBitSet32(lo, i)
  {
  }

  lemma HighBit(lo: bv32, hi: bv32, i: bv8)
    requires 32 <= i < 64
    ensures IsBitSet(Combine(lo, hi), i) <==> IsBitSet32(hi, i - 32)
  {
  }

  /** `supports_volume` and `is_carplay` both read bit 32, one negated: exactly one of them holds. */
  lemma VolumeIsNotCarplay(v: bv64)
    ensures FromWord(v).supportsVolume == !FromWord(v).isCarplay
    ensures FromWord(v).isCarplay <==> (v >> 32) & 1 == 1
  {
    BitTest(v, 32);
  }

  /** `mfi_auth` is bit 26 or bit 51, so a receiver with unified MFi pairing (bit 51) also claims MFi authentication. */
  lemma MfiAuth(v: bv64)
    ensures FromWord(v).mfiAuth <==> (v >> 26) & 1 == 1 || (v >> 51) & 1 == 1
    ensures FromWord(v).supportsUnifiedPairMfi ==> FromWord(v).mfiAuth
  {
    BitTest(v, 26);
    BitTest(v, 51);
  }

  /**
   * `supports_coreutils` is any of bits 38, 43, 46 and 48, so unified media
   * control, system pairing and HomeKit each imply it.
   */
  lemma Coreutils(v: bv64)
    ensures FromWord(v).supportsCoreutils <==>
      FromWord(v).supportsUnifiedMediaControl || FromWord(v).supportsSystemPairing ||
      FromWord(v).supportsHomekit || (v >> 48) & 1 == 1
  {
    BitTest(v, 48);
  }

  /** A word with no bit set claims nothing but volume control, which is the absence of the CarPlay bit. */
  lemma ZeroWord()
    ensures FromWord(0) == Features(
      false, false, false, false, false, false, false, false, false, false,
      false, false, false, false, false, false, false, false, false, false,
      false, true, false, false, false, false, false, false, false, false,
      false, false, false, false, false, false, false, false, false, false,
      false)
  {
  }
}
