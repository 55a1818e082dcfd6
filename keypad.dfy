/** The byte that `,` stores: the state of eight keys, one bit each, from Z in the
    most significant bit down to RIGHT in the least. */
module Keypad {

  /** Which of the eight keys are held down. */
  datatype Keys = Keys(z: bool, x: bool, enter: bool, space: bool, up: bool, down: bool, left: bool, right: bool)

  /** The bit of each key. */
  const ZBit: bv8 := 0x80
  const XBit: bv8 := 0x40
  const EnterBit: bv8 := 0x20
  const SpaceBit: bv8 := 0x10
  const UpBit: bv8 := 0x08
  const DownBit: bv8 := 0x04
  const LeftBit: bv8 := 0x02
  const RightBit: bv8 := 0x01

  /** `mask` when `held`, otherwise nothing. */
  function BitIf(held: bool, mask: bv8): bv8 {
    if held then mask else 0
  }

  /** The key byte: starting from 0, the bit of every held key is ORed in. Each
      bit of the result is set exactly when its key is held. */
  function Pack(k: Keys): (b: bv8)
    ensures b & ZBit != 0 <==> k.z
    ensures b & XBit != 0 <==> k.x
    ensures b & EnterBit != 0 <==> k.enter
    ensures b & SpaceBit != 0 <==> k.space
    ensures b & UpBit != 0 <==> k.up
    ensures b & DownBit != 0 <==> k.down
    ensures b & LeftBit != 0 <==> k.left
    ensures b & RightBit != 0 <==> k.right
  {
    BitIf(k.z, ZBit) | BitIf(k.x, XBit) | BitIf(k.enter, EnterBit) | BitIf(k.space, SpaceBit) |
    BitIf(k.up, UpBit) | BitIf(k.down, DownBit) | BitIf(k.left, LeftBit) | BitIf(k.right, RightBit)
  }

  /** The keys a byte reports as held; every byte is the packing of exactly these keys. */
  function Unpack(b: bv8): (k: Keys)
    ensures Pack(k) == b
  {
    Keys(b & ZBit != 0, b & XBit != 0, b & EnterBit != 0, b & SpaceBit != 0,
         b & UpBit != 0, b & DownBit != 0, b & LeftBit != 0, b & RightBit != 0)
  }

  /** Packing loses no key: the keys can be read back from the byte. */
  lemma UnpackPack(k: Keys)
    ensures Unpack(Pack(k)) == k
  {
  }

  /** No key held gives 0; each key alone gives its own bit. */
  lemma SingleKeys()
    ensures Pack(Keys(false, false, false, false, false, false, false, false)) == 0
    ensures Pack(Keys(true, false, false, false, false, false, false, false)) == 0x80
    ensures Pack(Keys(false, false, false, false, false, false, false, true)) == 0x01
  {
  }

  /** Z and RETURN together give 0xA0. */
  lemma ZAndEnter()
    ensures Pack(Keys(true, false, true, false, false, false, false, false)) == 0xA0
  {
  }
}
