/** Decoding one key from the kernel's async key-state bitmap (two bits per
    key, the lower one meaning "down"), and the mouse-button helpers that the
    per-tick aggregator falls back on. */
module KeyDecode {
  import opened Words

  /** `_stateBitmap` holds 64 bytes: 2 bits for each of 256 key codes. */
  const BitmapSize: nat := 64

  /** Win32 virtual-key codes of the five mouse buttons. */
  const VK_LBUTTON: i32 := 0x01
  const VK_RBUTTON: i32 := 0x02
  const VK_MBUTTON: i32 := 0x04
  const VK_XBUTTON1: i32 := 0x05
  const VK_XBUTTON2: i32 := 0x06

  /** `(keyCode * 2) / 8` in unchecked 32-bit C# arithmetic. */
  function ByteIndex(keyCode: i32): int {
    TruncDiv(WrapI32(keyCode * 2), 8)
  }

  /** `(keyCode % 4) * 2` in C# arithmetic (negative for negative key codes). */
  function BitIndex(keyCode: i32): int {
    TruncRem(keyCode, 4) * 2
  }

  /** Bit `n` (0..7) of a byte is set. */
  predicate BitSet(b: bv8, n: nat)
    requires n < 8
  {
    b & (1 << n) != 0
  }

  /** `(b & (1 << shift)) != 0` with the byte promoted to `int`: C# masks the
      shift count to its low five bits, and no bit at or above 8 is ever set in
      a promoted byte. */
  predicate ShiftTest(b: bv8, shift: int) {
    var s := shift % 32;
    s < 8 && BitSet(b, s)
  }

  /** The decode at the end of `IsKeyDown`: the key's lower state bit, or false
      when the byte index falls outside the bitmap. */
  predicate KeyBit(bitmap: seq<bv8>, keyCode: i32) {
    var byteIndex := ByteIndex(keyCode);
    0 <= byteIndex < |bitmap| && ShiftTest(bitmap[byteIndex], BitIndex(keyCode))
  }

  /** For every non-negative key code that does not overflow `keyCode * 2`, the
      decode is bit `(K % 4) * 2` of byte `K / 4`, and false past the bitmap. */
  lemma KeyBitOfNonNegative(bitmap: seq<bv8>, keyCode: i32)
    requires 0 <= keyCode < 0x4000_0000
    ensures KeyBit(bitmap, keyCode) <==>
              keyCode / 4 < |bitmap| && BitSet(bitmap[keyCode / 4], (keyCode % 4) * 2)
  {
    assert WrapI32(keyCode * 2) == keyCode * 2;
    assert TruncDiv(keyCode * 2, 8) == keyCode / 4 by {
      var q, r := keyCode / 4, keyCode % 4;
      assert keyCode * 2 == 8 * q + 2 * r && 0 <= 2 * r < 8;
    }
    assert ByteIndex(keyCode) == keyCode / 4;
    assert BitIndex(keyCode) == (keyCode % 4) * 2;
  }

  /** Negative key codes (down to where `keyCode * 2` would overflow) never
      read as down. */
  lemma KeyBitOfNegative(bitmap: seq<bv8>, keyCode: i32)
    requires -0x4000_0000 <= keyCode < 0
    ensures !KeyBit(bitmap, keyCode)
  {
    assert WrapI32(keyCode * 2) == keyCode * 2;
    if keyCode >= -3 {
      assert ByteIndex(keyCode) == 0;
      assert BitIndex(keyCode) == keyCode * 2;
      assert BitIndex(keyCode) % 32 >= 26;
    } else {
      assert ByteIndex(keyCode) < 0;
    }
  }

  /** The decode of key `K` sees only its own bit: flipping any other bit of the
      bitmap leaves it unchanged. */
  lemma KeyBitIgnoresOtherBits(bitmap: seq<bv8>, keyCode: i32, index: nat, bit: nat)
    requires 0 <= keyCode < 0x4000_0000
    requires index < |bitmap| && bit < 8
    requires (index, bit) != (keyCode / 4, (keyCode % 4) * 2)
    ensures KeyBit(bitmap[index := bitmap[index] ^ (1 << bit)], keyCode) == KeyBit(bitmap, keyCode)
  {
    var flipped := bitmap[index := bitmap[index] ^ (1 << bit)];
    KeyBitOfNonNegative(bitmap, keyCode);
    KeyBitOfNonNegative(flipped, keyCode);
    if keyCode / 4 < |bitmap| && keyCode / 4 == index {
      var n := (keyCode % 4) * 2;
      assert n != bit;
      FlipOtherBit(bitmap[index], bit, n);
    }
  }

  lemma FlipOtherBit(b: bv8, flip: nat, n: nat)
    requires flip < 8 && n < 8 && flip != n
    ensures BitSet(b ^ (1 << flip), n) == BitSet(b, n)
  {
    assert (b ^ (1 << flip)) & (1 << n) == b & (1 << n);
  }

  /** Key codes 0..3 share byte 0: with only bit 0 of byte 0 set, key 0 is down
      and keys 1, 2 and 3 are not. */
  lemma SharedByteExample(bitmap: seq<bv8>)
    requires |bitmap| == BitmapSize && bitmap[0] == 1
    ensures KeyBit(bitmap, 0) && !KeyBit(bitmap, 1) && !KeyBit(bitmap, 2) && !KeyBit(bitmap, 3)
  {
    KeyBitOfNonNegative(bitmap, 0);
    KeyBitOfNonNegative(bitmap, 1);
    KeyBitOfNonNegative(bitmap, 2);
    KeyBitOfNonNegative(bitmap, 3);
  }

  /** `int.MinValue * 2` wraps to 0, so the most negative key code reads the same
      bit as key 0. */
  lemma MinValueAliasesKeyZero(bitmap: seq<bv8>)
    ensures KeyBit(bitmap, -0x8000_0000) == KeyBit(bitmap, 0)
  {
    assert WrapI32(-0x8000_0000 * 2) == 0;
    assert TruncRem(-0x8000_0000, 4) == 0;
  }

  /** `IsMouseVirtualKey`. */
  predicate IsMouseVirtualKey(vk: i32) {
    vk == VK_LBUTTON || vk == VK_RBUTTON || vk == VK_MBUTTON || vk == VK_XBUTTON1 || vk == VK_XBUTTON2
  }

  /** The device's own button names. */
  datatype MouseButton = Left | Right | Middle | Mouse4 | Mouse5

  /** The `switch` in `IsDeviceAimbotKeyDown`. */
  function DeviceButton(vk: i32): (r: Option<MouseButton>)
    ensures r.Some? <==> IsMouseVirtualKey(vk)
  {
    if vk == VK_LBUTTON then Some(Left)
    else if vk == VK_RBUTTON then Some(Right)
    else if vk == VK_MBUTTON then Some(Middle)
    else if vk == VK_XBUTTON1 then Some(Mouse4)
    else if vk == VK_XBUTTON2 then Some(Mouse5)
    else None
  }

  /** The switch is a bijection between the five mouse keys and the five device
      buttons. */
  lemma DeviceButtonBijective(a: i32, b: i32, button: MouseButton)
    ensures DeviceButton(a).Some? && DeviceButton(a) == DeviceButton(b) ==> a == b
    ensures exists vk: i32 :: IsMouseVirtualKey(vk) && DeviceButton(vk) == Some(button)
  {
    var vk: i32 := match button
      case Left => VK_LBUTTON
      case Right => VK_RBUTTON
      case Middle => VK_MBUTTON
      case Mouse4 => VK_XBUTTON1
      case Mouse5 => VK_XBUTTON2;
    assert IsMouseVirtualKey(vk) && DeviceButton(vk) == Some(button);
  }

  /** The hardware input device as the source reads it: connection flag, whether
      its state buffer exists, and which of its buttons report pressed. */
  datatype Device = Device(connected: bool, hasState: bool, pressed: set<MouseButton>)

  /** `IsDeviceAimbotKeyDown`. */
  function IsDeviceAimbotKeyDown(d: Device, vk: i32): (r: bool)
    ensures r <==> d.connected && d.hasState && IsMouseVirtualKey(vk) && DeviceButton(vk).value in d.pressed
  {
    if !d.connected || !d.hasState then false
    else
      match DeviceButton(vk)
      case None => false
      case Some(button) => button in d.pressed
  }

  /** `IsMouseAsyncDown`: the high bit of the `GetAsyncKeyState` result. */
  predicate IsMouseAsyncDown(asyncState: bv16) {
    asyncState & 0x8000 != 0
  }
}
