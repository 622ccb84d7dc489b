/** Byte order between the transaction interface and host memory. */
module ByteOrder {
  import opened Words

  // Byte i of a word, counted from the least significant one.
  function Byte(x: nat, i: nat): (b: nat)
    ensures b < 0x100
  {
    if i == 0 then x % 0x100 else Byte(x / 0x100, i - 1)
  }

  // The bytes of a 32-bit word in reverse.
  function Swap32(x: uint32): uint32 {
    Byte(x, 0) * 0x100_0000 + Byte(x, 1) * 0x1_0000 + Byte(x, 2) * 0x100 + Byte(x, 3)
  }

  // The bytes of a 64-bit word in reverse.
  function ByteReorder(q: uint64): uint64 {
    Byte(q, 0) * 0x100_0000_0000_0000 + Byte(q, 1) * 0x1_0000_0000_0000 + Byte(q, 2) * 0x100_0000_0000
    + Byte(q, 3) * 0x1_0000_0000 + Byte(q, 4) * 0x100_0000 + Byte(q, 5) * 0x1_0000 + Byte(q, 6) * 0x100 + Byte(q, 7)
  }

  lemma ByteStep(rest: nat, b: nat)
    requires b < 0x100
    ensures Byte(rest * 0x100 + b, 0) == b
    ensures forall i: nat :: Byte(rest * 0x100 + b, i + 1) == Byte(rest, i)
  {
    assert (rest * 0x100 + b) / 0x100 == rest;
  }

  // The bytes of a word made of four bytes.
  lemma FourBytes(b3: nat, b2: nat, b1: nat, b0: nat)
    requires b3 < 0x100 && b2 < 0x100 && b1 < 0x100 && b0 < 0x100
    ensures var x := b3 * 0x100_0000 + b2 * 0x1_0000 + b1 * 0x100 + b0;
            Byte(x, 0) == b0 && Byte(x, 1) == b1 && Byte(x, 2) == b2 && Byte(x, 3) == b3
  {
    hide Byte;
    var y2 := b3 * 0x100 + b2;
    var y1 := y2 * 0x100 + b1;
    var x := b3 * 0x100_0000 + b2 * 0x1_0000 + b1 * 0x100 + b0;
    assert x == y1 * 0x100 + b0;
    ByteStep(y1, b0);
    ByteStep(y2, b1);
    ByteStep(b3, b2);
    ByteStep(0, b3);
    assert Byte(x, 0 + 1) == Byte(y1, 0) && Byte(x, 1 + 1) == Byte(y1, 1) && Byte(x, 2 + 1) == Byte(y1, 2);
    assert Byte(y1, 0 + 1) == Byte(y2, 0) && Byte(y1, 1 + 1) == Byte(y2, 1);
    assert Byte(y2, 0 + 1) == Byte(b3, 0);
  }

  // A 32-bit word is made of its four bytes.
  lemma WordIsItsBytes(x: uint32)
    ensures x == Byte(x, 3) * 0x100_0000 + Byte(x, 2) * 0x1_0000 + Byte(x, 1) * 0x100 + Byte(x, 0)
  {
    hide Byte;
    var y1 := x / 0x100;
    var y2 := y1 / 0x100;
    var b3 := y2 / 0x100;
    FourBytes(b3, y2 % 0x100, y1 % 0x100, x % 0x100);
  }

  lemma SwapTwice(x: uint32)
    ensures Swap32(Swap32(x)) == x
  {
    hide Byte;
    WordIsItsBytes(x);
    FourBytes(Byte(x, 0), Byte(x, 1), Byte(x, 2), Byte(x, 3));
  }

  // Byte i comes from the mirrored place.
  lemma SwapReverses(x: uint32, i: nat)
    requires i < 4
    ensures Byte(Swap32(x), i) == Byte(x, 3 - i)
  {
    hide Byte;
    FourBytes(Byte(x, 0), Byte(x, 1), Byte(x, 2), Byte(x, 3));
  }

  lemma ReorderReverses(high: uint32, low: uint32, i: nat)
    requires i < 8
    ensures Byte(ByteReorder(Join64(high, low)), i) == Byte(Join64(high, low), 7 - i)
  {
    hide Byte, ByteReorder, Swap32;
    ReorderSwapsHalves(high, low);
    var other := 7 - i;
    if i < 4 {
      LowBytes(Swap32(low), Swap32(high), i);
      SwapReverses(high, i);
      HighBytes(high, low, other - 4);
    } else {
      HighBytes(Swap32(low), Swap32(high), i - 4);
      SwapReverses(low, i - 4);
      LowBytes(high, low, other);
    }
  }

  lemma LowBytes(high: nat, low: uint32, i: nat)
    requires i < 4
    ensures Byte(high * TWO_32 + low, i) == Byte(low, i)
  {
    hide Byte;
    WordIsItsBytes(low);
    var b3, b2, b1, b0 := Byte(low, 3), Byte(low, 2), Byte(low, 1), Byte(low, 0);
    var y3 := high * 0x100 + b3;
    var y2 := y3 * 0x100 + b2;
    var y1 := y2 * 0x100 + b1;
    assert high * TWO_32 + low == y1 * 0x100 + b0;
    ByteStep(y1, b0);
    ByteStep(y2, b1);
    ByteStep(y3, b2);
    ByteStep(high, b3);
    var q := high * TWO_32 + low;
    assert Byte(q, 0 + 1) == Byte(y1, 0) && Byte(q, 1 + 1) == Byte(y1, 1) && Byte(q, 2 + 1) == Byte(y1, 2);
    assert Byte(y1, 0 + 1) == Byte(y2, 0) && Byte(y1, 1 + 1) == Byte(y2, 1);
    assert Byte(y2, 0 + 1) == Byte(y3, 0);
  }

  lemma HighBytes(high: nat, low: uint32, i: nat)
    ensures Byte(high * TWO_32 + low, i + 4) == Byte(high, i)
  {
    hide Byte;
    WordIsItsBytes(low);
    var y3 := high * 0x100 + Byte(low, 3);
    var y2 := y3 * 0x100 + Byte(low, 2);
    var y1 := y2 * 0x100 + Byte(low, 1);
    assert high * TWO_32 + low == y1 * 0x100 + Byte(low, 0);
    ByteStep(y1, Byte(low, 0));
    ByteStep(y2, Byte(low, 1));
    ByteStep(y3, Byte(low, 2));
    ByteStep(high, Byte(low, 3));
    assert Byte(high * TWO_32 + low, (i + 3) + 1) == Byte(y1, i + 3);
    assert Byte(y1, (i + 2) + 1) == Byte(y2, i + 2);
    assert Byte(y2, (i + 1) + 1) == Byte(y3, i + 1);
  }

  // The two 32-bit words of a reordered 64-bit word are the swapped words in opposite order.
  lemma ReorderSwapsHalves(high: uint32, low: uint32)
    ensures ByteReorder(Join64(high, low)) == Join64(Swap32(low), Swap32(high))
  {
    hide Byte;
    LowBytes(high, low, 0);
    LowBytes(high, low, 1);
    LowBytes(high, low, 2);
    LowBytes(high, low, 3);
    HighBytes(high, low, 0);
    HighBytes(high, low, 1);
    HighBytes(high, low, 2);
    HighBytes(high, low, 3);
  }
}
