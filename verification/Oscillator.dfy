/**
 The oscillator chip behind the reference clock: how its settings are packed into byte registers, and the order in
 which they are written and read back. The settings registers change only while the output is frozen.
 */
module Oscillator {
  import opened Bits
  import opened Options
  import opened Words
  import RefClock

  const SETTINGS: nat := 13
  const SETTINGS_END: nat := 19
  const RFMC: Byte := 135
  const FREEZE: Byte := 137
  const M_NEWFREQ: Byte := 0x40
  const FREEZE_DCO: Byte := 0x10
  const MULTIPLIERS: nat := 0x40_0000_0000
  const DEFAULT_FXTAL: real := 114.285
  const TIMEOUT_PATTERN: uint32 := 0xa5a5_a5a5

  datatype Settings = Settings(hsDiv: uint32, n1: uint32, rfreq: uint64)

  // HS_DIV has three bits and is stored minus 4, N1 has seven and is stored minus 1, the multiplier has 38.
  predicate Fits(s: Settings) {
    4 <= s.hsDiv <= 11 && 1 <= s.n1 <= 128 && s.rfreq < MULTIPLIERS
  }

  // What the driver writes: each value keeps the low byte of what it computes in 32-bit or 64-bit arithmetic.
  function Register13(s: Settings): Byte {
    var hs, n1 := (s.hsDiv - 4) * 0x20 % 0x100, (s.n1 - 1) / 4 % 0x100;
    ByteOr(hs, n1);
    Or(hs, n1)
  }

  function Register14(s: Settings): Byte {
    var n1, high := (s.n1 - 1) % 4 * 0x40, s.rfreq / TWO_32 % 0x100;
    ByteOr(n1, high);
    Or(n1, high)
  }

  function MultiplierByte(rfreq: uint64, i: nat): Byte
    requires i < 4
  {
    rfreq / Pow2((3 - i) * 8) % 0x100
  }

  function Packed(s: Settings): seq<Byte> {
    [Register13(s), Register14(s), MultiplierByte(s.rfreq, 0), MultiplierByte(s.rfreq, 1), MultiplierByte(s.rfreq, 2),
     MultiplierByte(s.rfreq, 3)]
  }

  // What the chip's registers mean.
  function Unpacked(b: seq<Byte>): Settings
    requires |b| == 6
  {
    Settings(b[0] / 0x20 + 4, At(b, 0) % 0x20 * 4 + b[1] / 0x40 + 1, Multiplier(b, 4))
  }

  function At(b: seq<Byte>, i: nat): (x: nat)
    requires |b| == 6 && i < 6
    ensures x < 0x100
  {
    b[i]
  }

  // The multiplier's high bits followed by its first i whole bytes, in place.
  function Multiplier(b: seq<Byte>, i: nat): (x: uint64)
    requires |b| == 6 && i <= 4
    ensures x < MULTIPLIERS
  {
    At(b, 1) % 0x40 * 0x1_0000_0000
    + (if i > 0 then At(b, 2) * 0x100_0000 else 0)
    + (if i > 1 then At(b, 3) * 0x1_0000 else 0)
    + (if i > 2 then At(b, 4) * 0x100 else 0)
    + (if i > 3 then At(b, 5) else 0)
  }

  lemma ByteOr(a: Byte, b: Byte)
    ensures Or(a, b) < 0x100
  {
    assert Pow2(4) == 16;
    assert Pow2(8) == 256;
    OrBelow(8, a, b);
  }

  lemma {:induction false} OrBelow(k: nat, a: nat, b: nat)
    requires a < Pow2(k) && b < Pow2(k)
    ensures Or(a, b) < Pow2(k)
  {
    if k > 0 {
      OrBelow(k - 1, a / 2, b / 2);
    }
  }

  // For settings the chip can hold, the packed fields do not overlap.
  lemma RegistersAre(s: Settings)
    requires Fits(s)
    ensures Register13(s) == (s.hsDiv - 4) * 0x20 + (s.n1 - 1) / 4
    ensures Register14(s) == (s.n1 - 1) % 4 * 0x40 + s.rfreq / TWO_32
  {
    Powers();
    hide Or, Pow2;
    var hs, quarter, rest, high := s.hsDiv - 4, (s.n1 - 1) / 4, (s.n1 - 1) % 4, s.rfreq / TWO_32;
    assert hs < 8 && quarter < 0x20 && rest < 4 && high < 0x40;
    OrIsSum(hs, 5, quarter);
    OrIsSum(rest, 6, high);
  }

  lemma BytesAre(rfreq: uint64)
    ensures MultiplierByte(rfreq, 0) == rfreq / 0x100_0000 % 0x100
    ensures MultiplierByte(rfreq, 1) == rfreq / 0x1_0000 % 0x100
    ensures MultiplierByte(rfreq, 2) == rfreq / 0x100 % 0x100
    ensures MultiplierByte(rfreq, 3) == rfreq % 0x100
  {
    Powers();
    hide Pow2;
  }

  // A number is its bytes.
  lemma NumberIsItsBytes(x: nat)
    ensures x == x / TWO_32 * TWO_32 + x / 0x100_0000 % 0x100 * 0x100_0000 + x / 0x1_0000 % 0x100 * 0x1_0000
                 + x / 0x100 % 0x100 * 0x100 + x % 0x100
  {
    var x1 := x / 0x100;
    var x2 := x1 / 0x100;
    var x3 := x2 / 0x100;
    assert x / 0x1_0000 == x2 && x / 0x100_0000 == x3 && x / TWO_32 == x3 / 0x100;
  }

  lemma BytesOfNumber(high: nat, b0: Byte, b1: Byte, b2: Byte, b3: Byte)
    ensures var x := high * TWO_32 + b0 as nat * 0x100_0000 + b1 as nat * 0x1_0000 + b2 as nat * 0x100 + b3;
            x / TWO_32 == high && x / 0x100_0000 % 0x100 == b0 && x / 0x1_0000 % 0x100 == b1
            && x / 0x100 % 0x100 == b2 && x % 0x100 == b3
  {
    var x3: nat := high * 0x100 + b0;
    var x2: nat := x3 * 0x100 + b1;
    var x1: nat := x2 * 0x100 + b2;
    var x := x1 * 0x100 + b3;
    assert x / 0x100 == x1 && x1 / 0x100 == x2 && x2 / 0x100 == x3;
    assert x / 0x1_0000 == x2 && x / 0x100_0000 == x3 && x / TWO_32 == high;
  }

  // Programming and reading back recovers exactly the settings that fit the registers.
  lemma SettingsRoundTrip(s: Settings)
    ensures Unpacked(Packed(s)) == s <==> Fits(s)
  {
    hide Register13, Register14, MultiplierByte;
    if Fits(s) {
      RegistersAre(s);
      BytesAre(s.rfreq);
      NumberIsItsBytes(s.rfreq);
      FieldsApart(s.hsDiv - 4, (s.n1 - 1) / 4, 0x20);
      FieldsApart((s.n1 - 1) % 4, s.rfreq / TWO_32, 0x40);
    }
  }

  lemma FieldsApart(a: nat, b: nat, unit: nat)
    requires unit == 0x20 || unit == 0x40
    requires b < unit
    ensures (a * unit + b) / unit == a && (a * unit + b) % unit == b
  {
  }

  // Every register content is the image of the settings read from it.
  lemma RegistersRoundTrip(b: seq<Byte>)
    requires |b| == 6
    ensures Fits(Unpacked(b)) && Packed(Unpacked(b)) == b
  {
    hide Register13, Register14, MultiplierByte, Multiplier;
    var s := Unpacked(b);
    MultiplierBytes(b);
    RegistersAre(s);
    BytesAre(s.rfreq);
    FieldsApart(At(b, 0) % 0x20, At(b, 1) / 0x40, 0x40);
  }

  lemma MultiplierBytes(b: seq<Byte>)
    requires |b| == 6
    ensures var x := Multiplier(b, 4);
            && x / TWO_32 == At(b, 1) % 0x40
            && x / 0x100_0000 % 0x100 == b[2] && x / 0x1_0000 % 0x100 == b[3]
            && x / 0x100 % 0x100 == b[4] && x % 0x100 == b[5]
  {
    BytesOfNumber(At(b, 1) % 0x40, b[2], b[3], b[4], b[5]);
  }

  // The search's settings fit the registers unless the crystal is more than 1024 times slower than the DCO.
  lemma SearchedSettingsFit(frequency: real, fxtal: real, n: int, h: int)
    requires fxtal > 0.0 && RefClock.Candidate(frequency, n, h)
    ensures var o := RefClock.OptionsFor(frequency, fxtal, n, h);
            0 <= o.rfreqInt && (o.rfreqInt < MULTIPLIERS <==> o.fdco < 1024.0 * fxtal)
  {
    hide RefClock.Dco;
    RefClock.CandidatesAreInRange(frequency);
    RefClock.RangeIs(frequency, n, h);
    var dco := RefClock.Dco(frequency, h, n);
    var x := dco / fxtal;
    QuotientBelow(x, dco, fxtal, 1024.0);
    QuotientBelow(x, dco, fxtal, 0.0);
    var scale := RefClock.TWO_28 as real;
    var y := x * scale;
    assert y < 1024.0 * scale <==> x < 1024.0;
    assert 1024.0 * scale == MULTIPLIERS as real;
    assert RefClock.Float2Hex(x) == y.Floor;
    assert y >= 0.0;
    assert y.Floor < MULTIPLIERS <==> y < MULTIPLIERS as real;
  }

  lemma QuotientBelow(x: real, dco: real, fxtal: real, bound: real)
    requires fxtal > 0.0 && x == dco / fxtal
    ensures x < bound <==> dco < bound * fxtal
  {
    assert x * fxtal == dco;
    var d := bound - x;
    assert d * fxtal == bound * fxtal - dco;
    if d > 0.0 {
      assert d * fxtal > 0.0;
    } else {
      assert -d * fxtal >= 0.0;
    }
  }

  lemma GatherStart(b: seq<Byte>)
    requires |b| == 6
    ensures Multiplier(b, 0) == At(b, 1) % 0x40 * 0x1_0000_0000
  {
  }

  // Reading gathers the multiplier a byte at a time.
  lemma GatherStep(b: seq<Byte>, i: nat)
    requires |b| == 6 && i < 4
    ensures Or(Multiplier(b, i), At(b, i + 2) * Pow2((3 - i) * 8)) == Multiplier(b, i + 1)
  {
    Powers();
    hide Or, Pow2;
    if i == 0 {
      OrIsSum(At(b, 1) % 0x40, 32, At(b, 2) * 0x100_0000);
    } else if i == 1 {
      OrIsSum(At(b, 1) % 0x40 * 0x100 + At(b, 2), 24, At(b, 3) * 0x1_0000);
    } else if i == 2 {
      OrIsSum(At(b, 1) % 0x40 * 0x1_0000 + At(b, 2) * 0x100 + At(b, 3), 16, At(b, 4) * 0x100);
    } else {
      OrIsSum(At(b, 1) % 0x40 * 0x100_0000 + At(b, 2) * 0x1_0000 + At(b, 3) * 0x100 + At(b, 4), 8, At(b, 5));
    }
  }

  // The frequency in MHz that getLastFout makes of the stored value in Hz; 0 when there is none.
  function LastFout(stored: uint32): real {
    if stored == TIMEOUT_PATTERN then 0.0 else stored as real / 1000000.0
  }

  // A recorded value counts in Hz; none is recorded as 0, and a register that does not answer shows a fixed pattern.
  lemma LastFoutIs(stored: uint32)
    ensures if stored == 0 || stored == 0xa5a5_a5a5 then LastFout(stored) == 0.0
            else LastFout(stored) > 0.0 && LastFout(stored) * 1000000.0 == stored as real
  {
  }

  // The six registers from 13 on: HS_DIV less 4 in three bits, N1 less 1 in seven, and the multiplier in 38.
  ghost predicate HoldsSettings(registers: seq<Byte>, s: Settings)
    requires |registers| == 0x100
  {
    && registers[13] == (s.hsDiv - 4) * 32 + (s.n1 - 1) / 4
    && registers[14] == (s.n1 - 1) % 4 * 64 + s.rfreq / 0x1_0000_0000
    && registers[15] == s.rfreq / 0x100_0000 % 0x100
    && registers[16] == s.rfreq / 0x1_0000 % 0x100
    && registers[17] == s.rfreq / 0x100 % 0x100
    && registers[18] == s.rfreq % 0x100
  }

  lemma PackedHoldsSettings(registers: seq<Byte>, s: Settings)
    requires |registers| == 0x100 && registers[SETTINGS..SETTINGS_END] == Packed(s) && Fits(s)
    ensures HoldsSettings(registers, s)
  {
    hide Register13, Register14, MultiplierByte;
    RegistersAre(s);
    BytesAre(s.rfreq);
    var b := registers[SETTINGS..SETTINGS_END];
    assert forall i :: 0 <= i < 6 ==> registers[13 + i] == b[i];
  }

  lemma SameSettings(a: seq<Byte>, b: seq<Byte>)
    requires |a| == |b| == 0x100 && forall i :: 13 <= i < 19 ==> a[i] == b[i]
    ensures a[SETTINGS..SETTINGS_END] == b[SETTINGS..SETTINGS_END]
  {
  }

  predicate Frozen(freeze: Byte) {
    Bit(freeze, 4)
  }

  class Oscillator {
    const registers: array<Byte>
    // How many more reads of register 135 still show its flag.
    var busy: nat
    const delay: nat
    // The settings the output runs on.
    var running: seq<Byte>
    // The firmware's record of the output frequency in Hz.
    var storedFrequency: uint32

    ghost predicate Valid()
      reads this, registers
    {
      registers.Length == 0x100
    }

    constructor (delay: nat)
      ensures Valid() && fresh(registers)
    {
      registers := new Byte[0x100];
      this.delay := delay;
      busy, running, storedFrequency := 0, [], 0;
    }

    ghost predicate SameExcept(before: seq<Byte>, touched: set<int>)
      reads this, registers
      requires Valid() && |before| == 0x100
    {
      forall i :: 0 <= i < 0x100 && i !in touched ==> registers[i] == before[i]
    }

    // The chip's side of a read: it clears register 135 when it has taken the new settings.
    method Read(addr: Byte) returns (value: Byte)
      requires Valid()
      modifies registers, this`busy
      ensures Valid() && value == registers[addr]
      ensures addr != RFMC ==> registers[..] == old(registers[..]) && busy == old(busy)
      ensures SameExcept(old(registers[..]), {RFMC as int})
      ensures addr == RFMC ==> value == if old(busy) == 0 then 0 else old(registers[RFMC])
      ensures addr == RFMC ==> busy == if old(busy) > 0 then old(busy) - 1 else 0
    {
      if addr == RFMC {
        if busy == 0 {
          registers[RFMC] := 0;
        } else {
          busy := busy - 1;
        }
      }
      value := registers[addr];
    }

    // The chip's side of a write. The settings must not change under a running output; the new-frequency flag
    // makes the output run on them.
    method Write(addr: Byte, value: Byte)
      requires Valid()
      requires SETTINGS <= addr < SETTINGS_END ==> Frozen(registers[FREEZE])
      modifies registers, this`busy, this`running
      ensures Valid() && registers[..] == old(registers[..])[addr := value]
      ensures running ==
              if addr == RFMC && value == M_NEWFREQ && !Frozen(old(registers[FREEZE]))
              then old(registers[SETTINGS..SETTINGS_END]) else old(running)
      ensures addr != RFMC ==> busy == old(busy)
    {
      registers[addr] := value;
      if addr == RFMC {
        busy := delay;
        if value == M_NEWFREQ && !Frozen(registers[FREEZE]) {
          running := registers[SETTINGS..SETTINGS_END];
        }
      }
    }

    method SetFreezeDCO()
      requires Valid()
      modifies registers, this`busy, this`running
      ensures Valid() && registers[..] == old(registers[..])[137 := registers[137]]
      ensures Frozen(registers[137]) && registers[137] == Or(old(registers[137]), 0x10)
      ensures running == old(running)
    {
      var value := Read(FREEZE);
      FreezeBit(value);
      Write(FREEZE, Or(value, FREEZE_DCO));
    }

    method ReleaseDCO()
      requires Valid()
      modifies registers, this`busy, this`running
      ensures Valid()
      ensures registers[..] == old(registers[..])[137 := And(old(registers[137]), 0xef)][135 := 0x40]
      ensures running == old(registers[13..19])
    {
      var value := Read(FREEZE);
      FreezeBit(value);
      Write(FREEZE, And(value, 0xef));
      Write(RFMC, M_NEWFREQ);
    }

    method WaitForClearance(flag: Byte)
      requires Valid()
      modifies registers, this`busy
      ensures Valid() && And(registers[RFMC], flag) == 0
      ensures SameExcept(old(registers[..]), {RFMC as int})
    {
      AndSelf(flag);
      var reg135 := flag;
      while And(reg135, flag) != 0
        invariant Valid()
        invariant And(reg135, flag) == 0 ==> And(registers[RFMC], flag) == 0
        invariant SameExcept(old(registers[..]), {RFMC as int})
        decreases busy, And(reg135, flag)
      {
        reg135 := Read(RFMC);
      }
    }

    // The register writes while the output is frozen.
    method WriteSettings(s: Settings)
      requires Valid() && Frozen(registers[137])
      modifies registers, this`busy, this`running
      ensures Valid() && registers[..][13..19] == Packed(s)
      ensures forall i :: 0 <= i < 0x100 && !(13 <= i < 19) ==> registers[i] == old(registers[i])
    {
      hide Register13, Register14, MultiplierByte;
      Write(13, Register13(s));
      Write(14, Register14(s));
      for i := 0 to 4
        invariant Valid() && Frozen(registers[FREEZE])
        invariant registers[13] == Register13(s) && registers[14] == Register14(s)
        invariant forall j: nat :: j < i ==> registers[15 + j] == MultiplierByte(s.rfreq, j)
        invariant forall i :: 0 <= i < 0x100 && !(SETTINGS <= i < SETTINGS_END) ==> registers[i] == old(registers[i])
      {
        Write(15 + i, MultiplierByte(s.rfreq, i));
      }
    }

    // The driver's main operation: the output ends up running on the given settings, which were written while it
    // was frozen, and nothing else in the chip changes.
    method WriteOptsToDevice(o: RefClock.Options)
      requires Valid()
      requires 0 < o.hsDiv < TWO_32 && 0 < o.n1 < TWO_32 && 0 <= o.rfreqInt < TWO_64
      requires 0.0 <= RefClock.GetFout(o) * 1000000.0 < TWO_32 as real
      modifies registers, this
      ensures Valid()
      ensures registers[SETTINGS..SETTINGS_END] == Packed(Settings(o.hsDiv, o.n1, o.rfreqInt))
      ensures running == Packed(Settings(o.hsDiv, o.n1, o.rfreqInt))
      ensures Fits(Settings(o.hsDiv, o.n1, o.rfreqInt)) ==>
                HoldsSettings(registers[..], Settings(o.hsDiv, o.n1, o.rfreqInt))
      ensures !Frozen(registers[137])
      ensures forall i :: 0 <= i < 0x100 && !(13 <= i < 19) && i != 135 && i != 137 ==>
                registers[i] == old(registers[i])
      ensures storedFrequency == (RefClock.GetFout(o) * 1000000.0).Floor
    {
      hide Or, And, Pow2, Bit, Register13, Register14, MultiplierByte, RefClock.GetFout;
      var s := Settings(o.hsDiv, o.n1, o.rfreqInt);
      SetFreezeDCO();
      WriteSettings(s);
      ghost var written := registers[..];
      FreezeBit(registers[FREEZE]);
      ReleaseDCO();
      WaitForClearance(M_NEWFREQ);
      SameSettings(written, registers[..]);
      if Fits(s) {
        PackedHoldsSettings(registers[..], s);
      }
      storedFrequency := (RefClock.GetFout(o) * 1000000.0).Floor;
    }

    // The first half of getCurrentOpts: the settings in the registers.
    method ReadSettings() returns (s: Settings)
      requires Valid()
      modifies registers, this`busy
      ensures Valid() && registers[..] == old(registers[..])
      ensures s == Unpacked(registers[SETTINGS..SETTINGS_END])
    {
      hide Or, Pow2, Multiplier;
      ghost var b := registers[SETTINGS..SETTINGS_END];
      GatherStart(b);
      var value := Read(13);
      var hsDiv := value / 0x20 % 8 + 4;
      var n1 := value % 0x20 * 4;
      value := Read(14);
      n1 := n1 + value / 0x40 % 4 + 1;
      var rfreq: uint64 := value % 0x40 * 0x1_0000_0000;
      for i := 0 to 4
        invariant Valid() && registers[..] == old(registers[..])
        invariant rfreq == Multiplier(b, i)
      {
        value := Read(i + 15);
        assert value == At(b, i + 2);
        GatherStep(b, i);
        rfreq := Or(rfreq, value * Pow2((3 - i) * 8));
      }
      s := Settings(hsDiv, n1, rfreq);
    }

    // The settings with the DCO frequency and the crystal's, which is not a number when the multiplier reads 0.
    method GetCurrentOpts(fout: real) returns (s: Settings, fdco: real, fxtal: Option<real>)
      requires Valid()
      modifies registers, this`busy
      ensures Valid() && registers[..] == old(registers[..])
      ensures s == Unpacked(registers[SETTINGS..SETTINGS_END])
      ensures if storedFrequency != 0 && storedFrequency != 0xa5a5_a5a5 then
                && RefClock.Dco(LastFout(storedFrequency), s.hsDiv, s.n1) == fdco
                && fdco * 1000000.0 == RefClock.Dco(storedFrequency as real, s.hsDiv, s.n1)
              else if fout != 0.0 then fdco == RefClock.Dco(fout, s.hsDiv, s.n1)
              else fdco * 268435456.0 == 114.285 * s.rfreq as real && fxtal == Some(114.285)
      ensures fout != 0.0 || (storedFrequency != 0 && storedFrequency != 0xa5a5_a5a5) ==>
                if s.rfreq == 0 then fxtal == None
                else fxtal.Some? && fxtal.value * RefClock.Hex2Float(s.rfreq) == fdco
    {
      hide LastFout, RefClock.Dco, RefClock.Hex2Float, Unpacked;
      LastFoutIs(storedFrequency);
      s := ReadSettings();
      DcoScales(LastFout(storedFrequency), storedFrequency as real, s.hsDiv, s.n1);
      Hex2FloatIs(s.rfreq);
      var lastFout := LastFout(storedFrequency);
      var actual := fout;
      if lastFout != 0.0 {
        actual := lastFout;
      }
      if actual != 0.0 {
        fdco := RefClock.Dco(actual, s.hsDiv, s.n1);
        if s.rfreq != 0 {
          DividedBack(fdco, RefClock.Hex2Float(s.rfreq));
        }
        fxtal := if s.rfreq == 0 then None else Some(fdco / RefClock.Hex2Float(s.rfreq));
      } else {
        fdco, fxtal := DEFAULT_FXTAL * RefClock.Hex2Float(s.rfreq), Some(DEFAULT_FXTAL);
        DefaultDco(RefClock.Hex2Float(s.rfreq), s.rfreq as real);
      }
    }
  }

  lemma FreezeBit(value: Byte)
    ensures Or(value, FREEZE_DCO) < 0x100 && Frozen(Or(value, FREEZE_DCO))
    ensures And(value, 0xef) < 0x100 && !Frozen(And(value, 0xef))
  {
    ByteOr(value, FREEZE_DCO);
    BitOfOr(value, FREEZE_DCO, 4);
    BitOfAnd(value, 0xef, 4);
  }

  lemma DividedBack(a: real, b: real)
    requires b != 0.0
    ensures a / b * b == a
  {
  }

  lemma DefaultDco(y: real, rfreq: real)
    requires y * 268435456.0 == rfreq
    ensures DEFAULT_FXTAL * y * 268435456.0 == 114.285 * rfreq
  {
  }

  lemma DcoScales(f: real, stored: real, h: int, n: int)
    ensures f * 1000000.0 == stored ==> RefClock.Dco(f, h, n) * 1000000.0 == RefClock.Dco(stored, h, n)
  {
    if f * 1000000.0 == stored {
      assert RefClock.Dco(f, h, n) == f * h as real * n as real;
      assert RefClock.Dco(stored, h, n) == (f * 1000000.0) * h as real * n as real;
    }
  }

  lemma Hex2FloatIs(rfreq: uint64)
    ensures RefClock.Hex2Float(rfreq) * 268435456.0 == rfreq as real
    ensures RefClock.Hex2Float(rfreq) == 0.0 <==> rfreq == 0
  {
  }

  // -- Programming and reading back -----------------------------------------------------------------------------------

  // The record keeps the frequency to within a Hz.
  lemma RecordedFrequency(fout: real, stored: uint32)
    requires stored == (fout * 1000000.0).Floor && stored != 0 && stored != 0xa5a5_a5a5
    ensures fout - 0.000001 < LastFout(stored) <= fout
  {
    LastFoutIs(stored);
  }

  // After programming o, reading back gives its dividers and multiplier, and works with a frequency that is at most a
  // Hz below that of o.
  lemma ReadBackAfterProgramming(o: RefClock.Options, registers: seq<Byte>, stored: uint32)
    requires 0 < o.hsDiv < TWO_32 && 0 < o.n1 < TWO_32 && 0 <= o.rfreqInt < TWO_64
    requires |registers| == 0x100
    requires registers[SETTINGS..SETTINGS_END] == Packed(Settings(o.hsDiv, o.n1, o.rfreqInt))
    requires stored == (RefClock.GetFout(o) * 1000000.0).Floor && stored != 0 && stored != 0xa5a5_a5a5
    ensures Fits(Settings(o.hsDiv, o.n1, o.rfreqInt)) <==>
              Unpacked(registers[SETTINGS..SETTINGS_END]) == Settings(o.hsDiv, o.n1, o.rfreqInt)
    ensures RefClock.GetFout(o) - 0.000001 < LastFout(stored) <= RefClock.GetFout(o)
  {
    SettingsRoundTrip(Settings(o.hsDiv, o.n1, o.rfreqInt));
    RecordedFrequency(RefClock.GetFout(o), stored);
  }

  lemma DcoBetween(f: real, frequency: real, h: int, n: int)
    requires frequency - 0.000001 < f <= frequency && h > 0 && n > 0
    ensures RefClock.Dco(frequency, h, n) - RefClock.Dco(0.000001, h, n) < RefClock.Dco(f, h, n)
         <= RefClock.Dco(frequency, h, n)
  {
    hide RefClock.Dco, RefClock.Product;
    var p := RefClock.Product(n, h);
    RefClock.DcoIsProduct(frequency, n, h);
    RefClock.DcoIsProduct(f, n, h);
    RefClock.DcoIsProduct(0.000001, n, h);
    ProductIsPositive(n, h);
    TimesBetween(f, frequency, p);
  }

  lemma ProductIsPositive(n: int, h: int)
    requires h > 0 && n > 0
    ensures RefClock.Product(n, h) == h * n > 0
  {
  }

  lemma TimesBetween(f: real, frequency: real, p: int)
    requires frequency - 0.000001 < f <= frequency && p > 0
    ensures RefClock.Times(frequency, p) - RefClock.Times(0.000001, p) < RefClock.Times(f, p)
         <= RefClock.Times(frequency, p)
  {
    hide *;
    TimesApart(f, frequency, 0.000001, p);
  }

  lemma TimesApart(f: real, g: real, e: real, p: int)
    requires g - e < f <= g && p > 0
    ensures RefClock.Times(g, p) - RefClock.Times(e, p) < RefClock.Times(f, p) <= RefClock.Times(g, p)
  {
    BetweenScaled(f, g, e, p as real);
  }

  lemma BetweenScaled(f: real, g: real, e: real, x: real)
    requires g - e < f <= g && x > 0.0
    ensures g * x - e * x < f * x <= g * x
  {
    var d := g - f;
    ProductSign(d, x);
    ProductSign(e - d, x);
    assert d * x == g * x - f * x;
    assert (e - d) * x == e * x - d * x;
  }

  lemma ProductSign(a: real, b: real)
    ensures a >= 0.0 && b >= 0.0 ==> a * b >= 0.0
    ensures a > 0.0 && b > 0.0 ==> a * b > 0.0
  {
  }

  lemma ScaledOrder(a: real, b: real, c: real)
    requires a > 0.0 && b < c
    ensures a * b < a * c
  {
    ProductSign(a, c - b);
    assert a * (c - b) == a * c - a * b;
  }

  lemma FactorIsPositive(a: real, b: real)
    requires b > 0.0 && a * b > 0.0
    ensures a > 0.0
  {
    if a <= 0.0 {
      ProductSign(-a, b);
    }
  }

  // The crystal's frequency computed from what was read back: the one assumed when the settings were searched, within
  // the error of the record (a Hz times the dividers) and of the multiplier (2^-28).
  lemma CrystalIsRecovered(frequency: real, fxtal: real, n: int, h: int, f: real, y: real, found: real)
    requires fxtal > 0.0 && n > 0 && h > 0 && 0.0 < f && frequency - 0.000001 < f <= frequency
    requires var o := RefClock.OptionsFor(frequency, fxtal, n, h);
             y == RefClock.Hex2Float(o.rfreqInt) && 0.0 < y && found * y == RefClock.Dco(f, h, n)
    ensures var x := RefClock.OptionsFor(frequency, fxtal, n, h).rfreqFloat;
            && x - 1.0 / 268435456.0 < y <= x
            && fxtal * x - RefClock.Dco(0.000001, h, n) < found * x
            && found * y < fxtal * (y + 1.0 / 268435456.0)
  {
    hide RefClock.Dco, RefClock.Hex2Float, RefClock.Float2Hex;
    var o := RefClock.OptionsFor(frequency, fxtal, n, h);
    RefClock.RoundingError(o.rfreqFloat);
    DcoBetween(f, frequency, h, n);
    DcoPositive(f, h, n);
    CrystalBounds(fxtal, o.rfreqFloat, y, RefClock.Dco(frequency, h, n), RefClock.Dco(f, h, n),
                  RefClock.Dco(0.000001, h, n), found);
  }

  lemma DcoPositive(f: real, h: int, n: int)
    requires 0.0 < f && h > 0 && n > 0
    ensures RefClock.Dco(f, h, n) > 0.0
  {
    assert f * h as real > 0.0;
  }

  lemma CrystalBounds(fxtal: real, x: real, y: real, dco: real, read: real, e: real, found: real)
    requires fxtal > 0.0 && x == dco / fxtal && 0.0 < y <= x && x - 1.0 / 268435456.0 < y
    requires 0.0 < read && dco - e < read <= dco && found * y == read
    ensures fxtal * x - e < found * x && found * y < fxtal * (y + 1.0 / 268435456.0)
  {
    assert fxtal * x == dco;
    FactorIsPositive(found, y);
    ProductSign(found, x - y);
    assert found * (x - y) == found * x - found * y;
    ScaledOrder(fxtal, x, y + 1.0 / 268435456.0);
  }
}
