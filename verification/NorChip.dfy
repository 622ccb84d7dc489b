/**
 One NOR flash chip as its driver sees it: an array of 16-bit words, block locks, and a command interface per bank.
 Programming can only clear bits; erasing sets every bit of a block.
 */
module NorChip {
  import opened Bits
  import opened FlashGeometry

  type Word = x: int | 0 <= x < 0x1_0000

  const CMD_READ_ARRAY: Word := 0xffff
  const CMD_RESET: Word := 0xf0f0
  const CMD_READ_IDENTIFIER: Word := 0x9090
  const CMD_READ_STATUS: Word := 0x7070
  const CMD_BLOCK_ERASE_SETUP: Word := 0x2020
  const CMD_CONFIRM: Word := 0xd0d0
  const CMD_BLOCK_LOCK_SETUP: Word := 0x6060
  const CMD_BLOCK_LOCK_CONFIRM: Word := 0x0101
  const CMD_BUFFER_PROG: Word := 0xe8e8
  const CMD_CLR_STS: Word := 0x5050

  // Status bit 7: ready. Errors sit in the lower bits.
  const READY: Word := 0x80
  const SEQUENCE_ERROR: Word := 0x30
  const ERASE_LOCKED_ERROR: Word := 0x22
  const PROGRAM_LOCKED_ERROR: Word := 0x12
  const BUFFER_WORDS: nat := 32

  function Ones(bits: nat): nat {
    if bits == 0 then 0 else 1 + 2 * Ones(bits - 1)
  }

  lemma {:induction false} AndOnes(bits: nat, x: nat)
    requires x <= Ones(bits)
    ensures And(Ones(bits), x) == x
  {
    if bits > 0 && x > 0 {
      assert Ones(bits) % 2 == 1 && Ones(bits) / 2 == Ones(bits - 1);
      AndOnes(bits - 1, x / 2);
    }
  }

  lemma ErasedTakesAnyWord(x: Word)
    ensures And(0xffff, x) == x
  {
    assert Ones(4) == 0xf;
    assert Ones(8) == 0xff;
    assert Ones(12) == 0xfff;
    assert Ones(16) == 0xffff;
    AndOnes(16, x);
  }

  datatype Mode =
    | ReadArray
    | ReadStatus
    | ReadId
    | LockSetup
    | EraseSetup
    | BufferCount(start: nat)
    | BufferFill(start: nat, left: nat, words: seq<Word>)

  // delay(k) is how many status reads the k-th slow operation answers with notReady before it is done.
  datatype Chip = Chip(
    mem: seq<Word>,
    locked: seq<bool>,
    modes: seq<Mode>,
    errors: Word,
    busy: nat,
    notReady: Word,
    delay: nat -> nat,
    operations: nat
  )

  ghost predicate Sound(c: Chip) {
    && |c.mem| == FLASH_WORDS
    && |c.locked| == BLOCKS
    && |c.modes| == BANKS
    && (forall b :: 0 <= b < BANKS ==> InReach(c.modes[b], FLASH_WORDS))
    && c.errors < READY
    && c.notReady / READY % 2 == 0
  }

  // An open program buffer holds words below the limit.
  predicate InReach(m: Mode, limit: nat) {
    match m
    case BufferCount(start) => start < limit
    case BufferFill(start, _, words) => start < limit && start + |words| <= limit
    case _ => true
  }

  predicate TakesCommands(m: Mode) {
    m.ReadArray? || m.ReadStatus? || m.ReadId?
  }

  // No operation is under way in any bank.
  ghost predicate Idle(c: Chip) {
    Sound(c) && c.busy == 0 && forall b :: 0 <= b < BANKS ==> TakesCommands(c.modes[b])
  }

  function Program(mem: seq<Word>, start: nat, words: seq<Word>): (r: seq<Word>)
    ensures |r| == |mem|
  {
    seq(|mem|, i requires 0 <= i < |mem| =>
      if start <= i < start + |words| then And(mem[i], words[i - start]) else mem[i])
  }

  // Programming clears the bits that are clear in the word, and sets none.
  lemma ProgramClearsBits(mem: seq<Word>, start: nat, words: seq<Word>, i: nat, k: nat)
    requires i < |mem|
    ensures Bit(Program(mem, start, words)[i], k) <==>
              Bit(mem[i], k) && (start <= i < start + |words| ==> Bit(words[i - start], k))
  {
    if start <= i < start + |words| {
      BitOfAnd(mem[i], words[i - start], k);
    }
  }

  function ErasedBlock(mem: seq<Word>, block: nat): (r: seq<Word>)
    requires |mem| == FLASH_WORDS
    ensures |r| == |mem|
  {
    seq(|mem|, i requires 0 <= i < |mem| => if Block(i) == block then 0xffff else mem[i])
  }

  function SetMode(c: Chip, addr: nat, m: Mode): Chip
    requires Sound(c) && addr < FLASH_WORDS
  {
    c.(modes := c.modes[Bank(addr) := m])
  }

  // A slow operation starts: it will be busy for a while, and the bank answers reads with the status.
  function Start(c: Chip, addr: nat, m: Mode): Chip
    requires Sound(c) && addr < FLASH_WORDS
  {
    SetMode(c, addr, m).(busy := c.delay(c.operations), operations := c.operations + 1)
  }

  // The first error sticks until the status register is cleared.
  function Fail(c: Chip, addr: nat, error: Word): Chip
    requires Sound(c) && addr < FLASH_WORDS
  {
    SetMode(c, addr, ReadStatus).(errors := if c.errors == 0 then error else c.errors)
  }

  function Command(c: Chip, addr: nat, data: Word): Chip
    requires Sound(c) && addr < FLASH_WORDS
  {
    if data == CMD_READ_ARRAY || data == CMD_RESET then SetMode(c, addr, ReadArray)
    else if data == CMD_READ_IDENTIFIER then SetMode(c, addr, ReadId)
    else if data == CMD_READ_STATUS then SetMode(c, addr, ReadStatus)
    else if data == CMD_CLR_STS then c.(errors := 0)
    else if data == CMD_BLOCK_LOCK_SETUP then SetMode(c, addr, LockSetup)
    else if data == CMD_BLOCK_ERASE_SETUP then SetMode(c, addr, EraseSetup)
    else if data == CMD_BUFFER_PROG then Start(c, addr, BufferCount(addr))
    else c
  }

  function ConfirmProgram(c: Chip, addr: nat, start: nat, words: seq<Word>, data: Word): Chip
    requires Sound(c) && addr < FLASH_WORDS && start < FLASH_WORDS
  {
    if data != CMD_CONFIRM || Block(addr) != Block(start) then Fail(c, addr, SEQUENCE_ERROR)
    else if c.locked[Block(start)] then Fail(c, addr, PROGRAM_LOCKED_ERROR)
    else Start(c.(mem := Program(c.mem, start, words)), addr, ReadStatus)
  }

  // A word written to the chip, taken as the bank's mode demands. A busy chip takes nothing.
  function Write(c: Chip, addr: nat, data: Word): Chip
    requires Sound(c) && addr < FLASH_WORDS
  {
    if c.busy > 0 then c
    else match c.modes[Bank(addr)]
      case LockSetup =>
        if data == CMD_CONFIRM then Start(c.(locked := c.locked[Block(addr) := false]), addr, ReadStatus)
        else if data == CMD_BLOCK_LOCK_CONFIRM then Start(c.(locked := c.locked[Block(addr) := true]), addr, ReadStatus)
        else Fail(c, addr, SEQUENCE_ERROR)
      case EraseSetup =>
        if data != CMD_CONFIRM then Fail(c, addr, SEQUENCE_ERROR)
        else if c.locked[Block(addr)] then Fail(c, addr, ERASE_LOCKED_ERROR)
        else Start(c.(mem := ErasedBlock(c.mem, Block(addr))), addr, ReadStatus)
      case BufferCount(start) =>
        if data + 1 <= BUFFER_WORDS then SetMode(c, addr, BufferFill(start, data + 1, []))
        else Fail(c, addr, SEQUENCE_ERROR)
      case BufferFill(start, left, words) =>
        if left > 0 then
          if addr == start + |words| then SetMode(c, addr, BufferFill(start, left - 1, words + [data]))
          else Fail(c, addr, SEQUENCE_ERROR)
        else ConfirmProgram(c, addr, start, words, data)
      case _ => Command(c, addr, data)
  }

  // The commands by their numbers, and the second words of those that take two.
  lemma CommandsAre(c: Chip, addr: nat)
    requires Idle(c) && addr < FLASH_WORDS
    ensures Write(c, addr, 0xffff) == Write(c, addr, 0xf0f0) == SetMode(c, addr, ReadArray)
    ensures Write(c, addr, 0x9090) == SetMode(c, addr, ReadId)
    ensures Write(c, addr, 0x7070) == SetMode(c, addr, ReadStatus)
    ensures Write(c, addr, 0x5050) == c.(errors := 0)
    ensures Block(addr) < |c.locked|
    ensures var unlocking := Write(Write(c, addr, 0x6060), addr, 0xd0d0);
            unlocking.locked == c.locked[Block(addr) := false] && unlocking.mem == c.mem
    ensures var locking := Write(Write(c, addr, 0x6060), addr, 0x0101);
            locking.locked == c.locked[Block(addr) := true] && locking.mem == c.mem
    ensures var erasing := Write(Write(c, addr, 0x2020), addr, 0xd0d0);
            && erasing.locked == c.locked
            && erasing.mem == (if c.locked[Block(addr)] then c.mem else ErasedBlock(c.mem, Block(addr)))
    ensures Write(c, addr, 0xe8e8).modes == c.modes[Bank(addr) := BufferCount(addr)]
  {
    BlockContains(addr);
    hide Block, Bank, ErasedBlock;
    BankInChip(addr);
  }

  lemma BankInChip(addr: nat)
    requires addr < FLASH_WORDS
    ensures Bank(addr) < BANKS
  {
  }

  // A buffer of words, announced by their number less one and confirmed, is programmed into an unlocked block.
  lemma ConfirmIs(c: Chip, addr: nat, start: nat, words: seq<Word>)
    requires Sound(c) && c.busy == 0 && addr < FLASH_WORDS && c.modes[Bank(addr)] == BufferFill(start, 0, words)
    ensures start < FLASH_WORDS && Block(start) < |c.locked|
    ensures Write(c, addr, 0xd0d0).mem
         == if Block(addr) == Block(start) && !c.locked[Block(start)] then Program(c.mem, start, words) else c.mem
  {
    BankInChip(addr);
    assert InReach(c.modes[Bank(addr)], FLASH_WORDS);
    BlockContains(start);
    hide Block, Bank, Program;
  }

  function Status(c: Chip): Word
    requires Sound(c)
  {
    if c.busy > 0 then c.notReady else READY + c.errors
  }

  // The answer to a read. Reading the status of a busy chip brings it one read closer to being ready.
  function Read(c: Chip, addr: nat): (Word, Chip)
    requires Sound(c) && addr < FLASH_WORDS
  {
    match c.modes[Bank(addr)]
    case ReadArray => (c.mem[addr], c)
    case ReadId => (if addr == BlockStart(addr) + 2 && c.locked[Block(addr)] then 1 else 0, c)
    case _ => (Status(c), if c.busy > 0 then c.(busy := c.busy - 1) else c)
  }

  predicate IsReady(status: Word) {
    status / READY % 2 == 1
  }

  // Bit 7 of the status says that the chip is ready.
  lemma ReadyBit(status: Word)
    ensures IsReady(status) <==> Bit(status, 7)
  {
    Powers();
    assert Pow2(7) == 0x80 by {
      assert Pow2(8) == 2 * Pow2(7);
    }
    hide Pow2;
    BitOfFields(status / 0x80, 7, status % 0x80, 7);
  }

  // What the bus shows at each address.
  function Seen(c: Chip): (r: seq<Word>)
    requires Sound(c)
    ensures |r| == FLASH_WORDS
  {
    seq<Word>(FLASH_WORDS, a requires 0 <= a < FLASH_WORDS => Read(c, a).0)
  }

  lemma SeenIsArray(c: Chip)
    requires Sound(c) && forall b :: 0 <= b < BANKS ==> c.modes[b] == ReadArray
    ensures Seen(c) == c.mem
  {
    hide Block, BlockStart;
  }

  // -- What a sequence of accesses below a limit cannot change -------------------------------------------------------

  ghost predicate Confined(c: Chip, original: seq<Word>, limit: nat) {
    && Sound(c) && |original| == FLASH_WORDS && IsBoundary(limit)
    && (forall i :: limit <= i < FLASH_WORDS ==> c.mem[i] == original[i])
    && forall b :: 0 <= b < BANKS ==> InReach(c.modes[b], limit)
  }

  lemma ReadIsConfined(c: Chip, original: seq<Word>, limit: nat, addr: nat)
    requires Confined(c, original, limit) && addr < FLASH_WORDS
    ensures Confined(Read(c, addr).1, original, limit)
  {
    hide IsBoundary, Block, BlockStart, Bank;
  }

  lemma ModeIsConfined(c: Chip, original: seq<Word>, limit: nat, addr: nat, m: Mode)
    requires Confined(c, original, limit) && addr < limit && InReach(m, limit)
    ensures limit <= FLASH_WORDS && InReach(m, FLASH_WORDS)
    ensures Confined(SetMode(c, addr, m), original, limit)
  {
    BoundaryIsInChip(limit);
    hide IsBoundary;
  }

  lemma MemoryIsConfined(c: Chip, original: seq<Word>, limit: nat, mem: seq<Word>)
    requires Confined(c, original, limit) && |mem| == FLASH_WORDS
    requires forall i :: limit <= i < FLASH_WORDS ==> mem[i] == c.mem[i]
    ensures Confined(c.(mem := mem), original, limit)
  {
    hide IsBoundary;
  }

  lemma StartIsConfined(c: Chip, original: seq<Word>, limit: nat, addr: nat, m: Mode)
    requires Confined(c, original, limit) && addr < limit && InReach(m, limit)
    ensures limit <= FLASH_WORDS && Confined(Start(c, addr, m), original, limit)
  {
    ModeIsConfined(c, original, limit, addr, m);
    hide IsBoundary, Bank;
  }

  lemma FailIsConfined(c: Chip, original: seq<Word>, limit: nat, addr: nat, error: Word)
    requires Confined(c, original, limit) && addr < limit && error < READY
    ensures limit <= FLASH_WORDS && Confined(Fail(c, addr, error), original, limit)
  {
    ModeIsConfined(c, original, limit, addr, ReadStatus);
    hide IsBoundary, Bank;
  }

  lemma EraseIsConfined(c: Chip, original: seq<Word>, limit: nat, addr: nat)
    requires Confined(c, original, limit) && addr < limit
    ensures limit <= FLASH_WORDS
    ensures Confined(Start(c.(mem := ErasedBlock(c.mem, Block(addr))), addr, ReadStatus), original, limit)
  {
    BlockBelow(addr, limit);
    BoundaryIsInChip(limit);
    hide IsBoundary, Block, Start;
    MemoryIsConfined(c, original, limit, ErasedBlock(c.mem, Block(addr)));
    StartIsConfined(c.(mem := ErasedBlock(c.mem, Block(addr))), original, limit, addr, ReadStatus);
  }

  lemma ProgramIsConfined(c: Chip, original: seq<Word>, limit: nat, addr: nat, start: nat, words: seq<Word>, data: Word)
    requires Confined(c, original, limit) && addr < limit && InReach(BufferFill(start, 0, words), limit)
    ensures limit <= FLASH_WORDS && Confined(ConfirmProgram(c, addr, start, words, data), original, limit)
  {
    BoundaryIsInChip(limit);
    hide IsBoundary, Block, Start, Fail, And;
    FailIsConfined(c, original, limit, addr, SEQUENCE_ERROR);
    FailIsConfined(c, original, limit, addr, PROGRAM_LOCKED_ERROR);
    MemoryIsConfined(c, original, limit, Program(c.mem, start, words));
    StartIsConfined(c.(mem := Program(c.mem, start, words)), original, limit, addr, ReadStatus);
  }

  lemma CommandIsConfined(c: Chip, original: seq<Word>, limit: nat, addr: nat, data: Word)
    requires Confined(c, original, limit) && addr < limit
    ensures limit <= FLASH_WORDS && Confined(Command(c, addr, data), original, limit)
  {
    BoundaryIsInChip(limit);
    hide IsBoundary, SetMode, Start;
    ModeIsConfined(c, original, limit, addr, ReadArray);
    ModeIsConfined(c, original, limit, addr, ReadId);
    ModeIsConfined(c, original, limit, addr, ReadStatus);
    ModeIsConfined(c, original, limit, addr, LockSetup);
    ModeIsConfined(c, original, limit, addr, EraseSetup);
    StartIsConfined(c, original, limit, addr, BufferCount(addr));
  }

  lemma LockIsConfined(c: Chip, original: seq<Word>, limit: nat, addr: nat, lock: bool)
    requires Confined(c, original, limit) && addr < limit
    ensures limit <= FLASH_WORDS && Block(addr) < BLOCKS
    ensures Confined(Start(c.(locked := c.locked[Block(addr) := lock]), addr, ReadStatus), original, limit)
  {
    BoundaryIsInChip(limit);
    BlockContains(addr);
    hide IsBoundary, Start, Block;
    StartIsConfined(c.(locked := c.locked[Block(addr) := lock]), original, limit, addr, ReadStatus);
  }

  // A write below a block boundary, whatever the state of the chip, leaves the words from there on alone.
  lemma WriteIsConfined(c: Chip, original: seq<Word>, limit: nat, addr: nat, data: Word)
    requires Confined(c, original, limit) && addr < limit
    ensures limit <= FLASH_WORDS && Confined(Write(c, addr, data), original, limit)
  {
    BoundaryIsInChip(limit);
    hide IsBoundary, SetMode, Start, Fail, Command, ConfirmProgram, Block;
    FailIsConfined(c, original, limit, addr, SEQUENCE_ERROR);
    FailIsConfined(c, original, limit, addr, ERASE_LOCKED_ERROR);
    match c.modes[Bank(addr)]
    case LockSetup =>
      LockIsConfined(c, original, limit, addr, false);
      LockIsConfined(c, original, limit, addr, true);
    case EraseSetup => EraseIsConfined(c, original, limit, addr);
    case BufferCount(start) =>
      if data + 1 <= BUFFER_WORDS {
        ModeIsConfined(c, original, limit, addr, BufferFill(start, data + 1, []));
      }
    case BufferFill(start, left, words) =>
      if left > 0 && addr == start + |words| {
        ModeIsConfined(c, original, limit, addr, BufferFill(start, left - 1, words + [data]));
      } else {
        ProgramIsConfined(c, original, limit, addr, start, words, data);
      }
    case _ => CommandIsConfined(c, original, limit, addr, data);
  }
}
