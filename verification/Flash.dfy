/** The flash driver: unlock, erase, buffered programming, and writing a whole configuration file. */
module Flash {
  import opened Bits
  import opened Options
  import opened FlashGeometry
  import opened NorChip
  import opened Remainders

  const TIMEOUT: nat := 0x1_0000

  // Every slow operation finishes before the driver gives up on it.
  ghost predicate Timely(c: Chip) {
    forall k: nat :: c.delay(k) < 0x1_0000
  }

  // A chip at rest that is always ready in time. The driver's results are stated for such a chip; what it cannot change
  // is stated for every chip.
  ghost predicate Prompt(c: Chip) {
    Idle(c) && Timely(c)
  }

  // The mode a status can be polled in.
  predicate ShowsStatus(m: Mode) {
    !m.ReadArray? && !m.ReadId?
  }

  // What a slow operation that takes too long leaves in the last status read.
  function LateStatus(c: Chip, polls: nat): Word
    requires Sound(c)
  {
    if polls == 0x1_0000 then 0x80 + c.errors else c.notReady
  }

  function Negated(status: Word): int {
    var s: int := status;
    -s
  }

  function ErasedUpTo(mem: seq<Word>, end: nat): (r: seq<Word>)
    ensures |r| == |mem|
  {
    seq(|mem|, i requires 0 <= i < |mem| => if i < end then 0xffff else mem[i])
  }

  lemma NothingErased(mem: seq<Word>)
    ensures ErasedUpTo(mem, 0) == mem
  {
  }

  lemma ErasedUpToStep(mem: seq<Word>, current: nat)
    requires |mem| == FLASH_WORDS && current < FLASH_WORDS && BlockStart(current) == current
    ensures var next := current + BlockWords(current);
            && current < next && IsBoundary(next)
            && ErasedBlock(ErasedUpTo(mem, current), Block(current)) == ErasedUpTo(mem, next)
  {
    hide Block, BlockStart, BlockWords, IsBoundary;
    NextBoundary(current);
    var next := current + BlockWords(current);
    BlocksTile(current, current);
    var before, wanted := ErasedUpTo(mem, current), ErasedUpTo(mem, next);
    var after := ErasedBlock(before, Block(current));
    forall i | 0 <= i < |mem|
      ensures after[i] == wanted[i]
    {
      BlocksTile(current, i);
    }
  }

  // The i-th 16-bit word of a file, low byte first. An odd last byte belongs to no word.
  function FileWord(file: seq<Byte>, i: nat): Word
    requires 2 * i + 1 < |file|
  {
    var low: int, high: int := file[2 * i], file[2 * i + 1];
    low + 0x100 * high
  }

  function FileWords(file: seq<Byte>, from: nat, to: nat): (r: seq<Word>)
    requires from <= to && 2 * to <= |file|
    ensures |r| == to - from
  {
    seq<Word>(to - from, i requires 0 <= i < to - from => FileWord(file, from + i))
  }

  // The array with the first `done` words of the file written over an erased area that ends at `end`.
  function Image(mem: seq<Word>, file: seq<Byte>, done: nat, end: nat): (r: seq<Word>)
    requires 2 * done <= |file|
    ensures |r| == |mem|
  {
    seq(|mem|, i requires 0 <= i < |mem| =>
      if i < done then FileWord(file, i) else if i < end then 0xffff else mem[i])
  }

  // Byte by byte: the file, low bytes first, then all ones to the end of the erased area, then what was there before.
  ghost predicate HoldsFile(mem: seq<Word>, before: seq<Word>, file: seq<Byte>, end: nat) {
    && |mem| == |before|
    && (forall i :: 0 <= i < |file| / 2 && i < |mem| ==>
          mem[i] % 0x100 == file[2 * i] && mem[i] / 0x100 == file[2 * i + 1])
    && (forall i :: |file| / 2 <= i < end && i < |mem| ==> mem[i] == 0xffff)
    && (forall i :: |file| / 2 <= i < |mem| && end <= i ==> mem[i] == before[i])
  }

  lemma ImageHoldsFile(mem: seq<Word>, file: seq<Byte>, end: nat)
    ensures HoldsFile(Image(mem, file, |file| / 2, end), mem, file, end)
  {
    hide FileWord;
    var image := Image(mem, file, |file| / 2, end);
    forall i | 0 <= i < |file| / 2 && i < |mem|
      ensures image[i] % 0x100 == file[2 * i] && image[i] / 0x100 == file[2 * i + 1]
    {
      WordBytes(file, i);
    }
  }

  lemma WordBytes(file: seq<Byte>, i: nat)
    requires 2 * i + 1 < |file|
    ensures FileWord(file, i) % 0x100 == file[2 * i] && FileWord(file, i) / 0x100 == file[2 * i + 1]
  {
    var low: int, high: int := file[2 * i], file[2 * i + 1];
    assert FileWord(file, i) == low + 0x100 * high;
  }

  // The synchronisation word is seen exactly where the file has the bytes 99 55 66 aa at an even offset.
  lemma FileSync(mem: seq<Word>, before: seq<Word>, file: seq<Byte>, end: nat, w: nat)
    requires HoldsFile(mem, before, file, end) && 2 * w + 3 < |file| && w + 1 < |mem|
    ensures SyncAt(mem, w) <==>
              file[2 * w] == 0x99 && file[2 * w + 1] == 0x55 && file[2 * w + 2] == 0x66 && file[2 * w + 3] == 0xaa
  {
    assert mem[w] % 0x100 == file[2 * w] && mem[w + 1] % 0x100 == file[2 * (w + 1)];
  }

  // Every programmed bank reads the array again, unless the file ends in a single byte: its buffer of no words is
  // refused and leaves the bank showing the status.
  ghost predicate BanksAfter(c: Chip, length: nat)
    requires Sound(c) && length <= FLASH_FILE_SIZE
  {
    if length % 64 == 1 then c.modes[Bank(length / 2)] == ReadStatus
    else ReadingUpTo(c, length / 2)
  }

  ghost predicate ReadingUpTo(c: Chip, end: nat)
    requires Sound(c) && end <= FLASH_WORDS
  {
    forall a :: 0 <= a < end ==> c.modes[Bank(a)] == ReadArray
  }

  lemma ReadingNothing(c: Chip)
    requires Sound(c)
    ensures ReadingUpTo(c, 0)
  {
  }

  // Programming a buffer puts its bank into read-array mode and takes no other bank out of it.
  lemma ReadingStep(before: Chip, after: Chip, addr: nat, next: nat)
    requires Sound(before) && Sound(after) && addr % 32 == 0 && addr <= next <= addr + 32 && addr < FLASH_WORDS
    requires ReadingUpTo(before, addr)
    requires forall b :: 0 <= b < BANKS && (b == Bank(addr) || before.modes[b] == ReadArray) ==>
               after.modes[b] == ReadArray
    ensures next <= FLASH_WORDS && ReadingUpTo(after, next)
  {
    BufferIsInBank(addr);
    if next > addr {
      assert Bank(next - 1) == Bank(addr);
    }
  }

  lemma ImageStep(mem: seq<Word>, file: seq<Byte>, done: nat, next: nat, end: nat)
    requires done <= next <= end && 2 * next <= |file|
    ensures Program(Image(mem, file, done, end), done, FileWords(file, done, next)) == Image(mem, file, next, end)
  {
    hide And, FileWord;
    var words := FileWords(file, done, next);
    var before, after := Image(mem, file, done, end), Image(mem, file, next, end);
    var programmed := Program(before, done, words);
    forall i | 0 <= i < |mem|
      ensures programmed[i] == after[i]
    {
      if done <= i < next {
        ProgrammedWord(mem, file, done, next, end, i);
      }
    }
  }

  lemma ProgrammedWord(mem: seq<Word>, file: seq<Byte>, done: nat, next: nat, end: nat, i: nat)
    requires done <= i < next <= end && 2 * next <= |file| && i < |mem|
    ensures Program(Image(mem, file, done, end), done, FileWords(file, done, next))[i] == FileWord(file, i)
  {
    hide And, FileWord;
    var words := FileWords(file, done, next);
    assert words[i - done] == FileWord(file, done + (i - done));
    ErasedTakesAnyWord(words[i - done]);
  }

  // Append a 16-bit word to what was read so far.
  function Shift(word: nat, next: nat): nat {
    word * 0x1_0000 + next
  }

  lemma ShiftKeepsTwoWords(word: nat, next: Word)
    ensures Shift(word, next) % 0x1_0000_0000 == Shift(word % 0x1_0000, next)
  {
  }

  lemma ShiftedSyncWord(word: Word, next: Word)
    ensures Shift(word, next) == FPGA_SYNCWORD <==> word == 0x5599 && next == 0xaa66
    ensures Shift(word, next) % 0x1_0000 == next
    ensures Shift(0, 0) == 0
  {
  }

  const FPGA_SYNCWORD: nat := 0x5599_aa66

  predicate SyncAt(mem: seq<Word>, w: nat) {
    w + 1 < |mem| && mem[w] == 0x5599 && mem[w + 1] == 0xaa66
  }

  lemma SyncAtIs(mem: seq<Word>, w: int, first: Word, second: Word)
    requires 0 <= w && w + 1 < |mem| && mem[w] == first && mem[w + 1] == second
    ensures SyncAt(mem, w) <==> first == 0x5599 && second == 0xaa66
  {
  }

  // No synchronisation word starts in words [first, end).
  ghost predicate NoSync(mem: seq<Word>, first: nat, end: int) {
    forall w :: first <= w < end ==> !SyncAt(mem, w)
  }

  // Where the search ends: the length is rounded down to even, but the end keeps the parity of the start.
  function SearchEnd(startOffset: nat, searchLength: nat): nat {
    startOffset + (searchLength - searchLength % 2)
  }

  // The first word whose offset is not below the end of the search.
  function SearchLimit(startOffset: nat, searchLength: nat): nat {
    (SearchEnd(startOffset, searchLength) + 1) / 2
  }

  lemma SearchLimitIs(startOffset: nat, searchLength: nat, w: nat)
    ensures w < SearchLimit(startOffset, searchLength) <==>
              2 * w < (if searchLength % 2 == 0 then startOffset + searchLength else startOffset + searchLength - 1)
  {
  }

  // The next chunk of the file: full ones keep the position at a buffer boundary.
  lemma ChunkStep(read: nat, addr: nat, bytesRead: nat, length: nat)
    requires read < length && addr % 32 == 0 && read == 2 * addr
    requires bytesRead == if length - read < 64 then length - read else 64
    ensures var read', addr' := read + bytesRead, addr + bytesRead / 2;
            && read' <= length && addr' == read' / 2 && (read' < length ==> addr' % 32 == 0 && read' == 2 * addr')
    ensures length % 64 == 1 && bytesRead > 1 ==> read + bytesRead < length
    ensures bytesRead == 1 ==> length % 64 == 1 && addr == length / 2
    ensures bytesRead > 1 ==> bytesRead / 2 > 0
  {
    var q := addr / 32;
    assert addr == 32 * q;
    if length - read < 64 {
      RemainderUnique(length, q, bytesRead, 64);
    } else {
      RemainderUnique(addr + 32, q + 1, 0, 32);
      if length - read == 64 {
        RemainderUnique(length, q + 1, 0, 64);
      }
    }
  }

  // No program buffer is open.
  ghost predicate Closed(c: Chip)
    requires Sound(c)
  {
    forall b :: 0 <= b < BANKS ==> !c.modes[b].BufferCount? && !c.modes[b].BufferFill?
  }

  lemma ClosedIsConfined(c: Chip, end: nat)
    requires Sound(c) && IsBoundary(end)
    ensures IsBoundary(FLASH_WORDS) && Confined(c, c.mem, FLASH_WORDS)
    ensures Closed(c) ==> Confined(c, c.mem, end)
    ensures Prompt(c) ==> Closed(c)
  {
  }

  lemma ConfinedKeeps(c: Chip, original: seq<Word>, limit: nat)
    requires Confined(c, original, limit)
    ensures forall i :: limit <= i < FLASH_WORDS ==> c.mem[i] == original[i]
  {
  }

  lemma ArchitectureIs(addr: nat)
    requires addr < FLASH_WORDS
    ensures GetFlashArchitecture(addr).Some? && GetFlashArchitecture(addr).value.blkaddr == BlockStart(addr)
    ensures var start := BlockStart(addr);
            start <= addr && BlockStart(start) == start && Block(start) == Block(addr) && Bank(start) == Bank(addr)
    ensures Block(addr) < BLOCKS && Bank(addr) < BANKS
  {
    BankIsInChip(addr);
    hide Block, BlockWords, Bank;
    BlocksTile(addr, addr);
    BlocksTile(addr, BlockStart(addr));
  }

  lemma BankIsInChip(addr: nat)
    requires addr < FLASH_WORDS
    ensures Bank(addr) < BANKS
  {
  }

  lemma NoArchitecture(addr: nat)
    ensures GetFlashArchitecture(addr).None? <==> addr >= FLASH_WORDS
  {
  }

  lemma SeenAt(c: Chip, a: nat)
    requires Sound(c) && a < FLASH_WORDS
    ensures Seen(c)[a] == Read(c, a).0
    ensures c.busy == 0 ==> Read(c, a).1 == c
  {
  }

  class Flash {
    var chip: Chip
    // the array before the operation under way, and the block boundary from which on that operation leaves it alone
    ghost var original: seq<Word>
    ghost var limit: nat

    ghost predicate Valid()
      reads this
    {
      Sound(chip) && IsBoundary(limit) && limit <= FLASH_WORDS && Confined(chip, original, limit)
    }

    constructor (chip: Chip)
      requires Sound(chip)
      ensures Valid() && this.chip == chip && limit == FLASH_WORDS
    {
      this.chip := chip;
      original, limit := chip.mem, FLASH_WORDS;
    }

    method SendCommand(addr: nat, cmd: Word)
      requires Valid() && addr < limit
      modifies `chip
      ensures Valid() && limit <= FLASH_WORDS && chip == Write(old(chip), addr, cmd)
    {
      hide IsBoundary, InReach;
      WriteIsConfined(chip, original, limit, addr, cmd);
      chip := Write(chip, addr, cmd);
    }

    method Get(addr: nat) returns (data: Word)
      requires Valid() && addr < FLASH_WORDS
      modifies `chip
      ensures Valid() && (data, chip) == Read(old(chip), addr)
    {
      hide IsBoundary, InReach;
      ReadIsConfined(chip, original, limit, addr);
      var (word, after) := Read(chip, addr);
      data, chip := word, after;
    }

    method GetStatusRegister(blkaddr: nat) returns (status: Word)
      requires Valid() && blkaddr < limit
      modifies `chip
      ensures Valid()
      ensures (status, chip) == Read(Write(old(chip), blkaddr, CMD_READ_STATUS), blkaddr)
    {
      SendCommand(blkaddr, CMD_READ_STATUS);
      status := Get(blkaddr);
    }

    // Back to reading the array, with a clear status; other banks keep their mode.
    method ResetBlock(blkaddr: nat) returns (status: Word)
      requires Valid() && blkaddr < limit
      modifies `chip
      ensures Valid()
      ensures Idle(old(chip)) ==>
                status == 0x80 && chip == SetMode(old(chip).(errors := 0), blkaddr, ReadArray) && Idle(chip)
    {
      hide Confined, IsBoundary, InReach;
      ghost var before := chip;
      SendCommand(blkaddr, CMD_CLR_STS);
      status := GetStatusRegister(blkaddr);
      SendCommand(blkaddr, CMD_RESET);
      SendCommand(blkaddr, CMD_READ_ARRAY);
    }

    // Nonzero for a locked block. Only the first bank is put back to reading the array.
    method GetBlockLockConfiguration(blkaddr: nat) returns (config: Word)
      requires Valid() && blkaddr < limit && BlockStart(blkaddr) == blkaddr
      modifies `chip
      ensures Valid()
      ensures Idle(old(chip)) ==> Idle(chip) && (config != 0 <==> chip.locked[Block(blkaddr)])
      ensures Idle(old(chip)) ==>
                chip == SetMode(SetMode(old(chip).(errors := 0), blkaddr, ReadId), 0, ReadArray)
    {
      hide Confined, IsBoundary, InReach;
      BlockBelow(blkaddr, limit);
      BlocksTile(blkaddr, blkaddr + 2);
      SendCommand(blkaddr, CMD_READ_IDENTIFIER);
      config := Get(blkaddr + 2);
      var _ := ResetBlock(0);
    }

    // Poll the status until it shows ready. The last poll before the timeout is not looked at any more.
    method WaitReady(addr: nat) returns (status: Word, timedOut: bool)
      requires Valid() && addr < FLASH_WORDS
      modifies `chip
      ensures Valid()
      ensures ShowsStatus(old(chip).modes[Bank(addr)]) ==>
                && timedOut == (old(chip).busy >= 0x1_0000)
                && (!timedOut ==> chip == old(chip).(busy := 0) && status == 0x80 + chip.errors)
                && (timedOut ==> status == LateStatus(old(chip), old(chip).busy))
    {
      hide Confined, IsBoundary, InReach;
      var timeout := TIMEOUT;
      ghost var start, shown := chip, ShowsStatus(chip.modes[Bank(addr)]);
      status := Get(addr);
      while !IsReady(status)
        invariant 0 < timeout <= TIMEOUT && Valid()
        invariant shown ==> chip == start.(busy := chip.busy) && TIMEOUT - timeout <= start.busy
        invariant shown && IsReady(status) ==>
                    chip.busy == 0 && start.busy < TIMEOUT && status == READY + start.errors
        invariant shown && !IsReady(status) ==>
                    chip.busy == start.busy - (TIMEOUT - timeout) - 1 && status == start.notReady
        decreases timeout
      {
        status := Get(addr);
        timeout := timeout - 1;
        if timeout == 0 {
          return status, true;
        }
      }
      timedOut := false;
    }

    // Poll with a fresh read-status command each time.
    method PollUnlocked(blkaddr: nat) returns (status: Word, timedOut: bool)
      requires Valid() && blkaddr < limit
      modifies `chip
      ensures Valid()
      ensures old(chip).modes[Bank(blkaddr)].ReadStatus? ==>
                && timedOut == (old(chip).busy >= 0x1_0000)
                && (!timedOut ==> chip == old(chip).(busy := 0) && status == 0x80 + chip.errors)
                && (timedOut ==> status == LateStatus(old(chip), old(chip).busy))
    {
      hide Confined, IsBoundary, InReach;
      var timeout := TIMEOUT;
      ghost var start, shown := chip, chip.modes[Bank(blkaddr)].ReadStatus?;
      assert shown ==> start.modes[Bank(blkaddr) := ReadStatus] == start.modes;
      status := GetStatusRegister(blkaddr);
      while !IsReady(status)
        invariant 0 < timeout <= TIMEOUT && Valid()
        invariant shown ==> chip == start.(busy := chip.busy) && TIMEOUT - timeout <= start.busy
        invariant shown && IsReady(status) ==>
                    chip.busy == 0 && start.busy < TIMEOUT && status == READY + start.errors
        invariant shown && !IsReady(status) ==>
                    chip.busy == start.busy - (TIMEOUT - timeout) - 1 && status == start.notReady
        decreases timeout
      {
        status := GetStatusRegister(blkaddr);
        timeout := timeout - 1;
        if timeout == 0 {
          return status, true;
        }
      }
      timedOut := false;
    }

    method UnlockBlock(blkaddr: nat) returns (result: int)
      requires Valid() && blkaddr < limit
      modifies `chip
      ensures Valid()
      ensures Idle(old(chip)) ==>
                var c := old(chip).(errors := 0, locked := old(chip).locked[Block(blkaddr) := false],
                                    operations := old(chip).operations + 1);
                var polls := old(chip).delay(old(chip).operations);
                if polls < 0x1_0000 then result == 0 && Idle(chip) && chip == SetMode(c, blkaddr, ReadArray)
                else result + LateStatus(c, polls) == 0
    {
      hide Confined, IsBoundary, InReach, Block;
      SendCommand(blkaddr, CMD_CLR_STS);
      SendCommand(blkaddr, CMD_BLOCK_LOCK_SETUP);
      SendCommand(blkaddr, CMD_CONFIRM);
      var status, timedOut := PollUnlocked(blkaddr);
      if timedOut {
        return Negated(status);
      }
      SendCommand(blkaddr, CMD_CLR_STS);
      var _ := ResetBlock(blkaddr);
      result := 0;
    }

    // Poll until ready; an all-ones answer is taken for array data, not for a status.
    method PollErased(blkaddr: nat) returns (status: Word, timedOut: bool)
      requires Valid() && blkaddr < FLASH_WORDS
      modifies `chip
      ensures Valid()
      ensures old(chip).modes[Bank(blkaddr)].ReadStatus? ==>
                && timedOut == (old(chip).busy >= 0x1_0000)
                && (!timedOut ==> chip == old(chip).(busy := 0) && status == 0x80 + chip.errors)
                && (timedOut ==> status == LateStatus(old(chip), old(chip).busy))
    {
      hide Confined, IsBoundary, InReach;
      var timeout := TIMEOUT;
      ghost var start, shown := chip, chip.modes[Bank(blkaddr)].ReadStatus?;
      status := Get(blkaddr);
      while !IsReady(status) || status == 0xffff
        invariant 0 < timeout <= TIMEOUT && Valid()
        invariant shown ==> chip == start.(busy := chip.busy) && TIMEOUT - timeout <= start.busy
        invariant shown && IsReady(status) ==>
                    chip.busy == 0 && start.busy < TIMEOUT && status == READY + start.errors
        invariant shown && !IsReady(status) ==>
                    chip.busy == start.busy - (TIMEOUT - timeout) - 1 && status == start.notReady
        decreases timeout
      {
        status := Get(blkaddr);
        timeout := timeout - 1;
        if timeout == 0 {
          return status, true;
        }
      }
      timedOut := false;
    }

    // Error bits are not looked at, so erasing a locked block "succeeds"; and a timeout whose last status is zero is
    // reported like a success.
    method EraseBlock(blkaddr: nat) returns (result: int)
      requires Valid() && blkaddr < limit
      modifies `chip
      ensures Valid()
      ensures Idle(old(chip)) && old(chip).locked[Block(blkaddr)] ==>
                result == 0 && Idle(chip) && chip == SetMode(old(chip).(errors := 0), blkaddr, ReadArray)
      ensures Idle(old(chip)) && !old(chip).locked[Block(blkaddr)] ==>
                var c := old(chip).(mem := ErasedBlock(old(chip).mem, Block(blkaddr)),
                                    operations := old(chip).operations + 1);
                var polls := old(chip).delay(old(chip).operations);
                if polls < 0x1_0000 then
                  result == 0 && Idle(chip) && chip == SetMode(c.(errors := 0), blkaddr, ReadArray)
                else result + LateStatus(c, polls) == 0
    {
      hide Confined, IsBoundary, InReach, Block;
      SendCommand(blkaddr, CMD_BLOCK_ERASE_SETUP);
      SendCommand(blkaddr, CMD_CONFIRM);
      var status, timedOut := PollErased(blkaddr);
      if timedOut {
        return Negated(status);
      }
      var _ := ResetBlock(blkaddr);
      result := 0;
    }

    // Unlock a block if it is locked. Of the other banks, only the first may change its mode.
    method EnsureUnlocked(blkaddr: nat) returns (result: int)
      requires Valid() && blkaddr < limit && BlockStart(blkaddr) == blkaddr
      modifies `chip
      ensures Valid()
      ensures Prompt(old(chip)) ==>
                && Prompt(chip) && result == 0
                && chip.mem == old(chip).mem && chip.errors == 0
                && chip.locked == old(chip).locked[Block(blkaddr) := false]
                && (forall b :: 0 < b < BANKS && b != Bank(blkaddr) ==> chip.modes[b] == old(chip).modes[b])
                && (Bank(blkaddr) != 0 ==> chip.modes[0] == ReadArray)
    {
      hide Confined, IsBoundary, InReach, Block;
      ghost var before := chip;
      BlocksTile(blkaddr, blkaddr);
      var config := GetBlockLockConfiguration(blkaddr);
      result := 0;
      if config != 0 {
        result := UnlockBlock(blkaddr);
      }
      assert Idle(before) ==>
          before.locked[Block(blkaddr)] || before.locked[Block(blkaddr) := false] == before.locked;
    }

    // One round of the erase loop: unlock the block if needed, and erase it.
    method EraseNext(current: nat) returns (result: int)
      requires Valid() && current < limit && BlockStart(current) == current
      modifies `chip
      ensures Valid()
      ensures Prompt(old(chip)) ==>
                Prompt(chip) && result == 0 && chip.mem == ErasedBlock(old(chip).mem, Block(current))
    {
      hide Confined, IsBoundary, InReach, Block;
      BlocksTile(current, current);
      result := EnsureUnlocked(current);
      if result < 0 {
        return;
      }
      result := EraseBlock(current);
    }

    // Erase block after block until byteCount bytes are covered.
    method Erase(byteCount: int) returns (result: int)
      requires Valid() && EraseEnd(0, byteCount) <= limit
      modifies `chip
      ensures Valid()
      ensures result == 0 ==> byteCount <= 0x100_0000
      ensures Prompt(old(chip)) ==>
                && Prompt(chip)
                && result == (if byteCount <= 0x100_0000 then 0 else -1)
                && chip.mem == ErasedUpTo(old(chip).mem, EraseEnd(0, byteCount))
    {
      hide Confined, InReach, ErasedBlock, ErasedUpTo, Block, BlockStart, BlockWords, GetFlashArchitecture, EraseEnd;
      BoundaryZero();
      var remaining, current: nat := byteCount, 0;
      NothingErased(chip.mem);
      while remaining > 0
        invariant Valid()
        invariant IsBoundary(current) && 2 * current + remaining == byteCount
        invariant EraseEnd(current, remaining) == EraseEnd(0, byteCount)
        invariant Prompt(old(chip)) ==> Prompt(chip) && chip.mem == ErasedUpTo(old(chip).mem, current)
        decreases remaining
      {
        EraseEndStep(current, remaining);
        var arch := GetFlashArchitecture(current);
        if arch.None? {
          return -1;
        }
        ErasedUpToStep(old(chip).mem, current);
        result := EraseNext(arch.value.blkaddr);
        if result < 0 {
          return;
        }
        current := current + arch.value.blksize / 2;
        remaining := remaining - arch.value.blksize;
      }
      EraseEndStep(current, remaining);
      result := 0;
    }

    // Put the chip into buffered programming at addr: announce, wait for the buffer, and send the word count. A count
    // of zero wraps to 0xffff, which the chip refuses.
    method OpenBuffer(addr: nat, length: nat) returns (status: Word, timedOut: bool)
      requires Valid() && addr < limit && length <= BUFFER_WORDS
      modifies `chip
      ensures Valid()
      ensures Prompt(old(chip)) ==>
                && !timedOut && chip.busy == 0
                && var c := old(chip).(operations := old(chip).operations + 1);
                   chip == if length == 0 then Fail(SetMode(c, addr, BufferCount(addr)), addr, SEQUENCE_ERROR)
                           else SetMode(c, addr, BufferFill(addr, length, []))
    {
      hide Confined, IsBoundary, InReach;
      SendCommand(addr, CMD_BUFFER_PROG);
      status, timedOut := WaitReady(addr);
      if timedOut {
        return;
      }
      SendCommand(addr, (length - 1) % 0x1_0000);
    }

    // Send the data words of an open buffer. After a refused count there are none.
    method FillBuffer(addr: nat, data: seq<Word>)
      requires Valid() && addr < limit && addr + |data| <= BlockStart(addr) + BlockWords(addr)
      modifies `chip
      ensures Valid()
      ensures old(chip).busy == 0 && (data != [] ==> old(chip).modes[Bank(addr)] == BufferFill(addr, |data|, [])) ==>
                chip == if data == [] then old(chip) else SetMode(old(chip), addr, BufferFill(addr, 0, data))
    {
      hide Confined, IsBoundary, InReach, Block, BlockStart, BlockWords, GetFlashArchitecture;
      ghost var start := chip;
      ghost var open := start.busy == 0 && (data != [] ==> start.modes[Bank(addr)] == BufferFill(addr, |data|, []));
      var i := 0;
      BlockBelow(addr, limit);
      BlocksTile(addr, addr);
      while i < |data|
        invariant 0 <= i <= |data| && Valid()
        invariant open ==>
                    chip == if data == [] then start else SetMode(start, addr, BufferFill(addr, |data| - i, data[..i]))
      {
        assert data[..i + 1] == data[..i] + [data[i]];
        BlocksTile(addr, addr);
        BlocksTile(addr, addr + i);
        SendCommand(addr + i, data[i]);
        i := i + 1;
      }
      assert data[..i] == data;
    }

    // Program up to a buffer of words inside one block, unlocking the block first.
    method ProgramBuffer(addr: nat, data: seq<Word>) returns (result: int)
      requires Valid() && |data| <= BUFFER_WORDS
      requires addr < FLASH_WORDS ==> addr < limit && addr + |data| <= BlockStart(addr) + BlockWords(addr)
      modifies `chip
      ensures Valid()
      ensures addr >= FLASH_WORDS ==> result == -1 && chip == old(chip)
      ensures Prompt(old(chip)) ==> Prompt(chip)
      ensures Prompt(old(chip)) && addr < FLASH_WORDS && data != [] ==>
                && result == 0
                && chip.mem == Program(old(chip).mem, addr, data)
                && chip.modes[Bank(addr)] == ReadArray
      ensures Prompt(old(chip)) && addr < FLASH_WORDS && data == [] ==>
                result == -0xb0 && chip.mem == old(chip).mem && chip.modes[Bank(addr)] == ReadStatus
      ensures Prompt(old(chip)) && addr < FLASH_WORDS ==>
                && (forall b :: 0 < b < BANKS && b != Bank(addr) ==> chip.modes[b] == old(chip).modes[b])
                && (Bank(addr) != 0 ==> chip.modes[0] == ReadArray)
    {
      hide Confined, IsBoundary, InReach, Block, BlockStart, BlockWords, Bank, GetFlashArchitecture;
      NoArchitecture(addr);
      var arch := GetFlashArchitecture(addr);
      if arch.None? {
        return -1;
      }
      ArchitectureIs(addr);
      var blkaddr := arch.value.blkaddr;
      result := EnsureUnlocked(blkaddr);
      if result < 0 {
        return;
      }
      var status, timedOut := OpenBuffer(addr, |data|);
      if timedOut {
        return Negated(status);
      }
      FillBuffer(addr, data);
      SendCommand(blkaddr, CMD_CONFIRM);
      status, timedOut := WaitReady(blkaddr);
      if timedOut || status != READY {
        return Negated(status);
      }
      var _ := ResetBlock(blkaddr);
      result := 0;
    }

    // Write a file to the start of the chip: erase the blocks it needs, then program it in buffers of 32 words.
    // Whatever the chip's timing, nothing behind the erased blocks changes.
    method FlashWrite(file: seq<Byte>) returns (result: int)
      requires Valid()
      modifies this
      ensures Valid()
      ensures |file| > 0x100_0000 ==> result == -1 && chip == old(chip)
      ensures |file| <= 0x100_0000 && Closed(old(chip)) ==>
                forall i :: EraseEnd(0, |file|) <= i < FLASH_WORDS ==> chip.mem[i] == old(chip).mem[i]
      ensures |file| <= 0x100_0000 && Prompt(old(chip)) ==>
                && result == 0 && Prompt(chip)
                && chip.mem == Image(old(chip).mem, file, |file| / 2, EraseEnd(0, |file|))
                && HoldsFile(chip.mem, old(chip).mem, file, EraseEnd(0, |file|))
                && BanksAfter(chip, |file|)
    {
      if |file| > FLASH_FILE_SIZE {
        return -1;
      }
      ghost var end, before := EraseEnd(0, |file|), chip;
      BoundaryIsInChip(end);
      EraseEndIsShortestCover(0, |file|, 0);
      ClosedIsConfined(chip, end);
      original, limit := chip.mem, if Closed(chip) then end else FLASH_WORDS;
      hide Confined, InReach, HoldsFile;
      result := Erase(|file|);
      if result != 0 {
        ConfinedKeeps(chip, original, limit);
        return -1;
      }
      assert Image(before.mem, file, 0, end) == ErasedUpTo(before.mem, end);
      ProgramFile(file, before.mem, end);
      ImageHoldsFile(before.mem, file, end);
      ConfinedKeeps(chip, original, limit);
      result := 0;
    }

    // The loop of flashWrite over an erased area that is large enough. It ends early when programming fails.
    method ProgramFile(file: seq<Byte>, ghost mem: seq<Word>, ghost end: nat)
      requires Valid() && |file| <= 2 * end && end <= limit
      modifies `chip
      ensures Valid()
      ensures Prompt(old(chip)) && old(chip).mem == Image(mem, file, 0, end) ==>
                Prompt(chip) && chip.mem == Image(mem, file, |file| / 2, end) && BanksAfter(chip, |file|)
    {
      hide Confined, IsBoundary, InReach, Image, Program, FileWords, ReadingUpTo, Bank, Block, BlockStart, BlockWords,
           GetFlashArchitecture;
      ghost var good := Prompt(chip) && chip.mem == Image(mem, file, 0, end);
      var read: nat, addr: nat := 0, 0;
      ReadingNothing(chip);
      while read < |file|
        invariant Valid()
        invariant read <= |file| && addr == read / 2 && (read < |file| ==> addr % 32 == 0 && read == 2 * addr)
        invariant addr <= FLASH_WORDS
        invariant good ==> Prompt(chip) && chip.mem == Image(mem, file, addr, end) && ReadingUpTo(chip, addr)
        invariant good && |file| % 64 == 1 ==> read < |file|
      {
        var bytesRead := if |file| - read < 64 then |file| - read else 64;
        var words := FileWords(file, addr, addr + bytesRead / 2);
        ImageStep(mem, file, addr, addr + bytesRead / 2, end);
        ChunkStep(read, addr, bytesRead, |file|);
        ghost var before := chip;
        var result := ProgramChunk(addr, words);
        if result < 0 {
          break;
        }
        if good {
          ReadingStep(before, chip, addr, addr + bytesRead / 2);
        }
        read := read + bytesRead;
        addr := addr + bytesRead / 2;
      }
    }

    // Program one buffer and read it back; a word that reads back wrong only ends the comparison.
    method ProgramChunk(addr: nat, words: seq<Word>) returns (result: int)
      requires Valid() && |words| <= BUFFER_WORDS && addr % BUFFER_WORDS == 0 && addr < limit
      modifies `chip
      ensures Valid()
      ensures Prompt(old(chip)) ==> Prompt(chip)
      ensures Prompt(old(chip)) && words != [] ==>
                && result == 0 && chip.mem == Program(old(chip).mem, addr, words)
                && forall b :: 0 <= b < BANKS && (b == Bank(addr) || old(chip).modes[b] == ReadArray) ==>
                     chip.modes[b] == ReadArray
      ensures Prompt(old(chip)) && words == [] ==>
                result < 0 && chip.mem == old(chip).mem && chip.modes[Bank(addr)] == ReadStatus
    {
      hide Confined, IsBoundary, InReach, Block, BlockStart, BlockWords, GetFlashArchitecture, Program;
      BufferFitsBlock(addr);
      ghost var good := Prompt(chip);
      result := ProgramBuffer(addr, words);
      if result < 0 {
        return;
      }
      ghost var programmed := chip;
      var i := 0;
      while i < |words|
        invariant 0 <= i <= |words| && Valid()
        invariant good ==> chip == programmed
      {
        BufferStaysInBlock(addr, i);
        BlocksTile(addr, addr + i);
        var status := Get(addr + i);
        if words[i] != status {
          break;
        }
        i := i + 1;
      }
    }

    // Search for the FPGA synchronisation word in what an idle chip shows. The offset returned is that of its second
    // half, not, as documented, of its beginning.
    method FindFpgaSyncWord(startOffset: nat, searchLength: nat) returns (offset: int, ghost found: nat)
      requires Valid() && startOffset + searchLength <= 2 * FLASH_WORDS
      modifies `chip
      ensures Valid()
      ensures old(chip).busy == 0 ==>
                && chip == old(chip)
                && var seen, first, limit := Seen(chip), startOffset / 2, SearchLimit(startOffset, searchLength);
                   if offset == -1 then NoSync(seen, first, limit - 1)
                   else
                     && offset == 2 * found + 2
                     && first <= found && found + 1 < limit
                     && SyncAt(seen, found) && NoSync(seen, first, found)
      ensures old(chip).busy == 0 ==>
                var end := if searchLength % 2 == 0 then startOffset + searchLength else startOffset + searchLength - 1;
                if offset == -1 then
                  forall w {:trigger SyncAt(Seen(chip), w)} :: startOffset <= 2 * w + 1 && 2 * w + 2 < end ==>
                    !SyncAt(Seen(chip), w)
                else startOffset <= offset - 1 && offset < end && offset % 2 == 0
    {
      hide Confined, IsBoundary, InReach, Shift, SyncAt, Seen;
      ghost var before, seen, good := chip, Seen(chip), chip.busy == 0;
      ghost var first, limit := startOffset / 2, SearchLimit(startOffset, searchLength);
      ghost var k: nat, last: Word, recent: Word := first, 0, 0;
      var current: nat, next: nat := 0, startOffset - startOffset % 2;
      var end := startOffset + (searchLength - searchLength % 2);
      ShiftedSyncWord(last, recent);
      found := 0;
      while current != FPGA_SYNCWORD && next < end
        invariant Valid() && next == 2 * k && first <= k && (k <= limit || k == first)
        invariant current == Shift(last, recent)
        invariant good ==>
                    && chip == before
                    && recent == (if k == first then 0 else seen[k - 1])
                    && last == (if k <= first + 1 then 0 else seen[k - 2])
                    && NoSync(seen, first, k - 2)
        decreases end - next
      {
        ShiftedSyncWord(last, recent);
        if good && first + 2 <= k {
          SyncAtIs(seen, k - 2, last, recent);
        }
        SeenAt(chip, next / 2);
        var word := Get(next / 2);
        ShiftKeepsTwoWords(current, word);
        last, recent, k := recent, word, k + 1;
        current := Shift(current, word) % 0x1_0000_0000;
        next := next + 2;
      }
      ShiftedSyncWord(last, recent);
      if good && first + 2 <= k {
        SyncAtIs(seen, k - 2, last, recent);
      }
      if current == FPGA_SYNCWORD {
        found := if k >= 2 then k - 2 else 0;
        offset := next - 2;
      } else {
        offset := -1;
      }
    }
  }
}
