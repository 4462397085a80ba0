/** The recovery walk over the circular journal (kernel/fs/fat/recovery.c) and the ring pointers of
    journal.c, on values. The log is given by its blocks; a walk does not change it. */
module RecoverySpec {
  import opened Bits
  import opened SectorCache
  import opened FatEntries
  import R = RevokeSpec

  const MAGIC: nat := 0x03b3998
  const DESCRIPTOR: nat := 1
  const COMMIT: nat := 2
  const REVOKE: nat := 5
  const SAME_UUID: nat := 2
  const LAST_TAG: nat := 8
  const HEADER: nat := 12   // sizeof(journal_header_t)
  const TAG: nat := 8       // sizeof(journal_block_tag_t)
  const MAX_TAGS: nat := 62 // tags that fit in a 512-byte block
  const SUPERBLOCK: nat := 15600000 // JOURNAL_SUPERBLOCK_POSITION

  /** j_first, j_last and j_blocksize; the ring is [first, last). */
  datatype Journal = Journal(first: nat, last: nat, blocksize: nat)

  /** The ring is not empty, its sectors are addressable, and tags are looked for inside a block. */
  predicate Valid(j: Journal)
  {
    j.first < j.last && j.last + SUPERBLOCK <= WORD && j.blocksize <= SECTOR_SIZE
  }

  function Length(j: Journal): int
  {
    j.last - j.first
  }

  // ----- ring pointers -----

  /** wrap */
  function Wrap(j: Journal, p: nat): nat
    requires Valid(j)
  {
    if p >= j.last then p - Length(j) else p
  }

  /** journal_pointer_increment */
  function Increment(j: Journal, p: nat): nat
    requires Valid(j)
  {
    Wrap(j, (p + 1) % WORD)
  }

  function Advance(j: Journal, p: nat, n: nat): nat
    requires Valid(j)
    decreases n
  {
    if n == 0 then p else Advance(j, Increment(j, p), n - 1)
  }

  function Decrement(j: Journal, p: nat): nat
    requires Valid(j)
  {
    if p == j.first || p == 0 then j.last - 1 else p - 1
  }

  function Retreat(j: Journal, p: nat, n: nat): nat
    requires Valid(j)
    decreases n
  {
    if n == 0 then p else Retreat(j, Decrement(j, p), n - 1)
  }

  /** journal_pointer_move; a step backwards arrives as a u32. */
  function Move(j: Journal, p: nat, length: nat): nat
    requires Valid(j)
  {
    var q := (p + length) % WORD;
    if q >= j.last then q - Length(j) else if q <= 0 then q + Length(j) else q
  }

  lemma {:induction false} AdvanceBy(j: Journal, p: nat, n: nat)
    requires Valid(j) && p < j.last
    ensures Advance(j, p, n) < j.last
    ensures p + n < j.last ==> Advance(j, p, n) == p + n
    ensures j.last <= p + n < j.last + Length(j) ==> Advance(j, p, n) == p + n - Length(j)
    decreases n
  {
    if n > 0 { AdvanceBy(j, Increment(j, p), n - 1); }
  }

  lemma {:induction false} RetreatBy(j: Journal, p: nat, n: nat)
    requires Valid(j) && j.first <= p < j.last && n <= Length(j)
    ensures Retreat(j, p, n) == if p - n >= j.first then p - n else p - n + Length(j)
    decreases n
  {
    if n > 0 { RetreatBy(j, Decrement(j, p), n - 1); }
  }

  /** Wrapping once after adding n is n wrapping increments exactly when n does not pass the end of
      the log twice. */
  lemma WrapIff(j: Journal, p: nat, n: nat)
    requires Valid(j) && p < j.last && p + n < WORD
    ensures Wrap(j, p + n) == Advance(j, p, n) <==> p + n < j.last + Length(j)
  {
    AdvanceBy(j, p, n);
  }

  /** journal_pointer_move forwards is n increments exactly when it wraps at most once and does not
      stay at block 0. */
  lemma MoveForwardIff(j: Journal, p: nat, n: nat)
    requires Valid(j) && p < j.last && p + n < WORD
    ensures Move(j, p, n) == Advance(j, p, n) <==> p + n < j.last + Length(j) && p + n > 0
  {
    AdvanceBy(j, p, n);
    hide Advance;
    SmallWord(p + n);
  }

  /** For the steps its comment promises, up to the length of a ring that starts behind the
      superblock, journal_pointer_move forwards is right. */
  lemma MoveForward(j: Journal, p: nat, n: nat)
    requires Valid(j) && 0 < j.first <= p < j.last && n <= Length(j) && p + n < WORD
    ensures Move(j, p, n) == Advance(j, p, n)
  {
    MoveForwardIff(j, p, n);
  }

  /** Backwards it is right exactly when it stays in the ring without wrapping, or would land on
      block 0 of a ring that does not hold it (or, by accident, on a ring of 2^31 blocks). */
  lemma MoveBackIff(j: Journal, p: nat, k: nat)
    requires Valid(j) && j.first <= p < j.last && 0 < k <= Length(j)
    ensures Move(j, p, WORD - k) == Retreat(j, p, k) <==>
              (p > k && p - k >= j.first) || (p == k && j.first > 0) || (p < k && 2 * Length(j) == WORD)
  {
    RetreatBy(j, p, k);
    if p >= k {
      assert (p + (WORD - k)) % WORD == p - k;
    } else {
      assert (p + (WORD - k)) % WORD == p + WORD - k;
    }
  }

  /** Two steps back from the first block behind the superblock leave the ring; staying on block 0
      of a ring that holds it leaves the ring, too. */
  lemma MoveFails()
    ensures Move(Journal(1, 128, 512), 1, WORD - 2) != Retreat(Journal(1, 128, 512), 1, 2) == 126
    ensures Move(Journal(0, 128, 512), 0, 0) == 128 != Advance(Journal(0, 128, 512), 0, 0)
  {
    MoveBackIff(Journal(1, 128, 512), 1, 2);
    RetreatBy(Journal(1, 128, 512), 1, 2);
  }

  // ----- tags of a descriptor block -----

  predicate LastTag(d: Data, off: nat)
    requires off + TAG <= |d|
  {
    And(GetU32(d, off + 4), LAST_TAG) != 0
  }

  predicate SameUuid(d: Data, off: nat)
    requires off + TAG <= |d|
  {
    And(GetU32(d, off + 4), SAME_UUID) != 0
  }

  /** The offsets count_tags looks at. */
  function ScanTags(d: Data, off: nat, size: nat): (s: seq<nat>)
    requires size <= |d|
    ensures TAG * |s| <= (if off <= size then size - off else 0)
    ensures forall i :: 0 <= i < |s| ==> s[i] == off + TAG * i && s[i] + TAG <= size
    decreases size - off
  {
    if off + TAG > size then [] else if LastTag(d, off) then [off] else [off] + ScanTags(d, off + TAG, size)
  }

  /** count_tags */
  function CountTags(d: Data, size: nat): (n: nat)
    requires size <= |d| == SECTOR_SIZE
    ensures n <= MAX_TAGS
  {
    var s := ScanTags(d, HEADER, size);
    assert s != [] ==> s[|s| - 1] + TAG <= size;
    |s|
  }

  /** The offsets the replay loop looks at: a tag without SAME_UUID is taken to be followed by a
      16-byte UUID. */
  function ReplayTags(d: Data, off: nat, size: nat): (s: seq<nat>)
    requires size <= |d|
    ensures TAG * |s| <= (if off <= size then size - off else 0)
    decreases size - off
  {
    if off + TAG > size then []
    else if LastTag(d, off) then [off]
    else [off] + ReplayTags(d, if SameUuid(d, off) then off + TAG else off + TAG + 16, size)
  }

  /** Every tag before the last one count_tags sees carries SAME_UUID. */
  ghost predicate UniformTags(d: Data, off: nat, size: nat)
    requires size <= |d|
  {
    var s := ScanTags(d, off, size);
    forall i :: 0 <= i < |s| - 1 ==> SameUuid(d, s[i])
  }

  /** Scanning and replaying a descriptor block look at the same tags exactly when every tag before
      the last carries SAME_UUID. */
  lemma {:induction false} TagsAgreeIff(d: Data, off: nat, size: nat)
    requires size <= |d|
    ensures ScanTags(d, off, size) == ReplayTags(d, off, size) <==> UniformTags(d, off, size)
    decreases size - off
  {
    hide GetU32, And, LastTag, SameUuid;
    if off + TAG <= size && !LastTag(d, off) {
      var t := ScanTags(d, off + TAG, size);
      var next := if SameUuid(d, off) then off + TAG else off + TAG + 16;
      var r := ReplayTags(d, next, size);
      assert ScanTags(d, off, size) == [off] + t && ReplayTags(d, off, size) == [off] + r;
      Cons(off, t, r);
      TagsAgreeIff(d, off + TAG, size);
      UniformTail(d, off, size);
      FirstOffset(d, next, size);
      hide ScanTags, ReplayTags, UniformTags;
      if t == [] {
        assert off + 2 * TAG > size && r == [] by { EmptyTags(d, off + TAG, next, size); }
      } else if !SameUuid(d, off) {
        assert t[0] == off + TAG;
        assert r != t;
      }
    }
  }

  lemma Cons(x: nat, s: seq<nat>, t: seq<nat>)
    ensures [x] + s == [x] + t <==> s == t
  {
    assert ([x] + s)[1..] == s && ([x] + t)[1..] == t;
  }

  lemma EmptyTags(d: Data, off: nat, next: nat, size: nat)
    requires size <= |d| && off <= next && ScanTags(d, off, size) == []
    ensures off + TAG > size && ReplayTags(d, next, size) == []
  {
  }

  lemma FirstOffset(d: Data, off: nat, size: nat)
    requires size <= |d|
    ensures ReplayTags(d, off, size) != [] ==> ReplayTags(d, off, size)[0] == off
  {
  }

  lemma UniformTail(d: Data, off: nat, size: nat)
    requires off + TAG <= size <= |d| && !LastTag(d, off)
    ensures UniformTags(d, off, size) <==>
              (ScanTags(d, off + TAG, size) == [] || SameUuid(d, off)) && UniformTags(d, off + TAG, size)
  {
    hide LastTag, SameUuid;
    var s, t := ScanTags(d, off, size), ScanTags(d, off + TAG, size);
    assert s == [off] + t;
    if UniformTags(d, off, size) {
      assert t != [] ==> SameUuid(d, s[0]);
      forall i | 0 <= i < |t| - 1 ensures SameUuid(d, t[i]) { assert t[i] == s[i + 1]; }
    } else {
      var i :| 0 <= i < |s| - 1 && !SameUuid(d, s[i]);
      assert i > 0 ==> t[i - 1] == s[i];
    }
  }

  // ----- the tags on the bytes of the block -----

  /** Bit 3 (the last tag) and bit 1 (the same UUID) of the flags of the tag at offset off. */
  ghost predicate LastBit(d: Data, off: nat)
    requires off + 8 <= |d|
  {
    (d[off + 4] as int) / 8 % 2 == 1
  }

  ghost predicate UuidBit(d: Data, off: nat)
    requires off + 8 <= |d|
  {
    (d[off + 4] as int) / 2 % 2 == 1
  }

  lemma FlagBits(d: Data, off: nat)
    requires off + 8 <= |d|
    ensures LastTag(d, off) <==> LastBit(d, off)
    ensures SameUuid(d, off) <==> UuidBit(d, off)
  {
    hide And, GetU32;
    TestBits(GetU32(d, off + 4));
    LowByte(d, off + 4);
  }

  lemma TestBits(x: nat)
    ensures And(x, 8) != 0 <==> x / 8 % 2 == 1
    ensures And(x, 2) != 0 <==> x / 2 % 2 == 1
  {
    hide And;
    AndStep(x, 8);
    AndStep(x / 2, 4);
    AndStep(x / 2 / 2, 2);
    AndStep(x / 2 / 2 / 2, 1);
    AndStep(x, 2);
    AndStep(x / 2, 1);
    AndZero(x / 2 / 2 / 2 / 2);
    AndZero(x / 2 / 2);
    assert x / 2 / 2 / 2 == x / 8;
  }

  lemma LowByte(d: Data, o: nat)
    requires o + 4 <= |d|
    ensures GetU32(d, o) / 8 % 2 == (d[o] as int) / 8 % 2 && GetU32(d, o) / 2 % 2 == (d[o] as int) / 2 % 2
  {
    var b, r := d[o] as int, (d[o + 1] as int) + (d[o + 2] as int) * 0x100 + (d[o + 3] as int) * 0x1_0000;
    assert GetU32(d, o) == b + 256 * r;
    assert (b + 256 * r) / 8 == b / 8 + 32 * r && (b + 256 * r) / 2 == b / 2 + 128 * r;
  }

  /** count_tags counts the 8-byte tags from byte 12 on, up to the first with bit 3 of its flags set, or
      as many as fit. */
  lemma CountTagsIs(d: Data, size: nat)
    requires size <= |d| == SECTOR_SIZE
    ensures var n := CountTags(d, size);
      && (n > 0 ==> 12 + 8 * n <= size)
      && (forall i :: 0 <= i < n - 1 ==> !LastBit(d, 12 + 8 * i))
      && (12 + 8 * n + 8 > size || (n > 0 && LastBit(d, 12 + 8 * (n - 1))))
  {
    ScanTagsAre(d, 12, size);
    var s := ScanTags(d, HEADER, size);
    forall i | 0 <= i < |s| - 1 ensures !LastBit(d, 12 + 8 * i) { assert s[i] == 12 + 8 * i; }
  }

  lemma {:induction false} ScanTagsAre(d: Data, off: nat, size: nat)
    requires size <= |d|
    ensures var s := ScanTags(d, off, size);
      && (forall i :: 0 <= i < |s| - 1 ==> !LastBit(d, s[i]))
      && (off + 8 * |s| + 8 > size || (s != [] && LastBit(d, s[|s| - 1])))
    decreases size - off
  {
    hide LastTag, LastBit;
    if off + 8 <= size {
      FlagBits(d, off);
      if !LastTag(d, off) { ScanTagsAre(d, off + 8, size); }
    }
  }

  /** Replay looks at tags from byte 12 on, each 8 bytes behind the one before if bit 1 of that one's
      flags is set and 24 bytes otherwise, up to the first with bit 3 set, or as far as they fit. */
  lemma {:induction false} ReplayTagsAre(d: Data, off: nat, size: nat)
    requires size <= |d|
    ensures var s := ReplayTags(d, off, size);
      && (s == [] <==> off + 8 > size) && (s != [] ==> s[0] == off)
      && (forall i :: 0 <= i < |s| ==> s[i] + 8 <= size)
      && (forall i :: 0 <= i < |s| - 1 ==>
            !LastBit(d, s[i]) && s[i + 1] == s[i] + if UuidBit(d, s[i]) then 8 else 24)
      && (s != [] ==> var e := s[|s| - 1]; LastBit(d, e) || e + (if UuidBit(d, e) then 8 else 24) + 8 > size)
    decreases size - off
  {
    hide LastTag, LastBit, SameUuid, UuidBit;
    if off + 8 <= size {
      FlagBits(d, off);
      if !LastTag(d, off) { ReplayTagsAre(d, if SameUuid(d, off) then off + 8 else off + 24, size); }
    }
  }

  // ----- the walk -----

  datatype Pass = Scan | Revoke | Replay

  /** Before reading block next_log_block with next_commit_ID expected, or past the loop. */
  datatype Progress = At(block: nat, id: nat) | Ended(id: nat)

  /** The blocks of the card from the journal superblock on. */
  type Log = nat -> Data

  /** jread */
  function Read(log: Log, offset: nat): Data
  {
    log(offset)
  }

  ghost predicate Blocks(log: Log)
  {
    forall b: nat :: |Read(log, b)| == SECTOR_SIZE
  }

  /** The header is a log header of the expected transaction. */
  predicate Expected(d: Data, id: nat)
    requires |d| == SECTOR_SIZE
  {
    GetU32(d, 0) == MAGIC && GetU32(d, 8) == id
  }

  /** One iteration of do_one_pass. */
  function Step(j: Journal, log: Log, pass: Pass, p: Progress): Progress
    requires Valid(j) && (p.At? ==> |Read(log, p.block)| == SECTOR_SIZE)
  {
    if p.Ended? then p
    else
      var d, next := Read(log, p.block), Increment(j, p.block);
      if !Expected(d, p.id) then Ended(p.id)
      else if GetU32(d, 4) == DESCRIPTOR then
        if pass != Replay then At(Wrap(j, (next + CountTags(d, j.blocksize)) % WORD), p.id)
        else At(Advance(j, next, |ReplayTags(d, HEADER, j.blocksize)|), p.id)
      else if GetU32(d, 4) == COMMIT then At(next, (p.id + 1) % WORD)
      else if GetU32(d, 4) == REVOKE then At(next, p.id)
      else Ended(p.id)
  }

  ghost function Walk(j: Journal, log: Log, pass: Pass, p: Progress, n: nat): Progress
    requires Valid(j) && Blocks(log)
  {
    if n == 0 then p else Step(j, log, pass, Walk(j, log, pass, p, n - 1))
  }

  /** The three words of its header decide what a pass does at a block: without the magic number, or with
      another sequence than that of the transaction expected, the pass ends there; a commit block raises
      the transaction expected, a revoke or descriptor block does not, and any other block ends the
      pass. */
  lemma HeaderDecides(j: Journal, log: Log, pass: Pass, block: nat, id: nat)
    requires Valid(j) && |log(block)| == 512 && block < j.last
    ensures var d, r := log(block), Step(j, log, pass, At(block, id));
      var next := if block + 1 == j.last then j.first else block + 1;
      if GetU32(d, 0) != 0x03b3998 || GetU32(d, 8) != id then r == Ended(id)
      else if GetU32(d, 4) == 2 then r == At(next, (id + 1) % 0x1_0000_0000)
      else if GetU32(d, 4) == 5 then r == At(next, id)
      else if GetU32(d, 4) == 1 then r.At? && r.id == id
      else r == Ended(id)
  {
    hide GetU32, CountTags, ReplayTags, Advance;
    assert (block + 1) % WORD == block + 1;
  }

  /** The commit blocks among the first n blocks of a pass. */
  ghost function CommitsRead(j: Journal, log: Log, pass: Pass, p: Progress, n: nat): nat
    requires Valid(j) && Blocks(log)
  {
    if n == 0 then 0
    else
      var q := Walk(j, log, pass, p, n - 1);
      CommitsRead(j, log, pass, p, n - 1) + if q.At? && GetU32(Read(log, q.block), 4) == 2 then 1 else 0
  }

  /** Every block a pass goes beyond carries the magic number, and as its sequence that of the superblock
      plus the commit blocks in front of it. */
  lemma {:induction false} PassedBlocks(j: Journal, log: Log, pass: Pass, p: Progress, n: nat, k: nat)
    requires Valid(j) && Blocks(log) && p.At? && p.id < WORD && k < n && Walk(j, log, pass, p, n).At?
    ensures Walk(j, log, pass, p, k).At?
    ensures var d := log(Walk(j, log, pass, p, k).block);
      && |d| == 512 && GetU32(d, 0) == 0x03b3998
      && GetU32(d, 8) == (p.id + CommitsRead(j, log, pass, p, k)) % 0x1_0000_0000
    decreases n
  {
    hide GetU32, CountTags, ReplayTags, Advance, Wrap, Increment;
    if k < n - 1 {
      PassedBlocks(j, log, pass, p, n - 1, k);
    } else {
      PassedId(j, log, pass, p, k);
      assert |Read(log, Walk(j, log, pass, p, k).block)| == SECTOR_SIZE;
    }
  }

  lemma {:induction false} PassedId(j: Journal, log: Log, pass: Pass, p: Progress, n: nat)
    requires Valid(j) && Blocks(log) && p.At? && p.id < WORD && Walk(j, log, pass, p, n).At?
    ensures Walk(j, log, pass, p, n).id == (p.id + CommitsRead(j, log, pass, p, n)) % WORD
  {
    hide GetU32, CountTags, ReplayTags, Advance, Wrap, Increment;
    if n > 0 {
      PassedId(j, log, pass, p, n - 1);
      NextId(p.id + CommitsRead(j, log, pass, p, n - 1));
    }
  }

  /** At a descriptor block that belongs to the walk. */
  predicate AtDescriptor(log: Log, p: Progress)
    requires p.At? ==> |Read(log, p.block)| == SECTOR_SIZE
  {
    p.At? && Expected(Read(log, p.block), p.id) && GetU32(Read(log, p.block), 4) == DESCRIPTOR
  }

  /** A descriptor block's tags carry SAME_UUID and are no more than the ring holds. */
  ghost predicate Uniform(j: Journal, log: Log, p: Progress)
    requires Valid(j) && (p.At? ==> |Read(log, p.block)| == SECTOR_SIZE)
  {
    AtDescriptor(log, p) ==>
      CountTags(Read(log, p.block), j.blocksize) <= Length(j) && UniformTags(Read(log, p.block), HEADER, j.blocksize)
  }

  /** The place behind the descriptor block at p, and where scanning and replaying go from there. */
  lemma DescriptorSteps(j: Journal, log: Log, p: Progress)
    requires Valid(j) && Blocks(log) && AtDescriptor(log, p) && p.block < j.last
    ensures var d, next := Read(log, p.block), Increment(j, p.block);
      && next < j.last
      && Step(j, log, Scan, p) == Step(j, log, Revoke, p) ==
        At(Wrap(j, (next + CountTags(d, j.blocksize)) % WORD), p.id)
      && Step(j, log, Replay, p) == At(Advance(j, next, |ReplayTags(d, HEADER, j.blocksize)|), p.id)
  {
    AdvanceBy(j, p.block, 1);
    hide GetU32, And, ScanTags, ReplayTags, CountTags;
  }

  lemma SkipIs(j: Journal, next: nat, n: nat)
    requires Valid(j) && next < j.last && n <= MAX_TAGS && n <= Length(j)
    ensures Wrap(j, (next + n) % WORD) == Advance(j, next, n) < j.last
  {
    AdvanceBy(j, next, n);
    hide Advance;
    SmallWord(next + n);
  }

  lemma SmallWord(x: nat)
    requires x < WORD
    ensures x % WORD == x
  {
  }

  /** On a uniform block the three passes make the same step, which stays in the ring. */
  lemma SameStep(j: Journal, log: Log, p: Progress)
    requires Valid(j) && Blocks(log) && Uniform(j, log, p) && (p.At? ==> p.block < j.last)
    ensures Step(j, log, Scan, p) == Step(j, log, Revoke, p) == Step(j, log, Replay, p)
    ensures Step(j, log, Scan, p).At? ==> Step(j, log, Scan, p).block < j.last
  {
    hide GetU32, And, ScanTags, ReplayTags, UniformTags, Step, Advance, Wrap, Increment;
    if AtDescriptor(log, p) {
      DescriptorSteps(j, log, p);
      var d := Read(log, p.block);
      TagsAgreeIff(d, HEADER, j.blocksize);
      SkipIs(j, Increment(j, p.block), CountTags(d, j.blocksize));
    } else {
      PlainStep(j, log, p);
    }
  }

  /** Away from descriptor blocks the passes make the same step. */
  lemma PlainStep(j: Journal, log: Log, p: Progress)
    requires Valid(j) && Blocks(log) && !AtDescriptor(log, p) && (p.At? ==> p.block < j.last)
    ensures Step(j, log, Scan, p) == Step(j, log, Revoke, p) == Step(j, log, Replay, p)
    ensures Step(j, log, Scan, p).At? ==> Step(j, log, Scan, p).block < j.last
  {
    hide GetU32, CountTags, ReplayTags, Advance, Wrap, Increment;
    IncrementInRing(j, if p.At? then p.block else 0);
  }

  lemma IncrementInRing(j: Journal, p: nat)
    requires Valid(j) && p < j.last
    ensures Increment(j, p) < j.last
  {
  }

  /** After any number of blocks the three passes are at the same block, expecting the same
      transaction, if every descriptor block met on the way is uniform. */
  lemma {:induction false} SameWalk(j: Journal, log: Log, p: Progress, n: nat)
    requires Valid(j) && Blocks(log) && (p.At? ==> p.block < j.last)
    requires forall k: nat :: k < n ==> Uniform(j, log, Walk(j, log, Scan, p, k))
    ensures Walk(j, log, Scan, p, n) == Walk(j, log, Revoke, p, n) == Walk(j, log, Replay, p, n)
    ensures Walk(j, log, Scan, p, n).At? ==> Walk(j, log, Scan, p, n).block < j.last
  {
    hide Step, Uniform;
    if n > 0 {
      SameWalk(j, log, p, n - 1);
      SameStep(j, log, Walk(j, log, Scan, p, n - 1));
    }
  }

  /** On a ring longer than a descriptor block's tags, scan and replay leave a descriptor block for
      the same place exactly when they count the same number of tags. */
  lemma StepsAgreeIff(j: Journal, log: Log, p: Progress)
    requires Valid(j) && Blocks(log) && AtDescriptor(log, p) && p.block < j.last && Length(j) > MAX_TAGS
    ensures Step(j, log, Scan, p) == Step(j, log, Replay, p) <==>
              CountTags(Read(log, p.block), j.blocksize) == |ReplayTags(Read(log, p.block), HEADER, j.blocksize)|
  {
    DescriptorSteps(j, log, p);
    hide GetU32, And, ScanTags, ReplayTags, CountTags, Step, Advance, Wrap, Increment;
    var d, next := Read(log, p.block), Increment(j, p.block);
    var n, m := CountTags(d, j.blocksize), |ReplayTags(d, HEADER, j.blocksize)|;
    SkipIs(j, next, n);
    AdvanceBy(j, next, n);
    AdvanceBy(j, next, m);
  }

  /** The tags of a descriptor block are counted alike by count_tags and by replay. */
  predicate CountsAgree(j: Journal, log: Log, p: Progress)
    requires Valid(j) && (p.At? ==> |Read(log, p.block)| == SECTOR_SIZE)
  {
    AtDescriptor(log, p) ==>
      CountTags(Read(log, p.block), j.blocksize) == |ReplayTags(Read(log, p.block), HEADER, j.blocksize)|
  }

  lemma StepCounts(j: Journal, log: Log, p: Progress)
    requires Valid(j) && Blocks(log) && (p.At? ==> p.block < j.last) && Length(j) > MAX_TAGS
    ensures Step(j, log, Scan, p) == Step(j, log, Replay, p) <==> CountsAgree(j, log, p)
    ensures Step(j, log, Scan, p).At? ==> Step(j, log, Scan, p).block < j.last
  {
    hide GetU32, And, ScanTags, ReplayTags, Step, Advance, Wrap, Increment;
    if AtDescriptor(log, p) {
      StepsAgreeIff(j, log, p);
      DescriptorSteps(j, log, p);
      SkipIs(j, Increment(j, p.block), CountTags(Read(log, p.block), j.blocksize));
    } else {
      PlainStep(j, log, p);
    }
  }

  /** The revoke pass always makes the walk of the scan pass. */
  lemma {:induction false} RevokeWalksAsScan(j: Journal, log: Log, p: Progress, n: nat)
    requires Valid(j) && Blocks(log)
    ensures Walk(j, log, Revoke, p, n) == Walk(j, log, Scan, p, n)
  {
    hide GetU32, CountTags;
    if n > 0 { RevokeWalksAsScan(j, log, p, n - 1); }
  }

  /** After every number of blocks up to n, scan and replay are at the same block, expecting the same
      transaction. */
  ghost predicate Together(j: Journal, log: Log, p: Progress, n: nat)
    requires Valid(j) && Blocks(log)
  {
    forall k: nat :: k <= n ==> Walk(j, log, Scan, p, k) == Walk(j, log, Replay, p, k)
  }

  /** The tags of every descriptor block among the first n blocks of the scan are counted alike. */
  ghost predicate CountedAlike(j: Journal, log: Log, p: Progress, n: nat)
    requires Valid(j) && Blocks(log)
  {
    forall k: nat :: k < n ==> CountsAgree(j, log, Walk(j, log, Scan, p, k))
  }

  /** On a ring longer than a descriptor block's tags, scan and replay stay together exactly when the
      tags of every descriptor block on the way are counted alike. */
  lemma {:induction false} SameWalkIff(j: Journal, log: Log, p: Progress, n: nat)
    requires Valid(j) && Blocks(log) && (p.At? ==> p.block < j.last) && Length(j) > MAX_TAGS
    ensures Together(j, log, p, n) <==> CountedAlike(j, log, p, n)
    ensures Walk(j, log, Scan, p, n).At? ==> Walk(j, log, Scan, p, n).block < j.last
  {
    hide Step, CountsAgree;
    if n > 0 {
      SameWalkIff(j, log, p, n - 1);
      StepCounts(j, log, Walk(j, log, Scan, p, n - 1));
      WalkSplit(j, log, p, n);
      hide Together, CountedAlike;
    } else {
      assert Walk(j, log, Scan, p, 0) == Walk(j, log, Replay, p, 0);
    }
  }

  lemma WalkSplit(j: Journal, log: Log, p: Progress, n: nat)
    requires Valid(j) && Blocks(log) && n > 0
    ensures Together(j, log, p, n) <==>
              Together(j, log, p, n - 1) && Walk(j, log, Scan, p, n) == Walk(j, log, Replay, p, n)
    ensures CountedAlike(j, log, p, n) <==>
              CountedAlike(j, log, p, n - 1) && CountsAgree(j, log, Walk(j, log, Scan, p, n - 1))
    ensures Together(j, log, p, n - 1) ==> Walk(j, log, Scan, p, n - 1) == Walk(j, log, Replay, p, n - 1)
  {
    hide Walk, CountsAgree;
  }

  // ----- a descriptor block that separates the passes -----

  /** The flags that the commit code gives the tags of an 8-sector buffer (kernel/fs/fat/commit.c:168-190);
      they pile up in one tag buffer, which starts as zeros. */
  function CommitFlags(i: nat): (f: nat)
    ensures f < 16
  {
    if i == 0 then 1 else if i < 7 then 1 + SAME_UUID else 1 + SAME_UUID + LAST_TAG
  }

  lemma FlagValues()
    ensures And(1, LAST_TAG) == 0 && And(1, SAME_UUID) == 0
    ensures And(3, LAST_TAG) == 0 && And(3, SAME_UUID) != 0 && And(11, LAST_TAG) != 0
  {
    hide And;
    AndZero(0);
    AndStep(0, 1);
    AndStep(0, 2);
    AndStep(0, 4);
    AndZero(1);
    AndStep(1, 8);
    AndStep(1, 2);
    AndStep(1, 4);
    AndStep(3, 8);
    AndStep(1, 1);
    AndStep(3, 2);
    AndStep(2, 2);
    AndStep(5, 4);
    AndStep(11, 8);
  }

  function BlankBlock(): (d: Data)
    ensures |d| == SECTOR_SIZE
  {
    seq(SECTOR_SIZE, _ => 0)
  }

  /** A descriptor block with those flags on its first k tags. */
  function Tagged(k: nat): (d: Data)
    requires k <= 8
    ensures |d| == SECTOR_SIZE
  {
    if k == 0 then SetU32(SetU32(BlankBlock(), 0, MAGIC), 4, DESCRIPTOR)
    else SetU32(Tagged(k - 1), TagFlags(k - 1), CommitFlags(k - 1))
  }

  /** The offset of the flags of tag i. */
  function TagFlags(i: nat): nat
  {
    HEADER + TAG * i + 4
  }

  lemma {:induction false} TaggedFields(k: nat, i: nat)
    requires k <= 8
    ensures GetU32(Tagged(k), 0) == MAGIC && GetU32(Tagged(k), 4) == DESCRIPTOR && GetU32(Tagged(k), 8) == 0
    ensures i < k ==> GetU32(Tagged(k), TagFlags(i)) == CommitFlags(i)
  {
    hide GetU32, SetU32, CommitFlags;
    if k == 0 {
      HeaderFields();
    } else {
      TaggedFields(k - 1, i);
      var d, o, v := Tagged(k - 1), TagFlags(k - 1), CommitFlags(k - 1);
      GetSetU32(d, o, v, 0);
      GetSetU32(d, o, v, 4);
      GetSetU32(d, o, v, 8);
      if i < k { GetSetU32(d, o, v, TagFlags(i)); }
    }
  }

  lemma HeaderFields()
    ensures GetU32(Tagged(0), 0) == MAGIC && GetU32(Tagged(0), 4) == DESCRIPTOR && GetU32(Tagged(0), 8) == 0
  {
    var z := BlankBlock();
    assert GetU32(z, 8) == 0;
    hide GetU32, SetU32;
    GetSetU32(z, 0, MAGIC, 0);
    GetSetU32(z, 0, MAGIC, 8);
    GetSetU32(SetU32(z, 0, MAGIC), 4, DESCRIPTOR, 0);
    GetSetU32(SetU32(z, 0, MAGIC), 4, DESCRIPTOR, 4);
    GetSetU32(SetU32(z, 0, MAGIC), 4, DESCRIPTOR, 8);
  }

  /** From tag i > 0 on, both look at tags i, ..., 7. */
  lemma {:induction false} TailTags(d: Data, i: nat)
    requires 0 < i < 8 && |d| == SECTOR_SIZE && forall k: nat :: k < 8 ==> GetU32(d, TagFlags(k)) == CommitFlags(k)
    ensures |ScanTags(d, HEADER + TAG * i, SECTOR_SIZE)| == 8 - i
    ensures |ReplayTags(d, HEADER + TAG * i, SECTOR_SIZE)| == 8 - i
    decreases 8 - i
  {
    hide GetU32, And;
    FlagValues();
    assert GetU32(d, HEADER + TAG * i + 4) == CommitFlags(i);
    if i < 7 { TailTags(d, i + 1); }
  }

  /** Of the eight tags of such a block, scanning counts all and replaying looks at six. */
  lemma CommittedCounts(d: Data)
    requires |d| == SECTOR_SIZE && forall k: nat :: k < 8 ==> GetU32(d, TagFlags(k)) == CommitFlags(k)
    ensures CountTags(d, SECTOR_SIZE) == 8 && |ReplayTags(d, HEADER, SECTOR_SIZE)| == 6
  {
    hide GetU32, And;
    FlagValues();
    assert GetU32(d, TagFlags(0)) == 1;
    TailTags(d, 1);
    TailTags(d, 3);
  }

  /** On a log that starts with such a block, scan and replay are at different places behind it. */
  lemma CommittedBlockParts(j: Journal, log: Log, b: nat)
    requires Valid(j) && Blocks(log) && j.blocksize == SECTOR_SIZE && Length(j) > MAX_TAGS
    requires b < j.last && Read(log, b) == Tagged(8)
    ensures Walk(j, log, Scan, At(b, 0), 1) != Walk(j, log, Replay, At(b, 0), 1)
  {
    var d := Read(log, b);
    forall k: nat | k < 8 ensures GetU32(d, TagFlags(k)) == CommitFlags(k) { TaggedFields(8, k); }
    TaggedFields(8, 0);
    hide GetU32, Tagged, And, ScanTags, ReplayTags, Step;
    CommittedCounts(d);
    StepsAgreeIff(j, log, At(b, 0));
    assert Walk(j, log, Scan, At(b, 0), 0) == Walk(j, log, Replay, At(b, 0), 0) == At(b, 0);
  }

  // ----- journal_recover -----

  /** Outcomes of journal_recover: the next transaction number, the endless loop of the mismatch
      branch, or a pass still running after n blocks. */
  datatype Outcome = Sequence(tid: nat) | Mismatch | Running

  /** journal_recover with passes of at most n blocks; end_transaction is a u16. */
  ghost function Recover(j: Journal, log: Log, start: nat, sequence: nat, n: nat): Outcome
    requires Valid(j) && Blocks(log)
  {
    if start == 0 then Sequence((sequence + 1) % R.TID)
    else
      var scan := Walk(j, log, Scan, At(start, sequence), n);
      var revoke := Walk(j, log, Revoke, At(start, sequence), n);
      var replay := Walk(j, log, Replay, At(start, sequence), n);
      if scan.At? then Running
      else
        var end := scan.id % R.TID;
        if revoke.At? then Running
        else if end != revoke.id then Mismatch
        else if replay.At? then Running
        else if end != replay.id then Mismatch
        else Sequence((end + 1) % R.TID)
  }

  /** The commit blocks among the first n blocks of the scan pass. */
  ghost function Commits(j: Journal, log: Log, p: Progress, n: nat): nat
    requires Valid(j) && Blocks(log)
  {
    if n == 0 then 0
    else Commits(j, log, p, n - 1) + (if AtCommit(log, Walk(j, log, Scan, p, n - 1)) then 1 else 0)
  }

  predicate AtCommit(log: Log, p: Progress)
    requires p.At? ==> |Read(log, p.block)| == SECTOR_SIZE
  {
    p.At? && Expected(Read(log, p.block), p.id) && GetU32(Read(log, p.block), 4) == COMMIT
  }

  /** The expected transaction number counts the commit blocks. */
  lemma {:induction false} WalkId(j: Journal, log: Log, p: Progress, n: nat)
    requires Valid(j) && Blocks(log) && p.id < WORD
    ensures Walk(j, log, Scan, p, n).id == (p.id + Commits(j, log, p, n)) % WORD
  {
    hide GetU32, CountTags, Wrap, Increment;
    if n > 0 {
      WalkId(j, log, p, n - 1);
      NextId(p.id + Commits(j, log, p, n - 1));
    }
  }

  lemma NextId(x: nat)
    ensures (x % WORD + 1) % WORD == (x + 1) % WORD
  {
  }

  /** Where the passes agree, the mismatch branch is reached exactly when the sequence in the
      superblock plus the number of commit blocks in the log does not fit the 16 bits of
      end_transaction; otherwise recovery ends with the transaction after that. */
  lemma MismatchIff(j: Journal, log: Log, start: nat, sequence: nat, n: nat)
    requires Valid(j) && Blocks(log) && 0 < start < j.last && sequence < WORD && Length(j) > MAX_TAGS
    requires CountedAlike(j, log, At(start, sequence), n) && Walk(j, log, Scan, At(start, sequence), n).Ended?
    ensures var end := (sequence + Commits(j, log, At(start, sequence), n)) % WORD;
      && (Recover(j, log, start, sequence, n) == Mismatch <==> end >= R.TID)
      && (end < R.TID ==> Recover(j, log, start, sequence, n) == Sequence((end + 1) % R.TID))
  {
    hide Step, CountsAgree, Commits;
    SameWalkIff(j, log, At(start, sequence), n);
    RevokeWalksAsScan(j, log, At(start, sequence), n);
    WalkId(j, log, At(start, sequence), n);
  }

  /** Once all passes have ended, the mismatch branch is reached exactly when the transaction the scan
      ended at does not fit 16 bits or the replay ended at another one. */
  lemma OutcomeIs(j: Journal, log: Log, start: nat, sequence: nat, n: nat)
    requires Valid(j) && Blocks(log) && start > 0
    requires Walk(j, log, Scan, At(start, sequence), n).Ended? && Walk(j, log, Replay, At(start, sequence), n).Ended?
    ensures var scan := Walk(j, log, Scan, At(start, sequence), n);
      var replay := Walk(j, log, Replay, At(start, sequence), n);
      Recover(j, log, start, sequence, n) ==
      if scan.id >= 0x1_0000 || replay.id != scan.id then Mismatch else Sequence((scan.id + 1) % 0x1_0000)
  {
    hide Walk;
    RevokeWalksAsScan(j, log, At(start, sequence), n);
  }

  /** While a pass is reading, recovery has not ended. */
  lemma StillRunning(j: Journal, log: Log, start: nat, sequence: nat, n: nat)
    requires Valid(j) && Blocks(log) && start > 0
    ensures Walk(j, log, Scan, At(start, sequence), n).At? ==> Recover(j, log, start, sequence, n) == Running
    ensures Recover(j, log, start, sequence, n) == Running ==>
              || Walk(j, log, Scan, At(start, sequence), n).At?
              || Walk(j, log, Revoke, At(start, sequence), n).At?
              || Walk(j, log, Replay, At(start, sequence), n).At?
  {
  }

  /** A clean superblock, s_start being 0: whatever the log holds, it is skipped. */
  lemma CleanMount(j: Journal, log: Log, sequence: nat, n: nat)
    requires Valid(j) && Blocks(log)
    ensures Recover(j, log, 0, sequence, n) == Sequence((sequence + 1) % 0x1_0000)
  {
  }

  /** The commit block of a transaction. */
  function CommitBlock(sequence: nat): (d: Data)
    requires sequence < WORD
    ensures |d| == SECTOR_SIZE
  {
    SetU32(SetU32(SetU32(BlankBlock(), 0, MAGIC), 4, COMMIT), 8, sequence)
  }

  lemma CommitFields(sequence: nat)
    requires sequence < WORD
    ensures GetU32(CommitBlock(sequence), 0) == MAGIC && GetU32(CommitBlock(sequence), 4) == COMMIT
    ensures GetU32(CommitBlock(sequence), 8) == sequence && GetU32(BlankBlock(), 0) == 0
  {
    var z := BlankBlock();
    assert GetU32(z, 0) == 0;
    hide GetU32, SetU32;
    var a := SetU32(z, 0, MAGIC);
    var b := SetU32(a, 4, COMMIT);
    GetSetU32(z, 0, MAGIC, 0);
    GetSetU32(a, 4, COMMIT, 0);
    GetSetU32(a, 4, COMMIT, 4);
    GetSetU32(b, 8, sequence, 0);
    GetSetU32(b, 8, sequence, 4);
    GetSetU32(b, 8, sequence, 8);
  }

  /** A log with the commit blocks of two transactions. */
  function TwoCommits(first: nat, second: nat): Log
    requires first < WORD && second < WORD
  {
    (b: nat) => if b == 1 then CommitBlock(first) else if b == 2 then CommitBlock(second) else BlankBlock()
  }

  lemma {:induction false} EndedStays(j: Journal, log: Log, pass: Pass, p: Progress, n: nat, m: nat)
    requires Valid(j) && Blocks(log) && n <= m && Walk(j, log, pass, p, n).Ended?
    ensures Walk(j, log, pass, p, m) == Walk(j, log, pass, p, n)
    decreases m - n
  {
    if n < m { EndedStays(j, log, pass, p, n, m - 1); }
  }

  /** Starting at the first one, a pass counts it, and ends at the second one if that is not of the next
      transaction. */
  lemma StaleWalk(first: nat, second: nat, pass: Pass, n: nat)
    requires first + 1 < WORD && second < WORD && second != first + 1 && n >= 2
    ensures Blocks(TwoCommits(first, second))
    ensures Walk(Journal(1, 128, 512), TwoCommits(first, second), pass, At(1, first), n) == Ended(first + 1)
  {
    CommitFields(first);
    CommitFields(second);
    hide GetU32, CommitBlock, CountTags, ReplayTags, Advance;
    var j, log := Journal(1, 128, 512), TwoCommits(first, second);
    HeaderDecides(j, log, pass, 1, first);
    HeaderDecides(j, log, pass, 2, first + 1);
    assert Walk(j, log, pass, At(1, first), 0) == At(1, first);
    assert Walk(j, log, pass, At(1, first), 1) == At(2, first + 1);
    assert Walk(j, log, pass, At(1, first), 2) == Ended(first + 1);
    EndedStays(j, log, pass, At(1, first), 2, n);
  }

  /** A used ring: the commit block of transaction 7 and behind it a stale one of transaction 3.
      Recovery stops there, and goes on with transaction 9. */
  lemma StaleBlockEnds(n: nat)
    requires n >= 2
    ensures Blocks(TwoCommits(7, 3))
    ensures Recover(Journal(1, 128, 512), TwoCommits(7, 3), 1, 7, n) == Sequence(9)
  {
    hide Walk, TwoCommits;
    StaleWalk(7, 3, Scan, n);
    StaleWalk(7, 3, Revoke, n);
    StaleWalk(7, 3, Replay, n);
  }

  /** A log of transaction 65535 runs into the mismatch loop. */
  lemma LastTransactionHangs(n: nat)
    requires n >= 2
    ensures Blocks(TwoCommits(0xFFFF, 3))
    ensures Recover(Journal(1, 128, 512), TwoCommits(0xFFFF, 3), 1, 0xFFFF, n) == Mismatch
  {
    hide Walk, TwoCommits;
    StaleWalk(0xFFFF, 3, Scan, n);
    StaleWalk(0xFFFF, 3, Revoke, n);
  }

  // ----- the revoke pass -----

  predicate AtRevoke(log: Log, p: Progress)
    requires p.At? ==> |Read(log, p.block)| == SECTOR_SIZE
  {
    p.At? && Expected(Read(log, p.block), p.id) && GetU32(Read(log, p.block), 4) == REVOKE
  }

  /** The record of a revoke block of the walk stays within the block. */
  predicate RecordFits(log: Log, p: Progress)
    requires p.At? ==> |Read(log, p.block)| == SECTOR_SIZE
  {
    AtRevoke(log, p) ==> GetU32(Read(log, p.block), 12) <= SECTOR_SIZE
  }

  /** So do the records of all revoke blocks among the first n blocks of the revoke pass. */
  ghost predicate RecordsFit(j: Journal, log: Log, p: Progress, n: nat)
    requires Valid(j) && Blocks(log)
  {
    forall k: nat :: k < n ==> RecordFits(log, Walk(j, log, Revoke, p, k))
  }

  /** What one iteration of a pass does to the table. */
  function PassStep(log: Log, pass: Pass, t: R.Table, p: Progress): (r: R.Table)
    requires |t.chains| > 0 && (p.At? ==> |Read(log, p.block)| == SECTOR_SIZE)
    requires pass == Revoke ==> RecordFits(log, p)
    ensures |r.chains| == |t.chains|
  {
    if pass == Revoke && AtRevoke(log, p) then R.ScanRecord(t, Read(log, p.block), p.id) else t
  }

  ghost function PassTable(j: Journal, log: Log, pass: Pass, t: R.Table, p: Progress, n: nat): (r: R.Table)
    requires Valid(j) && Blocks(log) && |t.chains| > 0 && (pass == Revoke ==> RecordsFit(j, log, p, n))
    ensures |r.chains| == |t.chains|
  {
    if n == 0 then t else PassStep(log, pass, PassTable(j, log, pass, t, p, n - 1), Walk(j, log, pass, p, n - 1))
  }

  /** The table after n blocks of the revoke pass. */
  ghost function RevokeWalk(j: Journal, log: Log, t: R.Table, p: Progress, n: nat): (r: R.Table)
    requires Valid(j) && Blocks(log) && RecordsFit(j, log, p, n) && |t.chains| > 0
    ensures |r.chains| == |t.chains|
  {
    PassTable(j, log, Revoke, t, p, n)
  }

  /** Some revoke block met by the walk lists the block, for a transaction of at least s. */
  ghost predicate RevokedBy(j: Journal, log: Log, p: Progress, n: nat, blocknr: nat, s: nat)
    requires Valid(j) && Blocks(log) && RecordsFit(j, log, p, n)
  {
    exists k: nat :: k < n && Lists(log, Walk(j, log, Revoke, p, k), blocknr, s)
  }

  ghost predicate Lists(log: Log, p: Progress, blocknr: nat, s: nat)
    requires Blocks(log) && RecordFits(log, p)
  {
    AtRevoke(log, p) && R.Lists(Read(log, p.block), GetU32(Read(log, p.block), 12), blocknr) && p.id % R.TID >= s
  }

  /** After n blocks of the revoke pass, a block is recorded up to sequence s exactly when it was
      before or some revoke block on the way revoked it up to a transaction of at least s. */
  lemma {:induction false} RevokePassRecords(j: Journal, log: Log, t: R.Table, p: Progress, n: nat, blocknr: nat,
          s: nat)
    requires Valid(j) && Blocks(log) && RecordsFit(j, log, p, n) && |t.chains| > 0
    ensures R.Recorded(RevokeWalk(j, log, t, p, n), blocknr) >= s <==>
              R.Recorded(t, blocknr) >= s || RevokedBy(j, log, p, n, blocknr, s)
  {
    hide Step, R.ScanRecord, R.Recorded, R.Lists, GetU32;
    if n > 0 {
      var at := Walk(j, log, Revoke, p, n - 1);
      RevokePassRecords(j, log, t, p, n - 1, blocknr, s);
      if AtRevoke(log, at) {
        R.ScanRevokes(RevokeWalk(j, log, t, p, n - 1), Read(log, at.block), at.id, blocknr, s);
      }
      assert RevokedBy(j, log, p, n, blocknr, s) <==>
          RevokedBy(j, log, p, n - 1, blocknr, s) || Lists(log, at, blocknr, s);
    }
  }

  /** Recovery's table answers for the log: after the revoke pass over a fresh table, a block tests
      as revoked at a sequence exactly when a revoke block on the walk says so. */
  lemma RevokePassMeans(j: Journal, log: Log, hashSize: nat, p: Progress, n: nat, blocknr: nat, s: nat)
    requires Valid(j) && Blocks(log) && RecordsFit(j, log, p, n) && hashSize > 0
    ensures var t := RevokeWalk(j, log, R.EmptyTable(hashSize), p, n);
      R.TestRevoke(t, blocknr, s) == if RevokedBy(j, log, p, n, blocknr, s) then 1 else 0
  {
    RevokePassRecords(j, log, R.EmptyTable(hashSize), p, n, blocknr, s);
  }
}
