/** The recovery passes of kernel/fs/fat/recovery.c and the ring pointers of journal.c as the code
    runs them. A pass has no bound of its own, so it is given a number of blocks to look at. */
module Recovery {
  import opened Bits
  import opened SectorCache
  import opened FatEntries
  import opened FatBuffers
  import opened Revoke
  import R = RevokeSpec
  import S = RecoverySpec

  /** journal_pointer_increment */
  method JournalPointerIncrement(pointer: nat, j: S.Journal) returns (p: nat)
    requires S.Valid(j)
    ensures p == S.Increment(j, pointer)
  {
    p := (pointer + 1) % WORD;
    if p >= j.last {
      p := p - (j.last - j.first);
    }
  }

  /** journal_pointer_move */
  method JournalPointerMove(pointer: nat, j: S.Journal, length: nat) returns (p: nat)
    requires S.Valid(j)
    ensures p == S.Move(j, pointer, length)
  {
    p := (pointer + length) % WORD;
    if p >= j.last {
      p := p - (j.last - j.first);
    } else if p <= 0 {
      p := p + (j.last - j.first);
    }
  }

  /** count_tags */
  method CountTags(bh: Data, size: nat) returns (nr: nat)
    requires size <= |bh| == SECTOR_SIZE
    ensures nr == S.CountTags(bh, size)
  {
    hide GetU32, And;
    var tagp: nat := S.HEADER;
    nr := 0;
    while tagp + S.TAG <= size
      invariant nr + |S.ScanTags(bh, tagp, size)| == S.CountTags(bh, size)
      decreases size - tagp
    {
      var flags := LoadU32(bh, tagp + 4);
      var last := And(flags, S.LAST_TAG) != 0;
      nr := nr + 1;
      if last { break; }
      tagp := tagp + S.TAG;
    }
  }

  /** What the other passes do at a descriptor block. */
  method SkipDescriptor(j: S.Journal, bh: Data, next: nat) returns (block: nat)
    requires S.Valid(j) && |bh| == SECTOR_SIZE
    ensures block == S.Wrap(j, (next + S.CountTags(bh, j.blocksize)) % WORD)
  {
    hide S.CountTags;
    var nr := CountTags(bh, j.blocksize);
    block := (next + nr) % WORD;
    if block >= j.last {
      block := block - (j.last - j.first);
    }
  }

  /** The tag loop of the replay pass, which takes one log block per tag. */
  method ReplayDescriptor(j: S.Journal, bh: Data, next: nat) returns (block: nat)
    requires S.Valid(j) && |bh| == SECTOR_SIZE
    ensures block == S.Advance(j, next, |S.ReplayTags(bh, S.HEADER, j.blocksize)|)
  {
    hide GetU32, And, S.Increment;
    var tagp: nat := S.HEADER;
    block := next;
    while tagp + S.TAG <= j.blocksize
      invariant S.Advance(j, block, |S.ReplayTags(bh, tagp, j.blocksize)|) ==
                S.Advance(j, next, |S.ReplayTags(bh, S.HEADER, j.blocksize)|)
      decreases j.blocksize - tagp
    {
      var flags := LoadU32(bh, tagp + 4);
      var same, last := And(flags, S.SAME_UUID) != 0, And(flags, S.LAST_TAG) != 0;
      ghost var rest := S.ReplayTags(bh, if same then tagp + S.TAG else tagp + S.TAG + 16, j.blocksize);
      assert S.ReplayTags(bh, tagp, j.blocksize) == if last then [tagp] else [tagp] + rest;
      block := JournalPointerIncrement(block, j);
      tagp := tagp + S.TAG;
      if !same {
        tagp := tagp + 16;
      }
      if last { break; }
    }
  }

  /** The magic and sequence checks on a block just read. */
  method CheckHeader(bh: Data, id: nat) returns (expected: bool)
    requires |bh| == SECTOR_SIZE
    ensures expected == S.Expected(bh, id)
    ensures expected <==> GetU32(bh, 0) == 0x03b3998 && GetU32(bh, 8) == id
  {
    hide GetU32;
    var magic := LoadU32(bh, 0);
    if magic != S.MAGIC {
      return false;
    }
    var sequence := LoadU32(bh, 8);
    expected := sequence == id;
  }

  /** The switch of do_one_pass on a block that is not a revoke block. */
  method Dispatch(j: S.Journal, bh: Data, pass: S.Pass, block: nat, id: nat, ghost log: S.Log) returns (p: S.Progress)
    requires S.Valid(j) && |bh| == SECTOR_SIZE && S.Read(log, block) == bh && S.Expected(bh, id)
        && GetU32(bh, 4) != S.REVOKE
    ensures p == S.Step(j, log, pass, S.At(block, id))
  {
    hide GetU32, And, S.CountTags, S.ReplayTags, S.Advance, S.Wrap, S.Increment;
    var next := JournalPointerIncrement(block, j);
    var blocktype := LoadU32(bh, 4);
    if blocktype == S.DESCRIPTOR {
      if pass != S.Replay {
        next := SkipDescriptor(j, bh, next);
      } else {
        next := ReplayDescriptor(j, bh, next);
      }
      return S.At(next, id);
    }
    if blocktype == S.COMMIT {
      return S.At(next, (id + 1) % WORD);
    }
    p := S.Ended(id);
  }

  /** The cases of Step and PassStep that concern the table. */
  lemma TableCases(j: S.Journal, log: S.Log, pass: S.Pass, t: R.Table, block: nat, id: nat)
    requires S.Valid(j) && S.Blocks(log) && |t.chains| > 0 && (pass == S.Revoke ==> S.RecordFits(log, S.At(block, id)))
    ensures |S.Read(log, block)| == SECTOR_SIZE
    ensures pass == S.Revoke && S.Expected(S.Read(log, block), id) && GetU32(S.Read(log, block), 4) == S.REVOKE ==>
              GetU32(S.Read(log, block), 12) <= SECTOR_SIZE
    ensures !S.Expected(S.Read(log, block), id) ==> S.Step(j, log, pass, S.At(block, id)) == S.Ended(id)
    ensures !S.Expected(S.Read(log, block), id) || GetU32(S.Read(log, block), 4) != S.REVOKE || pass != S.Revoke ==>
              S.PassStep(log, pass, t, S.At(block, id)) == t
    ensures S.Expected(S.Read(log, block), id) && GetU32(S.Read(log, block), 4) == S.REVOKE ==>
              && S.Step(j, log, pass, S.At(block, id)) == S.At(S.Increment(j, block), id)
              && (pass == S.Revoke ==>
                    S.PassStep(log, pass, t, S.At(block, id)) == R.ScanRecord(t, S.Read(log, block), id))
  {
    hide R.ScanRecord, GetU32, S.Expected, S.CountTags, S.ReplayTags;
  }

  /** A revoke block: only the revoke pass looks into it. */
  method RevokeBlock(bh: Data, pass: S.Pass, id: nat, table: RevokeTable)
    requires |bh| == SECTOR_SIZE && (pass == S.Revoke ==> GetU32(bh, 12) <= SECTOR_SIZE) && table.Valid()
    modifies table`lists, table`repr, table.repr
    ensures table.Valid() && fresh(table.repr - old(table.repr))
    ensures table.State() ==
            if pass == S.Revoke then R.ScanRecord(old(table.State()), bh, id) else old(table.State())
  {
    hide GetU32, R.ScanRecord, RevokeTable.Valid, RevokeTable.State;
    if pass == S.Revoke {
      var nr := table.ScanRevokeRecords(bh, id);
    }
  }

  /** One iteration of the loop of do_one_pass; p is ended where the code leaves the loop. */
  method OneBlock(j: S.Journal, log: S.Log, pass: S.Pass, block: nat, id: nat, table: RevokeTable)
    returns (p: S.Progress)
    requires S.Valid(j) && S.Blocks(log) && table.Valid()
    requires pass == S.Revoke ==> S.RecordFits(log, S.At(block, id))
    modifies table`lists, table`repr, table.repr
    ensures p == S.Step(j, log, pass, S.At(block, id))
    ensures table.Valid() && fresh(table.repr - old(table.repr))
    ensures table.State() == S.PassStep(log, pass, old(table.State()), S.At(block, id))
  {
    hide GetU32, R.ScanRecord, S.Read, S.Step, S.PassStep, S.Expected, S.Valid, S.Blocks, S.RecordFits;
    hide RevokeTable.Valid, RevokeTable.State;
    TableCases(j, log, pass, table.State(), block, id);
    var bh := S.Read(log, block);
    p := S.Ended(id);
    var expected := CheckHeader(bh, id);
    if expected {
      var blocktype := LoadU32(bh, 4);
      if blocktype == S.REVOKE {
        var next := JournalPointerIncrement(block, j);
        RevokeBlock(bh, pass, id, table);
        p := S.At(next, id);
      } else {
        p := Dispatch(j, bh, pass, block, id, log);
      }
    }
  }

  /** Once out of the loop, a pass has nothing left to do. */
  lemma {:induction false} WalkEnded(j: S.Journal, log: S.Log, pass: S.Pass, t: R.Table, p: S.Progress, n: nat, m: nat)
    requires S.Valid(j) && S.Blocks(log) && |t.chains| > 0 && (pass == S.Revoke ==> S.RecordsFit(j, log, p, m))
    requires n <= m && S.Walk(j, log, pass, p, n).Ended?
    ensures S.Walk(j, log, pass, p, m) == S.Walk(j, log, pass, p, n)
    ensures S.PassTable(j, log, pass, t, p, m) == S.PassTable(j, log, pass, t, p, n)
    decreases m - n
  {
    hide R.ScanRecord;
    if n < m { WalkEnded(j, log, pass, t, p, n, m - 1); }
  }

  /** do_one_pass, over at most limit blocks */
  method DoOnePass(j: S.Journal, log: S.Log, pass: S.Pass, start: nat, sequence: nat, table: RevokeTable, limit: nat)
    returns (p: S.Progress)
    requires S.Valid(j) && S.Blocks(log) && table.Valid()
    requires pass == S.Revoke ==> S.RecordsFit(j, log, S.At(start, sequence), limit)
    modifies table`lists, table`repr, table.repr
    ensures p == S.Walk(j, log, pass, S.At(start, sequence), limit)
    ensures table.Valid() && fresh(table.repr - old(table.repr))
    ensures table.State() == S.PassTable(j, log, pass, old(table.State()), S.At(start, sequence), limit)
  {
    hide S.Read, S.Step, S.PassStep, S.Blocks, RevokeTable.Valid, RevokeTable.State;
    ghost var t := table.State();
    ghost var first := table.repr;
    p := S.At(start, sequence);
    var n := 0;
    while n < limit && p.At?
      invariant n <= limit && p == S.Walk(j, log, pass, S.At(start, sequence), n)
      invariant table.Valid() && fresh(table.repr - first)
      invariant table.State() == S.PassTable(j, log, pass, t, S.At(start, sequence), n)
    {
      p := OneBlock(j, log, pass, p.block, p.id, table);
      n := n + 1;
    }
    assert p.At? ==> n == limit;
    if p.Ended? { WalkEnded(j, log, pass, t, S.At(start, sequence), n, limit); }
  }

  /** journal_recover */
  method JournalRecover(j: S.Journal, log: S.Log, start: nat, sequence: nat, table: RevokeTable, limit: nat)
    returns (outcome: S.Outcome)
    requires S.Valid(j) && S.Blocks(log) && table.Valid()
    requires start != 0 ==> S.RecordsFit(j, log, S.At(start, sequence), limit)
    modifies table`lists, table`repr, table.repr
    ensures outcome == S.Recover(j, log, start, sequence, limit)
    ensures table.Valid()
    ensures outcome.Sequence? && start != 0 ==>
              table.State() == S.RevokeWalk(j, log, old(table.State()), S.At(start, sequence), limit)
  {
    hide S.Walk, S.PassTable, S.RevokeWalk, RevokeTable.Valid, RevokeTable.State;
    ghost var t := table.State();
    if start == 0 {
      return S.Sequence((sequence + 1) % R.TID);
    }
    PassTables(j, log, t, S.At(start, sequence), limit);
    var p := DoOnePass(j, log, S.Scan, start, sequence, table, limit);
    if p.At? {
      return S.Running;
    }
    var endTransaction := p.id % R.TID;
    p := DoOnePass(j, log, S.Revoke, start, sequence, table, limit);
    if p.At? {
      return S.Running;
    }
    if endTransaction != p.id {
      return S.Mismatch;
    }
    PassTables(j, log, table.State(), S.At(start, sequence), limit);
    p := DoOnePass(j, log, S.Replay, start, sequence, table, limit);
    if p.At? {
      return S.Running;
    }
    if endTransaction != p.id {
      return S.Mismatch;
    }
    outcome := S.Sequence((endTransaction + 1) % R.TID);
  }

  /** Only the revoke pass changes the table. */
  lemma {:induction false} PassTables(j: S.Journal, log: S.Log, t: R.Table, p: S.Progress, n: nat)
    requires S.Valid(j) && S.Blocks(log) && S.RecordsFit(j, log, p, n) && |t.chains| > 0
    ensures S.PassTable(j, log, S.Scan, t, p, n) == S.PassTable(j, log, S.Replay, t, p, n) == t
    ensures S.PassTable(j, log, S.Revoke, t, p, n) == S.RevokeWalk(j, log, t, p, n)
  {
    hide S.Step, R.ScanRecord;
    if n > 0 { PassTables(j, log, t, p, n - 1); }
  }
}
