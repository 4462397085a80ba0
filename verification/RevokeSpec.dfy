/** The journal's revoke table on values (kernel/fs/fat/revoke.c and recovery.c): chained hashing
    of block numbers, against the plain set of revocations requested. */
module RevokeSpec {
  import opened Bits
  import opened SectorCache
  import opened FatEntries

  const TID: nat := 0x1_0000 // tid_t has 16 bits

  datatype Entry = Entry(blocknr: nat, sequence: nat)

  /** The chains of the table and its hash_shift. */
  datatype Table = Table(chains: seq<seq<Entry>>, shift: nat)

  /** b << k on a u32. C leaves a count outside 0..31 undefined; the kernel's MIPS shift takes its
      low five bits. */
  function ShiftLeft(b: nat, k: int): nat
  {
    b * Pow2(k % 32) % WORD
  }

  function Mix(shift: nat, blocknr: nat): nat
  {
    Xor(Xor(ShiftLeft(blocknr, shift - 6), blocknr / Pow2(13)), ShiftLeft(blocknr, shift - 12))
  }

  /** hash: whatever the bits, masking with hash_size - 1 stays inside the table. */
  function Hash(t: Table, blocknr: nat): (h: nat)
    requires |t.chains| > 0
    ensures h < |t.chains|
  {
    AndBound(Mix(t.shift, blocknr), |t.chains| - 1);
    And(Mix(t.shift, blocknr), |t.chains| - 1)
  }

  /** Bit i of b << k, where b << k is a u32. */
  function BitOfShift(b: nat, k: nat, i: nat): nat
  {
    if i < k then 0 else Bit(b, i - k)
  }

  /** Bit i of a block's place in a table of 2^s chains: the XOR of three bits of the block's number. */
  lemma HashBits(t: Table, s: nat, b: nat, i: nat)
    requires s < 32 && |t.chains| == Pow2(s) && t.shift == s && i < s
    ensures Bit(Hash(t, b), i) ==
            (BitOfShift(b, (s - 6) % 32, i) + Bit(b, i + 13) + BitOfShift(b, (s - 12) % 32, i)) % 2
  {
    hide And, Bit, Pow2, Mix, BitOfShift;
    AndLowMask(Mix(s, b), s);
    ModBit(Mix(s, b), s, i);
    MixBits(s, b, i);
  }

  lemma MixBits(s: nat, b: nat, i: nat)
    requires i < s < 32
    ensures Bit(Mix(s, b), i) ==
            (BitOfShift(b, (s - 6) % 32, i) + Bit(b, i + 13) + BitOfShift(b, (s - 12) % 32, i)) % 2
  {
    hide Xor, Bit, Pow2, ShiftLeft, BitOfShift;
    var x, y, z := ShiftLeft(b, s - 6), b / Pow2(13), ShiftLeft(b, s - 12);
    XorBit(Xor(x, y), z, i);
    XorBit(x, y, i);
    ShiftRightBit(b, 13, y, i);
    ShiftedBit(b, s - 6, i);
    ShiftedBit(b, s - 12, i);
    assert Mix(s, b) == Xor(Xor(x, y), z);
  }

  lemma ShiftedBit(b: nat, k: int, i: nat)
    requires i < 32
    ensures Bit(ShiftLeft(b, k), i) == BitOfShift(b, k % 32, i)
  {
    hide Bit, Pow2;
    Pow2Values();
    ShiftLeftBit(b, k % 32, i);
    ModBit(b * Pow2(k % 32), 32, i);
  }

  /** The position of a block's record in its chain, or the chain's length. */
  function Locate(chain: seq<Entry>, blocknr: nat): (i: nat)
    ensures i <= |chain| && (i < |chain| ==> chain[i].blocknr == blocknr)
    ensures forall j :: 0 <= j < i ==> chain[j].blocknr != blocknr
  {
    if chain == [] then 0 else if chain[0].blocknr == blocknr then 0 else 1 + Locate(chain[1..], blocknr)
  }

  /** tid_gt subtracts after promotion to int, so it is plain comparison. */
  predicate TidGt(x: nat, y: nat)
  {
    x - y > 0
  }

  /** journal_set_revoke */
  function SetRevoke(t: Table, blocknr: nat, sequence: nat): (r: Table)
    requires |t.chains| > 0
    ensures |r.chains| == |t.chains| && r.shift == t.shift
  {
    var h := Hash(t, blocknr);
    var chain := t.chains[h];
    var i := Locate(chain, blocknr);
    if i < |chain| then
      if TidGt(sequence, chain[i].sequence) then t.(chains := t.chains[h := chain[i := Entry(blocknr, sequence)]])
      else t
    else t.(chains := t.chains[h := [Entry(blocknr, sequence)] + chain])
  }

  /** journal_test_revoke */
  function TestRevoke(t: Table, blocknr: nat, sequence: nat): int
    requires |t.chains| > 0
  {
    var chain := t.chains[Hash(t, blocknr)];
    var i := Locate(chain, blocknr);
    if i == |chain| || TidGt(sequence, chain[i].sequence) then 0 else 1
  }

  /** The number of times n can be halved before it is 0, less one. */
  function FloorLog(n: nat): nat
  {
    if n < 2 then 0 else 1 + FloorLog(n / 2)
  }

  /** journal_init_revoke_table */
  function EmptyTable(hashSize: nat): Table
  {
    Table(seq(hashSize, _ => []), FloorLog(hashSize))
  }

  /** Its hash_shift is s for 2^s chains. */
  lemma {:induction false} ShiftIs(s: nat)
    ensures EmptyTable(Pow2(s)).shift == s
  {
    if s > 0 { ShiftIs(s - 1); }
  }

  /** What the table stands for: the recorded sequence of a block, or -1. */
  function Recorded(t: Table, blocknr: nat): int
    requires |t.chains| > 0
  {
    var chain := t.chains[Hash(t, blocknr)];
    var i := Locate(chain, blocknr);
    if i < |chain| then chain[i].sequence else -1
  }

  /** Setting a revocation raises the block's recorded sequence to at least the new one and leaves
      every other block alone, hash collisions included. */
  lemma SetRecords(t: Table, blocknr: nat, sequence: nat, other: nat)
    requires |t.chains| > 0
    ensures Recorded(SetRevoke(t, blocknr, sequence), other) ==
              if other == blocknr && sequence > Recorded(t, blocknr) then sequence else Recorded(t, other)
  {
    hide And;
    var r := SetRevoke(t, blocknr, sequence);
    var h := Hash(t, blocknr);
    var chain := t.chains[h];
    assert Hash(r, other) == Hash(t, other);
    if Hash(t, other) == h {
      var i := Locate(chain, blocknr);
      if i < |chain| {
        LocateAfterUpdate(chain, i, sequence, other);
      }
    }
  }

  lemma {:induction false} LocateAfterUpdate(chain: seq<Entry>, i: nat, sequence: nat, other: nat)
    requires i < |chain|
    ensures Locate(chain[i := Entry(chain[i].blocknr, sequence)], other) == Locate(chain, other)
  {
    var u := chain[i := Entry(chain[i].blocknr, sequence)];
    if chain[0].blocknr != other && i > 0 {
      assert u[1..] == chain[1..][i - 1 := Entry(chain[i].blocknr, sequence)];
      LocateAfterUpdate(chain[1..], i - 1, sequence, other);
    } else if i == 0 {
      assert u[1..] == chain[1..];
    }
  }

  datatype Call = Call(blocknr: nat, sequence: nat)

  /** A sequence of journal_set_revoke calls. */
  function SetAll(t: Table, calls: seq<Call>): (r: Table)
    requires |t.chains| > 0
    ensures |r.chains| == |t.chains| && r.shift == t.shift
    decreases |calls|
  {
    if calls == [] then t else SetAll(SetRevoke(t, calls[0].blocknr, calls[0].sequence), calls[1..])
  }

  ghost predicate Revoked(calls: seq<Call>, blocknr: nat, sequence: nat)
  {
    exists i :: 0 <= i < |calls| && calls[i].blocknr == blocknr && calls[i].sequence >= sequence
  }

  lemma {:induction false} SetAllRecords(t: Table, calls: seq<Call>, blocknr: nat, sequence: nat)
    requires |t.chains| > 0
    ensures Recorded(SetAll(t, calls), blocknr) >= sequence <==>
              Recorded(t, blocknr) >= sequence || Revoked(calls, blocknr, sequence)
    decreases |calls|
  {
    if calls != [] {
      var c, rest := calls[0], calls[1..];
      SetRecords(t, c.blocknr, c.sequence, blocknr);
      SetAllRecords(SetRevoke(t, c.blocknr, c.sequence), rest, blocknr, sequence);
      if Revoked(rest, blocknr, sequence) {
        var i :| 0 <= i < |rest| && rest[i].blocknr == blocknr && rest[i].sequence >= sequence;
        assert calls[i + 1] == rest[i];
      }
      if Revoked(calls, blocknr, sequence) {
        var i :| 0 <= i < |calls| && calls[i].blocknr == blocknr && calls[i].sequence >= sequence;
        if i > 0 { assert rest[i - 1] == calls[i]; }
      }
    }
  }

  /** After any calls on an initialised table, a block tests as revoked at a sequence exactly when
      some call named the block with at least that sequence. */
  lemma TestMeansRevoked(hashSize: nat, calls: seq<Call>, blocknr: nat, sequence: nat)
    requires hashSize > 0
    ensures TestRevoke(SetAll(EmptyTable(hashSize), calls), blocknr, sequence) ==
              if Revoked(calls, blocknr, sequence) then 1 else 0
  {
    SetAllRecords(EmptyTable(hashSize), calls, blocknr, sequence);
  }

  // ----- revoke records -----

  const HEADER: nat := 16 // sizeof(journal_revoke_header_t)

  /** The block numbers listed in a revoke record, from the k-th word on, up to r_count bytes. */
  function Listed(d: Data, k: nat, max: nat): seq<nat>
    requires max <= |d| == SECTOR_SIZE
    decreases max - k
  {
    if HEADER + 4 * k >= max then [] else [GetU32(d, HEADER + 4 * k)] + Listed(d, k + 1, max)
  }

  function CallsFor(blocks: seq<nat>, sequence: nat): seq<Call>
  {
    if blocks == [] then [] else [Call(blocks[0], sequence)] + CallsFor(blocks[1..], sequence)
  }

  /** scan_revoke_records on a record; sequence arrives as a tid_t. */
  function ScanRecord(t: Table, d: Data, sequence: nat): Table
    requires |t.chains| > 0 && |d| == SECTOR_SIZE && GetU32(d, 12) <= SECTOR_SIZE
  {
    SetAll(t, CallsFor(Listed(d, 0, GetU32(d, 12)), sequence % TID))
  }

  lemma {:induction false} RevokedByCalls(blocks: seq<nat>, sequence: nat, blocknr: nat, s: nat)
    ensures |CallsFor(blocks, sequence)| == |blocks|
    ensures forall i :: 0 <= i < |blocks| ==> CallsFor(blocks, sequence)[i] == Call(blocks[i], sequence)
    ensures Revoked(CallsFor(blocks, sequence), blocknr, s) <==> blocknr in blocks && sequence >= s
  {
    if blocks != [] { RevokedByCalls(blocks[1..], sequence, blocknr, s); }
    var calls := CallsFor(blocks, sequence);
    if blocknr in blocks {
      var i :| 0 <= i < |blocks| && blocks[i] == blocknr;
      assert calls[i] == Call(blocknr, sequence);
    }
  }

  /** The record of r_count = max bytes lists a block: one of its words from byte 16 on is the block's
      number. */
  ghost predicate Lists(d: Data, max: nat, blocknr: nat)
    requires max <= |d| == SECTOR_SIZE
  {
    exists k: nat :: ListsAt(d, max, blocknr, k)
  }

  ghost predicate ListsAt(d: Data, max: nat, blocknr: nat, k: nat)
    requires max <= |d| == SECTOR_SIZE
  {
    16 + 4 * k < max && GetU32(d, 16 + 4 * k) == blocknr
  }

  lemma {:induction false} ListedFrom(d: Data, k: nat, max: nat, blocknr: nat)
    requires max <= |d| == SECTOR_SIZE
    ensures blocknr in Listed(d, k, max) <==> exists i: nat :: k <= i && ListsAt(d, max, blocknr, i)
    decreases max - k
  {
    hide GetU32;
    if HEADER + 4 * k < max {
      ListedFrom(d, k + 1, max, blocknr);
      if blocknr in Listed(d, k, max) && GetU32(d, HEADER + 4 * k) == blocknr { assert ListsAt(d, max, blocknr, k); }
    }
  }

  lemma ListedIs(d: Data, max: nat, blocknr: nat)
    requires max <= |d| == SECTOR_SIZE
    ensures blocknr in Listed(d, 0, max) <==> Lists(d, max, blocknr)
  {
    hide GetU32, Listed, ListsAt;
    ListedFrom(d, 0, max, blocknr);
  }

  /** Scanning a record revokes exactly the blocks it lists, up to its transaction. */
  lemma ScanRevokes(t: Table, d: Data, sequence: nat, blocknr: nat, s: nat)
    requires |t.chains| > 0 && |d| == SECTOR_SIZE && GetU32(d, 12) <= SECTOR_SIZE
    ensures Recorded(ScanRecord(t, d, sequence), blocknr) >= s <==>
              Recorded(t, blocknr) >= s || (Lists(d, GetU32(d, 12), blocknr) && sequence % 0x1_0000 >= s)
  {
    var blocks := Listed(d, 0, GetU32(d, 12));
    ListedIs(d, GetU32(d, 12), blocknr);
    SetAllRecords(t, CallsFor(blocks, sequence % TID), blocknr, s);
    RevokedByCalls(blocks, sequence % TID, blocknr, s);
  }
}
