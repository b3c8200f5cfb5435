/** One shard's exported state: a register holding the last sequence number and time with a dirty
    flag, a packed average, running totals and a gas window. */
module ShardStates {
  import opened Words
  import opened PackedAverages
  import opened GasWindows
  import opened ShortNames

  datatype ShardChainStats = ShardChainStats(
    shardTag: u64,
    seqno: u32,
    utime: u32,
    transactionCount: u32,
    accountBlocksCount: u32,
    contractDeployments: u32,
    contractDestructions: u32,
    totalGasUsed: u64,
    outInMessageRatio: real,
    outMessageAccountRatio: real)

  /** What a block brings to the gas window. */
  function SampleOf(s: ShardChainStats): Sample {
    Sample(s.totalGasUsed, s.outInMessageRatio, s.outMessageAccountRatio)
  }

  // ----- the dirty-flag register -----

  const DIRTY_FLAG: nat := TWO_31

  predicate IsDirty(word: u64) { word / DIRTY_FLAG % 2 == 1 }

  /** word | DIRTY_FLAG */
  function SetDirty(word: u64): u64 {
    if IsDirty(word) then word else
      assert word + DIRTY_FLAG < TWO_64 by { assert word / DIRTY_FLAG < 0x2_0000_0000; }
      word + DIRTY_FLAG
  }

  /** word & DIRTY_MASK */
  function ClearDirty(word: u64): u64 {
    if IsDirty(word) then word - DIRTY_FLAG else word
  }

  function StoredWord(seqno: u32, utime: u32): u64 { SetDirty(seqno * TWO_32 + utime) }

  function LoadedWord(word: u64): Option<(u32, u32)> {
    if IsDirty(word) then Some((word / TWO_32, ClearDirty(word) % TWO_32)) else None
  }

  /** A stored pair comes back once, the time without its top bit; then nothing, until the next
      store. */
  lemma RegisterRoundTrip(seqno: u32, utime: u32)
    ensures LoadedWord(StoredWord(seqno, utime)) == Some((seqno, utime % TWO_31))
    ensures LoadedWord(ClearDirty(StoredWord(seqno, utime))).None?
    ensures LoadedWord(StoredWord(seqno, utime)) == Some((seqno, utime)) <==> utime < TWO_31
  {
    var word := seqno * TWO_32 + utime;
    var low := utime % TWO_31;
    assert word / TWO_31 == seqno * 2 + utime / TWO_31;
    assert StoredWord(seqno, utime) == seqno * TWO_32 + TWO_31 + low;
    assert (seqno * TWO_32 + TWO_31 + low) / TWO_31 == seqno * 2 + 1;
    assert ClearDirty(StoredWord(seqno, utime)) == seqno * TWO_32 + low;
    assert (seqno * TWO_32 + low) / TWO_31 == seqno * 2;
  }

  // ----- the whole entry, and the atomic steps of an update -----

  datatype Entry = Entry(
    seqnoAndUtime: u64,
    average: u64,
    totalTransactionCount: u32,
    accountBlocks: u32,
    contractDeployments: u32,
    contractDestructions: u32,
    gas: Option<GasWindow>)

  function NewEntry(s: ShardChainStats): Entry {
    Entry(
      StoredWord(s.seqno, s.utime), Packed(s.transactionCount),
      s.transactionCount, s.accountBlocksCount, s.contractDeployments, s.contractDestructions,
      Some(FirstOf(SampleOf(s))))
  }

  /** The number of atomic steps in an update. */
  const STEPS: nat := 7

  /** Step i of an update, each atomic, with anything in between. */
  function UpdateStep(e: Entry, s: ShardChainStats, i: nat): Entry
    requires i < STEPS
  {
    match i
    case 0 => e.(seqnoAndUtime := StoredWord(s.seqno, s.utime))
    case 1 => e.(average := PushWord(e.average, s.transactionCount))
    case 2 => e.(totalTransactionCount := (e.totalTransactionCount + s.transactionCount) % TWO_32)
    case 3 => e.(accountBlocks := (e.accountBlocks + s.accountBlocksCount) % TWO_32)
    case 4 => e.(contractDeployments := (e.contractDeployments + s.contractDeployments) % TWO_32)
    case 5 => e.(contractDestructions := (e.contractDestructions + s.contractDestructions) % TWO_32)
    case 6 => e.(gas := Record(e.gas, SampleOf(s)))
  }

  /** An update from step i on, undisturbed. */
  function UpdatedFrom(e: Entry, s: ShardChainStats, i: nat): Entry
    requires i <= STEPS
    decreases STEPS - i
  {
    if i == STEPS then e else UpdatedFrom(UpdateStep(e, s, i), s, i + 1)
  }

  function Updated(e: Entry, s: ShardChainStats): Entry { UpdatedFrom(e, s, 0) }

  class ShardState {
    const shortName: string
    var seqnoAndUtime: u64
    /** The word of its `AverageValueCounter`, which is embedded by value. */
    var average: u64
    var totalTransactionCount: u32
    var accountBlocks: u32
    var contractDeployments: u32
    var contractDestructions: u32
    var tempState: Option<GasWindow>

    ghost function Snapshot(): Entry
      reads this
    {
      Entry(seqnoAndUtime, average, totalTransactionCount, accountBlocks,
            contractDeployments, contractDestructions, tempState)
    }

    constructor (stats: ShardChainStats)
      ensures Snapshot() == NewEntry(stats)
      ensures shortName == MakeShortShardName(stats.shardTag)
    {
      shortName := MakeShortShardName(stats.shardTag);
      seqnoAndUtime := SetDirty(stats.seqno * TWO_32 + stats.utime);
      average := Packed(stats.transactionCount);
      totalTransactionCount := stats.transactionCount;
      accountBlocks := stats.accountBlocksCount;
      contractDeployments := stats.contractDeployments;
      contractDestructions := stats.contractDestructions;
      tempState := Some(GasWindow(1, stats.totalGasUsed, stats.totalGasUsed, stats.totalGasUsed,
                         stats.outInMessageRatio, stats.outMessageAccountRatio));
    }

    method Update(stats: ShardChainStats)
      modifies this
      ensures Snapshot() == Updated(old(Snapshot()), stats)
    {
      seqnoAndUtime := SetDirty(stats.seqno * TWO_32 + stats.utime);
      average := PushWord(average, stats.transactionCount);
      totalTransactionCount := (totalTransactionCount + stats.transactionCount) % TWO_32;
      accountBlocks := (accountBlocks + stats.accountBlocksCount) % TWO_32;
      contractDeployments := (contractDeployments + stats.contractDeployments) % TWO_32;
      contractDestructions := (contractDestructions + stats.contractDestructions) % TWO_32;
      tempState := match tempState
        case Some(w) =>
          Some(w.(
            samples := w.samples + 1,
            min := if stats.totalGasUsed < w.min then stats.totalGasUsed else w.min,
            max := if stats.totalGasUsed > w.max then stats.totalGasUsed else w.max,
            total := SaturatingAdd(w.total, stats.totalGasUsed),
            outPerIn := MaxReal(stats.outInMessageRatio, w.outPerIn),
            outPerAccount := MaxReal(stats.outMessageAccountRatio, w.outPerAccount)))
        case None =>
          Some(GasWindow(1, stats.totalGasUsed, stats.totalGasUsed, stats.totalGasUsed,
                         stats.outInMessageRatio, stats.outMessageAccountRatio));
    }

    /** Takes the gas window, leaving none. */
    method LoadTempState() returns (gas: Option<GasWindow>)
      modifies this
      ensures gas == old(tempState)
      ensures Snapshot() == old(Snapshot()).(gas := None)
    {
      gas := tempState;
      tempState := None;
    }

    /** Reads the register and clears the flag in one step. */
    method LoadSeqnoAndUtime() returns (pair: Option<(u32, u32)>)
      modifies this
      ensures pair == LoadedWord(old(seqnoAndUtime))
      ensures Snapshot() == old(Snapshot()).(seqnoAndUtime := ClearDirty(old(seqnoAndUtime)))
    {
      var value := seqnoAndUtime;
      seqnoAndUtime := ClearDirty(value);
      if IsDirty(value) {
        pair := Some((value / TWO_32, ClearDirty(value) % TWO_32));
      } else {
        pair := None;
      }
    }
  }

  /** An entry made from a block is an entry with empty counters updated with that block. */
  lemma NewEntryIsFirstUpdate(s: ShardChainStats, word: u64)
    ensures NewEntry(s) == Updated(Entry(word, 0, 0, 0, 0, 0, None), s)
  {
    var e := Entry(word, 0, 0, 0, 0, 0, None);
    var e1 := UpdateStep(e, s, 0);
    var e2 := UpdateStep(e1, s, 1);
    var e3 := UpdateStep(e2, s, 2);
    var e4 := UpdateStep(e3, s, 3);
    var e5 := UpdateStep(e4, s, 4);
    var e6 := UpdateStep(e5, s, 5);
    assert UpdatedFrom(e3, s, 3) == UpdateStep(e6, s, 6);
  }

  // ----- an entry and the blocks behind it -----

  function TransactionsOf(blocks: seq<ShardChainStats>): seq<u32> {
    seq(|blocks|, i requires 0 <= i < |blocks| => blocks[i].transactionCount)
  }

  function AccountBlocksOf(blocks: seq<ShardChainStats>): seq<u32> {
    seq(|blocks|, i requires 0 <= i < |blocks| => blocks[i].accountBlocksCount)
  }

  function DeploymentsOf(blocks: seq<ShardChainStats>): seq<u32> {
    seq(|blocks|, i requires 0 <= i < |blocks| => blocks[i].contractDeployments)
  }

  function DestructionsOf(blocks: seq<ShardChainStats>): seq<u32> {
    seq(|blocks|, i requires 0 <= i < |blocks| => blocks[i].contractDestructions)
  }

  function SamplesOf(blocks: seq<ShardChainStats>): seq<Sample> {
    seq(|blocks|, i requires 0 <= i < |blocks| =>
      Sample(blocks[i].totalGasUsed, blocks[i].outInMessageRatio, blocks[i].outMessageAccountRatio))
  }

  /** The totals are the sums over these blocks modulo 2^32. */
  ghost predicate TotalsTell(e: Entry, blocks: seq<ShardChainStats>) {
    && e.totalTransactionCount == Sum(TransactionsOf(blocks)) % TWO_32
    && e.accountBlocks == Sum(AccountBlocksOf(blocks)) % TWO_32
    && e.contractDeployments == Sum(DeploymentsOf(blocks)) % TWO_32
    && e.contractDestructions == Sum(DestructionsOf(blocks)) % TWO_32
  }

  /** The entry tells of exactly these blocks: their totals, the average over their transaction
      counts, the last one's number and time, and the window of their gas and ratios. */
  ghost predicate Tells(e: Entry, blocks: seq<ShardChainStats>) {
    && blocks != []
    && TotalsTell(e, blocks)
    && e.average == Pushed(TransactionsOf(blocks))
    && LoadedWord(e.seqnoAndUtime)
         == Some((blocks[|blocks| - 1].seqno, blocks[|blocks| - 1].utime % TWO_31))
    && Describes(e.gas, SamplesOf(blocks))
  }

  lemma UpdatedFields(e: Entry, s: ShardChainStats)
    ensures Updated(e, s) == Entry(
      StoredWord(s.seqno, s.utime),
      PushWord(e.average, s.transactionCount),
      (e.totalTransactionCount + s.transactionCount) % TWO_32,
      (e.accountBlocks + s.accountBlocksCount) % TWO_32,
      (e.contractDeployments + s.contractDeployments) % TWO_32,
      (e.contractDestructions + s.contractDestructions) % TWO_32,
      Record(e.gas, SampleOf(s)))
  {
    var e1 := UpdateStep(e, s, 0);
    var e2 := UpdateStep(e1, s, 1);
    var e3 := UpdateStep(e2, s, 2);
    var e4 := UpdateStep(e3, s, 3);
    var e5 := UpdateStep(e4, s, 4);
    var e6 := UpdateStep(e5, s, 5);
    assert UpdatedFrom(e3, s, 3) == UpdateStep(e6, s, 6);
  }

  lemma SumWrapped(total: u32, before: seq<nat>, x: u32)
    requires total == Sum(before) % TWO_32
    ensures (total + x) % TWO_32 == Sum(before + [x]) % TWO_32
  {
    assert (before + [x])[..|before|] == before;
    AddMod(Sum(before), x);
  }

  lemma TotalsAdd(e: Entry, blocks: seq<ShardChainStats>, s: ShardChainStats)
    requires TotalsTell(e, blocks)
    ensures TotalsTell(Updated(e, s), blocks + [s])
  {
    var more := blocks + [s];
    UpdatedFields(e, s);
    SumWrapped(e.totalTransactionCount, TransactionsOf(blocks), s.transactionCount);
    SumWrapped(e.accountBlocks, AccountBlocksOf(blocks), s.accountBlocksCount);
    SumWrapped(e.contractDeployments, DeploymentsOf(blocks), s.contractDeployments);
    SumWrapped(e.contractDestructions, DestructionsOf(blocks), s.contractDestructions);
    assert TransactionsOf(more) == TransactionsOf(blocks) + [s.transactionCount];
    assert AccountBlocksOf(more) == AccountBlocksOf(blocks) + [s.accountBlocksCount];
    assert DeploymentsOf(more) == DeploymentsOf(blocks) + [s.contractDeployments];
    assert DestructionsOf(more) == DestructionsOf(blocks) + [s.contractDestructions];
  }

  /** An update adds its block to what the entry tells. */
  lemma UpdateTells(e: Entry, blocks: seq<ShardChainStats>, s: ShardChainStats)
    requires Tells(e, blocks)
    ensures Tells(Updated(e, s), blocks + [s])
  {
    var more := blocks + [s];
    TotalsAdd(e, blocks, s);
    UpdatedFields(e, s);
    RegisterRoundTrip(s.seqno, s.utime);
    assert TransactionsOf(more)[..|blocks|] == TransactionsOf(blocks);
    RecordDescribes(e.gas, SamplesOf(blocks), SampleOf(s));
    assert SamplesOf(more) == SamplesOf(blocks) + [SampleOf(s)];
  }

  /** A new entry tells of its one block. */
  lemma NewEntryTells(s: ShardChainStats)
    ensures Tells(NewEntry(s), [s])
  {
    RegisterRoundTrip(s.seqno, s.utime);
    assert TransactionsOf([s])[..0] == AccountBlocksOf([s])[..0] == [];
    assert DeploymentsOf([s])[..0] == DestructionsOf([s])[..0] == [];
    RecordDescribes(None, [], SampleOf(s));
    assert SamplesOf([s]) == [] + [SampleOf(s)];
  }
}
