/** The fold over a block's account blocks and their transactions that counts, among others,
    contract deployments and destructions. */
module BlockFold {
  import opened Words

  datatype AccountStatus = Uninit | Frozen | Active | Nonexist

  datatype Tx = Tx(
    origStatus: AccountStatus,
    endStatus: AccountStatus,
    outMessages: nat,
    externalIn: bool,   // has an inbound external message
    gasUsed: nat)

  /** The transactions of one account in a block, in order. */
  type AccountBlock = seq<Tx>

  datatype Totals = Totals(
    transactions: nat, messages: nat, accountBlocks: nat,
    deployments: nat, destructions: nat, gas: nat)

  const NOTHING: Totals := Totals(0, 0, 0, 0, 0, 0)

  predicate Deploys(tx: Tx) { !tx.origStatus.Active? && tx.endStatus.Active? }

  predicate Destroys(tx: Tx) { tx.origStatus.Active? && !tx.endStatus.Active? }

  function Flag(b: bool): nat { if b then 1 else 0 }

  function CountTx(t: Totals, tx: Tx): Totals {
    Totals(t.transactions + 1, t.messages + tx.outMessages + Flag(tx.externalIn), t.accountBlocks,
           t.deployments + Flag(Deploys(tx)), t.destructions + Flag(Destroys(tx)), t.gas + tx.gasUsed)
  }

  function CountAccount(t: Totals, acc: AccountBlock): Totals {
    if acc == [] then t else CountTx(CountAccount(t, acc[..|acc| - 1]), acc[|acc| - 1])
  }

  function CountBlock(block: seq<AccountBlock>): Totals {
    if block == [] then NOTHING else
      var before := CountBlock(block[..|block| - 1]);
      CountAccount(before.(accountBlocks := before.accountBlocks + 1), block[|block| - 1])
  }

  method FoldBlock(block: seq<AccountBlock>) returns (t: Totals)
    ensures t == CountBlock(block)
    ensures Counts(NOTHING, t, Transactions(block)) && t.accountBlocks == |block|
  {
    var transactions: nat, messages: nat, accountBlocks: nat := 0, 0, 0;
    var deployments: nat, destructions: nat, gas: nat := 0, 0, 0;
    for i := 0 to |block|
      invariant Totals(transactions, messages, accountBlocks, deployments, destructions, gas) == CountBlock(block[..i])
    {
      accountBlocks := accountBlocks + 1;
      var acc := block[i];
      ghost var start := Totals(transactions, messages, accountBlocks, deployments, destructions, gas);
      for j := 0 to |acc|
        invariant Totals(transactions, messages, accountBlocks, deployments, destructions, gas)
          == CountAccount(start, acc[..j])
      {
        var tx := acc[j];
        transactions := transactions + 1;
        messages := messages + tx.outMessages;
        var wasActive, isActive := tx.origStatus == Active, tx.endStatus == Active;
        deployments := deployments + Flag(!wasActive && isActive);
        destructions := destructions + Flag(wasActive && !isActive);
        if tx.externalIn {
          messages := messages + 1;
        }
        gas := gas + tx.gasUsed;
        assert acc[..j + 1][..j] == acc[..j];
      }
      assert acc[..|acc|] == acc;
      assert block[..i + 1][..i] == block[..i];
    }
    assert block[..|block|] == block;
    t := Totals(transactions, messages, accountBlocks, deployments, destructions, gas);
    BlockCounts(block);
  }

  // ----- what is counted -----

  /** All transactions of a block, account by account. */
  function Transactions(block: seq<AccountBlock>): seq<Tx> {
    if block == [] then [] else Transactions(block[..|block| - 1]) + block[|block| - 1]
  }

  function OutMessages(tx: Tx): nat { tx.outMessages }

  function ExternalMessages(tx: Tx): nat { if tx.externalIn then 1 else 0 }

  function Deployments(tx: Tx): nat { if tx.origStatus != Active && tx.endStatus == Active then 1 else 0 }

  function Destructions(tx: Tx): nat { if tx.origStatus == Active && tx.endStatus != Active then 1 else 0 }

  function Gas(tx: Tx): nat { tx.gasUsed }

  /** The sum of f over these transactions. */
  function Over(txs: seq<Tx>, f: Tx -> nat): nat {
    Sum(seq(|txs|, i requires 0 <= i < |txs| => f(txs[i])))
  }

  /** These totals, less those before, are the sums over these transactions. */
  ghost predicate Counts(before: Totals, after: Totals, txs: seq<Tx>) {
    && after.transactions == before.transactions + |txs|
    && after.messages == before.messages + Over(txs, OutMessages) + Over(txs, ExternalMessages)
    && after.deployments == before.deployments + Over(txs, Deployments)
    && after.destructions == before.destructions + Over(txs, Destructions)
    && after.gas == before.gas + Over(txs, Gas)
  }

  lemma OverOneMore(txs: seq<Tx>, tx: Tx, f: Tx -> nat)
    ensures Over(txs + [tx], f) == Over(txs, f) + f(tx)
  {
    var more := txs + [tx];
    var xs: seq<nat> := seq(|more|, i requires 0 <= i < |more| => f(more[i]));
    assert xs[..|txs|] == seq(|txs|, i requires 0 <= i < |txs| => f(txs[i]));
  }

  lemma OneMoreTx(before: Totals, t: Totals, txs: seq<Tx>, tx: Tx)
    requires Counts(before, t, txs)
    ensures Counts(before, CountTx(t, tx), txs + [tx])
  {
    OverOneMore(txs, tx, OutMessages);
    OverOneMore(txs, tx, ExternalMessages);
    OverOneMore(txs, tx, Deployments);
    OverOneMore(txs, tx, Destructions);
    OverOneMore(txs, tx, Gas);
  }

  lemma {:induction false} AccountCounts(before: Totals, t: Totals, txs: seq<Tx>, acc: AccountBlock)
    requires Counts(before, t, txs)
    ensures Counts(before, CountAccount(t, acc), txs + acc)
    ensures CountAccount(t, acc).accountBlocks == t.accountBlocks
  {
    if acc == [] {
      assert txs + acc == txs;
    } else {
      var n := |acc| - 1;
      AccountCounts(before, t, txs, acc[..n]);
      OneMoreTx(before, CountAccount(t, acc[..n]), txs + acc[..n], acc[n]);
      assert txs + acc[..n] + [acc[n]] == txs + acc;
    }
  }

  /** Every total is the sum, over all accounts and all their transactions, of what it counts. */
  lemma {:induction false} BlockCounts(block: seq<AccountBlock>)
    ensures Counts(NOTHING, CountBlock(block), Transactions(block))
    ensures CountBlock(block).accountBlocks == |block|
  {
    if block != [] {
      var before := CountBlock(block[..|block| - 1]);
      BlockCounts(block[..|block| - 1]);
      AccountCounts(NOTHING, before.(accountBlocks := before.accountBlocks + 1),
                    Transactions(block[..|block| - 1]), block[|block| - 1]);
    }
  }

  // ----- telescoping -----

  function Live(s: AccountStatus): int { if s.Active? then 1 else 0 }

  /** The change of activity that an account's transactions do not explain: from the end of one to
      the start of the next. */
  function Gap(acc: AccountBlock): int {
    if |acc| <= 1 then 0 else
      Gap(acc[..|acc| - 1]) + Live(acc[|acc| - 1].origStatus) - Live(acc[|acc| - 2].endStatus)
  }

  /** Activity at the end of an account's block less activity at its start. */
  function Net(acc: AccountBlock): int {
    if acc == [] then 0 else Live(acc[|acc| - 1].endStatus) - Live(acc[0].origStatus)
  }

  function GapOf(block: seq<AccountBlock>): int {
    if block == [] then 0 else GapOf(block[..|block| - 1]) + Gap(block[|block| - 1])
  }

  function NetOf(block: seq<AccountBlock>): int {
    if block == [] then 0 else NetOf(block[..|block| - 1]) + Net(block[|block| - 1])
  }

  function Balance(t: Totals): int { t.deployments as int - t.destructions as int }

  /** Each transaction starts in the status the one before ended in. */
  predicate Chained(acc: AccountBlock) {
    forall i | 0 < i < |acc| :: acc[i].origStatus == acc[i - 1].endStatus
  }

  lemma {:induction false} AccountTelescopes(t: Totals, acc: AccountBlock)
    ensures Balance(CountAccount(t, acc)) == Balance(t) + Net(acc) - Gap(acc)
  {
    if acc != [] { AccountTelescopes(t, acc[..|acc| - 1]); }
  }

  lemma {:induction false} ChainedHasNoGap(acc: AccountBlock)
    requires Chained(acc)
    ensures Gap(acc) == 0
  {
    if |acc| > 1 { ChainedHasNoGap(acc[..|acc| - 1]); }
  }

  lemma OneMoreAccount(before: Totals, acc: AccountBlock, after: Totals)
    requires after == CountAccount(before.(accountBlocks := before.accountBlocks + 1), acc)
    ensures Balance(after) == Balance(before) + Net(acc) - Gap(acc)
  {
    AccountTelescopes(before.(accountBlocks := before.accountBlocks + 1), acc);
  }

  lemma {:induction false} BlockTelescopes(block: seq<AccountBlock>)
    ensures Balance(CountBlock(block)) == NetOf(block) - GapOf(block)
  {
    if block != [] {
      BlockTelescopes(block[..|block| - 1]);
      OneMoreAccount(CountBlock(block[..|block| - 1]), block[|block| - 1], CountBlock(block));
    }
  }

  lemma {:induction false} ChainedBlockHasNoGap(block: seq<AccountBlock>)
    requires forall acc | acc in block :: Chained(acc)
    ensures GapOf(block) == 0
  {
    if block != [] {
      ChainedBlockHasNoGap(block[..|block| - 1]);
      assert block[|block| - 1] in block;
      ChainedHasNoGap(block[|block| - 1]);
    }
  }

  /** For any block, deployments less destructions are the accounts active at its end less those
      active at its start exactly if the gaps cancel. */
  lemma DeploymentsBalance(block: seq<AccountBlock>)
    ensures Balance(CountBlock(block)) == NetOf(block) <==> GapOf(block) == 0
  {
    BlockTelescopes(block);
  }

  /** So they balance whenever every account's transactions are chained. */
  lemma ChainedBlockBalances(block: seq<AccountBlock>)
    requires forall acc | acc in block :: Chained(acc)
    ensures Balance(CountBlock(block)) == NetOf(block)
  {
    BlockTelescopes(block);
    ChainedBlockHasNoGap(block);
  }

  // ----- alternation -----

  /** The deployments (true) and destructions (false) of an account, in order. */
  function Turns(acc: AccountBlock): seq<bool> {
    if acc == [] then [] else
      var tx := acc[|acc| - 1];
      Turns(acc[..|acc| - 1]) + if Deploys(tx) then [true] else if Destroys(tx) then [false] else []
  }

  /** On one account deployments and destructions strictly alternate, beginning with a deployment
      exactly if the account was not active, and the last one says how it ended. */
  lemma {:induction false} TurnsAlternate(acc: AccountBlock)
    requires Chained(acc) && acc != []
    ensures var turns := Turns(acc);
      && (forall i | 0 < i < |turns| :: turns[i] != turns[i - 1])
      && (turns != [] ==>
            turns[0] == !acc[0].origStatus.Active? && turns[|turns| - 1] == acc[|acc| - 1].endStatus.Active?)
      && (turns == [] ==> acc[0].origStatus.Active? == acc[|acc| - 1].endStatus.Active?)
  {
    if |acc| == 1 {
      assert Turns(acc[..0]) == [];
    } else {
      TurnsAlternate(acc[..|acc| - 1]);
    }
  }

  /** The turns are what the fold counts. */
  lemma {:induction false} TurnsAreCounted(t: Totals, acc: AccountBlock)
    ensures multiset(Turns(acc))[true] == CountAccount(t, acc).deployments - t.deployments
    ensures multiset(Turns(acc))[false] == CountAccount(t, acc).destructions - t.destructions
  {
    if acc != [] { TurnsAreCounted(t, acc[..|acc| - 1]); }
  }
}
