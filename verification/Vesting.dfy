/** The vesting table: every mined block is split into an instant and a vested tier with their unlock heights. */
module Vesting {
  import opened StableSort

  const INSTANT_DELAY: nat := 0
  const VESTED_DELAY: nat := 18514

  /** An incoming transfer; `outputs` lists the amounts of its outputs when the reply has them, else is empty. */
  datatype Transfer = Transfer(isBlock: bool, height: nat, amount: nat, outputs: seq<nat>)

  datatype Row = Row(blockH: nat, tier: nat, amount: nat, unlockH: nat, unlocked: bool, blocksLeft: nat)

  function Instant(tx: Transfer): nat {
    tx.amount / 2
  }

  function Vested(tx: Transfer): nat {
    tx.amount - Instant(tx)
  }

  function MakeRow(blockH: nat, tier: nat, amount: nat, delay: nat, curH: nat): Row {
    var unlockH := blockH + delay;
    var unlocked := curH >= unlockH;
    Row(blockH, tier, amount, unlockH, unlocked, if unlocked then 0 else unlockH - curH)
  }

  /** A row is unlocked exactly from the block count it shows as left. */
  lemma BlocksLeftExact(blockH: nat, tier: nat, amount: nat, delay: nat, curH: nat, more: nat)
    ensures MakeRow(blockH, tier, amount, delay, curH + more).unlocked
       <==> more >= MakeRow(blockH, tier, amount, delay, curH).blocksLeft
  {
  }

  function RowsOf(tx: Transfer, curH: nat): seq<Row> {
    [MakeRow(tx.height, 1, Instant(tx), INSTANT_DELAY, curH), MakeRow(tx.height, 2, Vested(tx), VESTED_DELAY, curH)]
  }

  function Mined(incoming: seq<Transfer>): seq<Transfer> {
    if incoming == [] then [] else (if incoming[0].isBlock then [incoming[0]] else []) + Mined(incoming[1..])
  }

  function Table(mined: seq<Transfer>, curH: nat): seq<Row> {
    if mined == [] then [] else Table(mined[..|mined| - 1], curH) + RowsOf(mined[|mined| - 1], curH)
  }

  function InstantTotal(mined: seq<Transfer>): nat {
    if mined == [] then 0 else InstantTotal(mined[..|mined| - 1]) + Instant(mined[|mined| - 1])
  }

  function VestedTotal(mined: seq<Transfer>): nat {
    if mined == [] then 0 else VestedTotal(mined[..|mined| - 1]) + Vested(mined[|mined| - 1])
  }

  /** The rows and totals one mined block adds, tier by tier. */
  method AddBlock(totals: seq<nat>, before: seq<Row>, tx: Transfer, curH: nat)
    returns (tierTotals: seq<nat>, rows: seq<Row>)
    requires |totals| == 4
    ensures tierTotals == totals[0 := totals[0] + Instant(tx)][1 := totals[1] + Vested(tx)]
    ensures rows == before + RowsOf(tx, curH)
  {
    tierTotals, rows := totals, before;
    var instantAmount := tx.amount / 2;
    var vestedAmount := tx.amount - instantAmount;
    var tiers := [(1, instantAmount, INSTANT_DELAY), (2, vestedAmount, VESTED_DELAY)];
    for i := 0 to 2
      invariant rows == before + RowsOf(tx, curH)[..i]
      invariant i == 0 ==> tierTotals == totals
      invariant i == 1 ==> tierTotals == totals[0 := totals[0] + Instant(tx)]
      invariant i == 2 ==> tierTotals == totals[0 := totals[0] + Instant(tx)][1 := totals[1] + Vested(tx)]
    {
      var (tier, amount, delay) := tiers[i];
      var unlockH := tx.height + delay;
      var unlocked := curH >= unlockH;
      var blocksLeft := if unlocked then 0 else unlockH - curH;
      tierTotals := tierTotals[i := tierTotals[i] + amount];
      rows := rows + [Row(tx.height, tier, amount, unlockH, unlocked, blocksLeft)];
    }
  }

  /** The loop of loadVesting over the mined blocks. */
  method LoadVesting(mined: seq<Transfer>, curH: nat) returns (tierTotals: seq<nat>, rows: seq<Row>)
    ensures tierTotals == [InstantTotal(mined), VestedTotal(mined), 0, 0]
    ensures rows == Table(mined, curH)
  {
    tierTotals, rows := [0, 0, 0, 0], [];
    for k := 0 to |mined|
      invariant tierTotals == [InstantTotal(mined[..k]), VestedTotal(mined[..k]), 0, 0]
      invariant rows == Table(mined[..k], curH)
    {
      hide RowsOf, Instant, Vested;
      assert mined[..k + 1][..k] == mined[..k];
      tierTotals, rows := AddBlock(tierTotals, rows, mined[k], curH);
    }
    assert mined[..|mined|] == mined;
  }

  /** Block i has two rows: half of it at once, and the other half, with an odd unit, 18514 blocks later. */
  lemma {:induction false} BlockRows(mined: seq<Transfer>, curH: nat, i: nat)
    requires i < |mined|
    ensures |Table(mined, curH)| == 2 * |mined|
    ensures var tx, first, second := mined[i], Table(mined, curH)[2 * i], Table(mined, curH)[2 * i + 1];
            && first.blockH == second.blockH == first.unlockH == tx.height && second.unlockH == tx.height + 18514
            && first.tier == 1 && second.tier == 2
            && first.amount + second.amount == tx.amount && first.amount <= second.amount <= first.amount + 1
            && (first.unlocked <==> curH >= first.unlockH) && (second.unlocked <==> curH >= second.unlockH)
            && first.blocksLeft == (if first.unlocked then 0 else first.unlockH - curH)
            && second.blocksLeft == (if second.unlocked then 0 else second.unlockH - curH)
  {
    var k := |mined| - 1;
    var front, before := mined[..k], Table(mined[..k], curH);
    TableLength(front, curH);
    assert Table(mined, curH) == before + RowsOf(mined[k], curH);
    if i < k {
      hide RowsOf, Table;
      BlockRows(front, curH, i);
      assert Table(mined, curH)[2 * i] == before[2 * i] && Table(mined, curH)[2 * i + 1] == before[2 * i + 1];
    } else {
      assert Table(mined, curH)[2 * k] == RowsOf(mined[k], curH)[0];
      assert Table(mined, curH)[2 * k + 1] == RowsOf(mined[k], curH)[1];
    }
  }

  lemma {:induction false} TableLength(mined: seq<Transfer>, curH: nat)
    ensures |Table(mined, curH)| == 2 * |mined|
  {
    if mined != [] { TableLength(mined[..|mined| - 1], curH); }
  }

  // ----- conservation -----

  function MinedTotal(mined: seq<Transfer>): nat {
    if mined == [] then 0 else MinedTotal(mined[..|mined| - 1]) + mined[|mined| - 1].amount
  }

  function OddBlocks(mined: seq<Transfer>): nat {
    if mined == [] then 0 else OddBlocks(mined[..|mined| - 1]) + mined[|mined| - 1].amount % 2
  }

  /** The tiers sum to what was mined, and the vested tier is ahead by one unit for every odd amount. */
  lemma {:induction false} TiersConserve(mined: seq<Transfer>)
    ensures InstantTotal(mined) + VestedTotal(mined) == MinedTotal(mined)
    ensures VestedTotal(mined) - InstantTotal(mined) == OddBlocks(mined)
    ensures 0 <= OddBlocks(mined) <= |mined|
  {
    if mined != [] { TiersConserve(mined[..|mined| - 1]); }
  }

  function UnlockedSum(rows: seq<Row>): nat {
    if rows == [] then 0 else (if rows[0].unlocked then rows[0].amount else 0) + UnlockedSum(rows[1..])
  }

  function LockedSum(rows: seq<Row>): nat {
    if rows == [] then 0 else (if rows[0].unlocked then 0 else rows[0].amount) + LockedSum(rows[1..])
  }

  lemma {:induction false} SumsAppend(a: seq<Row>, b: seq<Row>)
    ensures UnlockedSum(a + b) == UnlockedSum(a) + UnlockedSum(b)
    ensures LockedSum(a + b) == LockedSum(a) + LockedSum(b)
  {
    if a == [] {
      assert a + b == b;
    } else {
      SumsAppend(a[1..], b);
      assert (a + b)[1..] == a[1..] + b;
    }
  }

  /** What a block contributes to the unlocked amount at a height. */
  function Released(tx: Transfer, curH: nat): nat {
    (if curH >= tx.height then Instant(tx) else 0) + (if curH >= tx.height + VESTED_DELAY then Vested(tx) else 0)
  }

  lemma {:induction false} BlockSums(tx: Transfer, curH: nat)
    ensures UnlockedSum(RowsOf(tx, curH)) == Released(tx, curH)
    ensures LockedSum(RowsOf(tx, curH)) == tx.amount - Released(tx, curH)
  {
    var rows := RowsOf(tx, curH);
    assert rows[1..] == [rows[1]] && rows[1..][1..] == [];
    assert UnlockedSum(rows[1..]) == if rows[1].unlocked then rows[1].amount else 0;
    assert LockedSum(rows[1..]) == if rows[1].unlocked then 0 else rows[1].amount;
  }

  lemma {:induction false} TableSplit(mined: seq<Transfer>, curH: nat)
    requires mined != []
    ensures var front, last := mined[..|mined| - 1], mined[|mined| - 1];
            && UnlockedSum(Table(mined, curH)) == UnlockedSum(Table(front, curH)) + Released(last, curH)
            && LockedSum(Table(mined, curH)) == LockedSum(Table(front, curH)) + last.amount - Released(last, curH)
  {
    var front, last := mined[..|mined| - 1], mined[|mined| - 1];
    SumsAppend(Table(front, curH), RowsOf(last, curH));
    BlockSums(last, curH);
  }

  /** At every height the unlocked and the locked rows add up to everything mined. */
  lemma {:induction false} RowsConserve(mined: seq<Transfer>, curH: nat)
    ensures UnlockedSum(Table(mined, curH)) + LockedSum(Table(mined, curH)) == MinedTotal(mined)
  {
    if mined != [] {
      hide UnlockedSum, LockedSum, Table;
      RowsConserve(mined[..|mined| - 1], curH);
      TableSplit(mined, curH);
    } else {
      assert Table(mined, curH) == [];
    }
  }

  /** As the chain grows nothing locks again. */
  lemma {:induction false} UnlockingIsMonotone(mined: seq<Transfer>, h: nat, later: nat)
    requires h <= later
    ensures UnlockedSum(Table(mined, h)) <= UnlockedSum(Table(mined, later))
  {
    if mined != [] {
      hide UnlockedSum, LockedSum, Table;
      UnlockingIsMonotone(mined[..|mined| - 1], h, later);
      TableSplit(mined, h);
      TableSplit(mined, later);
    }
  }

  /** Everything is unlocked exactly from 18514 blocks after the newest block that paid anything. */
  lemma {:induction false} FullyUnlockedWhen(mined: seq<Transfer>, curH: nat)
    ensures UnlockedSum(Table(mined, curH)) == MinedTotal(mined) <==>
            forall i :: 0 <= i < |mined| && mined[i].amount > 0 ==> curH >= mined[i].height + 18514
  {
    if mined != [] {
      hide UnlockedSum, LockedSum, Table;
      var front, last := mined[..|mined| - 1], mined[|mined| - 1];
      FullyUnlockedWhen(front, curH);
      RowsConserve(front, curH);
      TableSplit(mined, curH);
      assert forall i :: 0 <= i < |front| ==> front[i] == mined[i];
      assert Released(last, curH) == last.amount <==> last.amount == 0 || curH >= last.height + VESTED_DELAY;
    } else {
      assert Table(mined, curH) == [];
    }
  }

  // ----- the displayed order -----

  /** Newest block first, then tier. */
  function CompareRow(a: Row, b: Row): int {
    if a.blockH != b.blockH then b.blockH - a.blockH else a.tier - b.tier
  }

  lemma RowComparatorConsistent()
    ensures Consistent(CompareRow)
  {
  }

  lemma {:induction false} SortKeepsSums(rows: seq<Row>)
    ensures UnlockedSum(Sort(CompareRow, rows)) == UnlockedSum(rows)
    ensures LockedSum(Sort(CompareRow, rows)) == LockedSum(rows)
  {
    if rows != [] {
      SortKeepsSums(rows[1..]);
      InsertKeepsSums(rows[0], Sort(CompareRow, rows[1..]));
    }
  }

  lemma {:induction false} InsertKeepsSums(x: Row, s: seq<Row>)
    ensures UnlockedSum(Insert(CompareRow, x, s)) == (if x.unlocked then x.amount else 0) + UnlockedSum(s)
    ensures LockedSum(Insert(CompareRow, x, s)) == (if x.unlocked then 0 else x.amount) + LockedSum(s)
  {
    var r := Insert(CompareRow, x, s);
    if s == [] || CompareRow(x, s[0]) <= 0 {
      assert r[1..] == s;
    } else {
      InsertKeepsSums(x, s[1..]);
      assert r[1..] == Insert(CompareRow, x, s[1..]);
    }
  }

  /** The displayed table is the rows newest block first, instant before vested, with the same sums. */
  lemma {:induction false} DisplayedTable(rows: seq<Row>, shown: seq<Row>)
    requires IsStableSort(CompareRow, rows, shown)
    ensures multiset(shown) == multiset(rows)
    ensures forall i, j :: 0 <= i < j < |shown| ==>
              shown[i].blockH > shown[j].blockH
              || (shown[i].blockH == shown[j].blockH && shown[i].tier <= shown[j].tier)
    ensures UnlockedSum(shown) == UnlockedSum(rows) && LockedSum(shown) == LockedSum(rows)
  {
    RowComparatorConsistent();
    StableIsPermutation(CompareRow, rows, shown);
    SortIsStable(CompareRow, rows);
    StableSortUnique(CompareRow, shown, Sort(CompareRow, rows));
    SortKeepsSums(rows);
    assert forall i, j :: 0 <= i < j < |shown| ==> CompareRow(shown[i], shown[j]) <= 0;
  }

  // ----- getMinedSplitBalances -----

  function SplitInstant(tx: Transfer): nat {
    if !tx.isBlock then 0 else if |tx.outputs| >= 2 then tx.outputs[0] else Instant(tx)
  }

  function SplitVested(tx: Transfer): nat {
    if !tx.isBlock then 0 else if |tx.outputs| >= 2 then tx.outputs[1] else Vested(tx)
  }

  function SplitTotals(incoming: seq<Transfer>): (nat, nat) {
    if incoming == [] then (0, 0)
    else
      var (instant, vested) := SplitTotals(incoming[..|incoming| - 1]);
      var tx := incoming[|incoming| - 1];
      (instant + SplitInstant(tx), vested + SplitVested(tx))
  }

  method GetMinedSplitBalances(incoming: seq<Transfer>) returns (found: bool, total: nat, unlocked: nat, locked: nat)
    ensures (unlocked, locked) == SplitTotals(incoming)
    ensures total == unlocked + locked && (found <==> total > 0)
  {
    var instant, vested := 0, 0;
    for k := 0 to |incoming|
      invariant (instant, vested) == SplitTotals(incoming[..k])
    {
      assert incoming[..k + 1][..k] == incoming[..k];
      var tx := incoming[k];
      if !tx.isBlock {
        continue;
      }
      if |tx.outputs| >= 2 {
        instant, vested := instant + tx.outputs[0], vested + tx.outputs[1];
      } else {
        var half := tx.amount / 2;
        instant, vested := instant + half, vested + (tx.amount - half);
      }
    }
    assert incoming[..|incoming|] == incoming;
    return instant + vested > 0, instant + vested, instant, vested;
  }

  lemma {:induction false} MinedSnoc(incoming: seq<Transfer>, tx: Transfer)
    ensures Mined(incoming + [tx]) == Mined(incoming) + (if tx.isBlock then [tx] else [])
  {
    if incoming == [] {
      assert incoming + [tx] == [tx] && [tx][1..] == [];
    } else {
      MinedSnoc(incoming[1..], tx);
      assert (incoming + [tx])[1..] == incoming[1..] + [tx];
    }
  }

  lemma {:induction false} TotalsSnoc(mined: seq<Transfer>, tx: Transfer)
    ensures InstantTotal(mined + [tx]) == InstantTotal(mined) + Instant(tx)
    ensures VestedTotal(mined + [tx]) == VestedTotal(mined) + Vested(tx)
  {
    assert (mined + [tx])[..|mined|] == mined;
  }

  /** Without output amounts both views of the mined balance agree, tier by tier. */
  lemma {:induction false} ViewsAgree(incoming: seq<Transfer>)
    requires forall i :: 0 <= i < |incoming| && incoming[i].isBlock ==> |incoming[i].outputs| < 2
    ensures SplitTotals(incoming) == (InstantTotal(Mined(incoming)), VestedTotal(Mined(incoming)))
  {
    hide SplitTotals, Mined, InstantTotal, VestedTotal;
    ViewsAgreeUpTo(incoming, |incoming|);
    assert incoming[..|incoming|] == incoming;
  }

  lemma {:induction false} ViewsAgreeUpTo(incoming: seq<Transfer>, k: nat)
    requires k <= |incoming|
    requires forall i :: 0 <= i < |incoming| && incoming[i].isBlock ==> |incoming[i].outputs| < 2
    ensures var seen := incoming[..k];
            SplitTotals(seen) == (InstantTotal(Mined(seen)), VestedTotal(Mined(seen)))
  {
    hide SplitTotals, Mined, InstantTotal, VestedTotal;
    if k == 0 {
      assert incoming[..k] == [];
      NothingMined();
    } else {
      ViewsAgreeUpTo(incoming, k - 1);
      assert incoming[..k] == incoming[..k - 1] + [incoming[k - 1]];
      TakenInto(incoming[..k - 1], incoming[k - 1]);
      SplitSnoc(incoming[..k - 1], incoming[k - 1]);
    }
  }

  lemma NothingMined()
    ensures SplitTotals([]) == (0, 0) && Mined([]) == [] && InstantTotal([]) == 0 && VestedTotal([]) == 0
  {
  }

  lemma {:induction false} SplitSnoc(incoming: seq<Transfer>, tx: Transfer)
    ensures SplitTotals(incoming + [tx])
         == (SplitTotals(incoming).0 + SplitInstant(tx), SplitTotals(incoming).1 + SplitVested(tx))
  {
    assert (incoming + [tx])[..|incoming|] == incoming;
  }

  /** What one more transfer adds to the two tiers. */
  lemma {:induction false} TakenInto(incoming: seq<Transfer>, tx: Transfer)
    requires tx.isBlock ==> |tx.outputs| < 2
    ensures InstantTotal(Mined(incoming + [tx])) == InstantTotal(Mined(incoming)) + SplitInstant(tx)
    ensures VestedTotal(Mined(incoming + [tx])) == VestedTotal(Mined(incoming)) + SplitVested(tx)
  {
    hide Mined, InstantTotal, VestedTotal;
    MinedSnoc(incoming, tx);
    TotalsSnoc(Mined(incoming), tx);
    assert Mined(incoming) + [] == Mined(incoming);
  }

  /** A mined block whose reply lists the amounts of its two outputs. */
  predicate HasOutputs(tx: Transfer) {
    tx.isBlock && |tx.outputs| >= 2
  }

  /** The sum of output k over those blocks. */
  function OutputSum(incoming: seq<Transfer>, k: nat): nat
    requires k < 2
  {
    if incoming == [] then 0
    else
      var tx := incoming[|incoming| - 1];
      OutputSum(incoming[..|incoming| - 1], k) + if HasOutputs(tx) then tx.outputs[k] else 0
  }

  /** The other transfers, in order. */
  function Others(incoming: seq<Transfer>): seq<Transfer> {
    if incoming == [] then []
    else
      var tx := incoming[|incoming| - 1];
      Others(incoming[..|incoming| - 1]) + if HasOutputs(tx) then [] else [tx]
  }

  /**
   For all transfers: the instant total is the sum of the first outputs where they are listed and of the halves of the
   other blocks, and the vested total the same with the second outputs and the other halves.
   */
  lemma {:induction false} SplitExact(incoming: seq<Transfer>)
    ensures SplitTotals(incoming).0 == OutputSum(incoming, 0) + InstantTotal(Mined(Others(incoming)))
    ensures SplitTotals(incoming).1 == OutputSum(incoming, 1) + VestedTotal(Mined(Others(incoming)))
  {
    if incoming == [] {
      NothingMined();
    } else {
      var front, tx := incoming[..|incoming| - 1], incoming[|incoming| - 1];
      assert incoming == front + [tx];
      SplitExact(front);
      SplitSnoc(front, tx);
      hide SplitTotals, Mined, InstantTotal, VestedTotal;
      if HasOutputs(tx) {
        assert Others(incoming) == Others(front);
      } else {
        TakenInto(Others(front), tx);
      }
    }
  }
}
