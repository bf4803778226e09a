/**
 How performance/run-soft-ue-fabric-read-stage-diagnose.py divides the time of a read over six stages,
 in percent, and names the dominant one. A row is a dictionary that gets six new columns.

 Every share is rounded on its own, so they add up to 100 only up to the rounding (`SharesSum`);
 rounding never reorders them, which is why the dominant stage also shows the largest share
 (`DominantShare`).
 */
module StageShares {
  import opened Rounding

  datatype Stage = ResponderGenerate | PendingDispatch | FirstPacketTx | NetworkVisibility | Reassembly | Terminal

  /** The order in which the stages are listed. */
  const STAGES: seq<Stage> :=
    [ResponderGenerate, PendingDispatch, FirstPacketTx, NetworkVisibility, Reassembly, Terminal]

  /** The columns of a row: the mean time of a stage, its share, and whatever else there is. */
  datatype Column = Mean(stage: Stage) | Share(stage: Stage) | Other(name: string)

  type Row = map<Column, real>

  function MeanOf(row: Row, stage: Stage): real {
    if Mean(stage) in row then row[Mean(stage)] else 0.0
  }

  function StageMeanMap(row: Row): seq<real> {
    [MeanOf(row, ResponderGenerate), MeanOf(row, PendingDispatch), MeanOf(row, FirstPacketTx),
     MeanOf(row, NetworkVisibility), MeanOf(row, Reassembly), MeanOf(row, Terminal)]
  }

  function Total(means: seq<real>): real
    requires |means| == 6
  {
    means[0] + means[1] + means[2] + means[3] + means[4] + means[5]
  }

  /** The share of one stage. */
  function ShareOf(mean: real, total: real): real {
    if total <= 0.0 then 0.0 else Round6(mean * 100.0 / total)
  }

  /** The first stage with the greatest mean. */
  method ClassifyDominantStage(row: Row) returns (dominant: Stage)
    ensures Dominates(StageMeanMap(row), dominant)
    ensures forall stage :: MeanOf(row, stage) <= MeanOf(row, dominant)
    ensures forall stage :: Position(stage) < Position(dominant) ==> MeanOf(row, stage) < MeanOf(row, dominant)
  {
    forall stage {
      MeansByStage(row, stage);
    }
    var means := StageMeanMap(row);
    var best := 0;
    for k := 1 to |means|
      invariant best < k
      invariant forall i :: 0 <= i < k ==> means[i] <= means[best]
      invariant forall i :: 0 <= i < best ==> means[i] < means[best]
    {
      if means[k] > means[best] {
        best := k;
      }
    }
    dominant := STAGES[best];
  }

  function Position(stage: Stage): (r: nat)
    ensures r < 6 && STAGES[r] == stage
  {
    match stage
    case ResponderGenerate => 0
    case PendingDispatch => 1
    case FirstPacketTx => 2
    case NetworkVisibility => 3
    case Reassembly => 4
    case Terminal => 5
  }

  /** The stages in the order in which they are listed. */
  lemma StageOrder()
    ensures Position(ResponderGenerate) < Position(PendingDispatch) < Position(FirstPacketTx)
    ensures Position(FirstPacketTx) < Position(NetworkVisibility) < Position(Reassembly) < Position(Terminal)
  {
  }

  /** The mean of a stage is the row's column for it, or 0. */
  lemma MeansByStage(row: Row, stage: Stage)
    ensures StageMeanMap(row)[Position(stage)] == if Mean(stage) in row then row[Mean(stage)] else 0.0
    ensures StageMeanMap(row)[Position(stage)] == MeanOf(row, stage)
  {
  }

  /** A share is the stage's part of the total in percent, up to the rounding. */
  lemma ShareIs(row: Row, stage: Stage)
    ensures var total := MeanOf(row, ResponderGenerate) + MeanOf(row, PendingDispatch) + MeanOf(row, FirstPacketTx)
                         + MeanOf(row, NetworkVisibility) + MeanOf(row, Reassembly) + MeanOf(row, Terminal);
            var share := ShareOf(MeanOf(row, stage), Total(StageMeanMap(row)));
            if total > 0.0
            then MeanOf(row, stage) * 100.0 / total - 0.0000005 <= share <= MeanOf(row, stage) * 100.0 / total + 0.0000005
            else share == 0.0
  {
    var total := Total(StageMeanMap(row));
    if total > 0.0 {
      RoundError(MeanOf(row, stage) * 100.0 / total);
    }
  }

  ghost predicate Dominates(means: seq<real>, stage: Stage)
    requires |means| == 6
  {
    && (forall i :: 0 <= i < 6 ==> means[i] <= means[Position(stage)])
    && (forall i :: 0 <= i < Position(stage) ==> means[i] < means[Position(stage)])
  }

  class DiagnoseRow {
    var columns: Row

    constructor (columns: Row)
      ensures this.columns == columns
    {
      this.columns := columns;
    }

    /** Fills in the six shares and touches nothing else. */
    method AddStageShares()
      modifies this
      ensures AreShares(columns, StageMeanMap(old(columns)))
      ensures SameElsewhere(columns, old(columns))
    {
      var means := StageMeanMap(columns);
      var total := Total(means);
      if total <= 0.0 {
        SetShares(0.0, 0.0, 0.0, 0.0, 0.0, 0.0);
        return;
      }
      SetShares(Round6(means[0] * 100.0 / total), Round6(means[1] * 100.0 / total),
                Round6(means[2] * 100.0 / total), Round6(means[3] * 100.0 / total),
                Round6(means[4] * 100.0 / total), Round6(means[5] * 100.0 / total));
    }

    /** The six assignments to the row. */
    method SetShares(generate: real, dispatch: real, firstPacket: real, network: real, reassembly: real, terminal: real)
      modifies this
      ensures Shown(columns, ResponderGenerate, generate) && Shown(columns, PendingDispatch, dispatch)
      ensures Shown(columns, FirstPacketTx, firstPacket) && Shown(columns, NetworkVisibility, network)
      ensures Shown(columns, Reassembly, reassembly) && Shown(columns, Terminal, terminal)
      ensures SameElsewhere(columns, old(columns))
    {
      SetShare(ResponderGenerate, generate);
      SetShare(PendingDispatch, dispatch);
      SetShare(FirstPacketTx, firstPacket);
      SetShare(NetworkVisibility, network);
      SetShare(Reassembly, reassembly);
      SetShare(Terminal, terminal);
    }

    method SetShare(stage: Stage, share: real)
      modifies this
      ensures columns == old(columns)[Share(stage) := share]
    {
      columns := columns[Share(stage) := share];
    }
  }

  ghost predicate Shown(row: Row, stage: Stage, share: real) {
    Share(stage) in row && row[Share(stage)] == share
  }

  /** The row shows the shares of these means. */
  ghost predicate AreShares(row: Row, means: seq<real>)
    requires |means| == 6
  {
    forall stage :: Shown(row, stage, ShareOf(means[Position(stage)], Total(means)))
  }

  /** That is, under every stage the share of that stage's mean. */
  lemma SharesByStage(row: Row, before: Row, stage: Stage)
    requires AreShares(row, StageMeanMap(before))
    ensures Share(stage) in row && row[Share(stage)] == ShareOf(MeanOf(before, stage), Total(StageMeanMap(before)))
  {
    MeansByStage(before, stage);
    assert Shown(row, stage, ShareOf(StageMeanMap(before)[Position(stage)], Total(StageMeanMap(before))));
  }

  /** Outside the share columns the rows agree. */
  ghost predicate SameElsewhere(row: Row, row': Row) {
    forall column: Column :: !column.Share? ==>
      (column in row <==> column in row') && (column in row ==> row[column] == row'[column])
  }

  // ---------- what the shares mean ----------

  ghost predicate NonNegative(means: seq<real>)
    requires |means| == 6
  {
    forall i :: 0 <= i < 6 ==> means[i] >= 0.0
  }

  function PercentOf(mean: real, total: real): real
    requires total > 0.0
  {
    mean * 100.0 / total
  }

  lemma PercentMonotone(x: real, y: real, total: real)
    requires total > 0.0 && x <= y
    ensures PercentOf(x, total) <= PercentOf(y, total)
  {
    var p, q := PercentOf(x, total), PercentOf(y, total);
    assert p * total == x * 100.0 && q * total == y * 100.0;
    if p > q {
      Gap(p, q, total, p * total, q * total);
    }
  }

  lemma Gap(p: real, q: real, total: real, pt: real, qt: real)
    requires total > 0.0 && p > q && pt == p * total && qt == q * total
    ensures pt > qt
  {
    assert pt - qt == (p - q) * total;
  }

  /** Rounding keeps the order of the stages. */
  lemma SharesOrdered(x: real, y: real, total: real)
    requires x <= y
    ensures ShareOf(x, total) <= ShareOf(y, total)
  {
    if total > 0.0 {
      PercentMonotone(x, y, total);
      RoundMonotone(PercentOf(x, total), PercentOf(y, total));
    }
  }

  lemma PercentEnds(total: real)
    requires total > 0.0
    ensures PercentOf(0.0, total) == 0.0 && PercentOf(total, total) == 100.0
  {
  }

  /** Every share is a percentage. */
  lemma ShareInRange(means: seq<real>, stage: Stage)
    requires |means| == 6 && NonNegative(means)
    ensures 0.0 <= ShareOf(means[Position(stage)], Total(means)) <= 100.0
  {
    var total := Total(means);
    if total > 0.0 {
      PercentEnds(total);
      RoundWhole(0);
      RoundWhole(100);
      SharesOrdered(0.0, means[Position(stage)], total);
      SharesOrdered(means[Position(stage)], total, total);
    }
  }

  function ShareSum(means: seq<real>): real
    requires |means| == 6
  {
    var total := Total(means);
    ShareOf(means[0], total) + ShareOf(means[1], total) + ShareOf(means[2], total) +
    ShareOf(means[3], total) + ShareOf(means[4], total) + ShareOf(means[5], total)
  }

  lemma PercentSplits(x: real, y: real, total: real)
    requires total > 0.0
    ensures PercentOf(x + y, total) == PercentOf(x, total) + PercentOf(y, total)
  {
  }

  lemma PercentOfSix(means: seq<real>, total: real)
    requires |means| == 6 && total > 0.0
    ensures PercentOf(Total(means), total) ==
            PercentOf(means[0], total) + PercentOf(means[1], total) + PercentOf(means[2], total) +
            PercentOf(means[3], total) + PercentOf(means[4], total) + PercentOf(means[5], total)
  {
    PercentSplits(means[0], means[1], total);
    PercentSplits(means[0] + means[1], means[2], total);
    PercentSplits(means[0] + means[1] + means[2], means[3], total);
    PercentSplits(means[0] + means[1] + means[2] + means[3], means[4], total);
    PercentSplits(means[0] + means[1] + means[2] + means[3] + means[4], means[5], total);
  }

  /** The shares of non-negative means add up to 100 within the six roundings, unless every mean is zero. */
  lemma SharesSum(means: seq<real>)
    requires |means| == 6 && NonNegative(means)
    ensures Total(means) > 0.0 ==> 99.999997 <= ShareSum(means) <= 100.000003
    ensures Total(means) <= 0.0 ==> ShareSum(means) == 0.0 && forall i :: 0 <= i < 6 ==> means[i] == 0.0
  {
    var total := Total(means);
    if total > 0.0 {
      PercentOfSix(means, total);
      PercentEnds(total);
      forall i | 0 <= i < 6
        ensures PercentOf(means[i], total) - 0.0000005 <= ShareOf(means[i], total) <= PercentOf(means[i], total) + 0.0000005
      {
        RoundError(PercentOf(means[i], total));
      }
    }
  }

  lemma DominantUnique(means: seq<real>, stage: Stage, stage': Stage)
    requires |means| == 6 && Dominates(means, stage) && Dominates(means, stage')
    ensures stage == stage'
  {
    var i, j := Position(stage), Position(stage');
    assert means[i] <= means[j] <= means[i];
    assert STAGES[i] == STAGES[j];
  }

  /** The dominant stage shows the largest share, at least a sixth; with nothing measured it is the first stage. */
  lemma DominantShare(means: seq<real>, dominant: Stage, stage: Stage)
    requires |means| == 6 && Dominates(means, dominant)
    ensures ShareOf(means[Position(stage)], Total(means)) <= ShareOf(means[Position(dominant)], Total(means))
    ensures Total(means) > 0.0 ==> ShareOf(means[Position(dominant)], Total(means)) >= Round6(100.0 / 6.0)
    ensures NonNegative(means) && Total(means) <= 0.0 ==> dominant == ResponderGenerate
  {
    var total, greatest := Total(means), means[Position(dominant)];
    SharesOrdered(means[Position(stage)], greatest, total);
    if total > 0.0 {
      assert total <= 6.0 * greatest;
      Sixth(total);
      SharesOrdered(total / 6.0, greatest, total);
    }
  }

  lemma Sixth(total: real)
    requires total > 0.0
    ensures PercentOf(total / 6.0, total) == 100.0 / 6.0
  {
    assert total / 6.0 * 100.0 == total * (100.0 / 6.0);
  }

  /** The share of a stage is the dominant one's only if it is within a rounding of it. */
  lemma TiedShares(x: real, y: real, total: real)
    requires total > 0.0 && ShareOf(x, total) == ShareOf(y, total)
    ensures -0.000001 <= PercentOf(x, total) - PercentOf(y, total) <= 0.000001
  {
    RoundError(PercentOf(x, total));
    RoundError(PercentOf(y, total));
  }

  ghost predicate IsTimes(k: real, x: real, y: real) {
    y == k * x
  }

  /** The same means in another unit of time. */
  ghost predicate AreScaled(means: seq<real>, k: real, scaled: seq<real>) {
    |scaled| == |means| && forall i :: 0 <= i < |means| ==> IsTimes(k, means[i], scaled[i])
  }

  lemma TotalScales(means: seq<real>, k: real, scaled: seq<real>)
    requires |means| == 6 && AreScaled(means, k, scaled)
    ensures IsTimes(k, Total(means), Total(scaled))
  {
    Distribute(k, means[0], means[1]);
    Distribute(k, means[0] + means[1], means[2]);
    Distribute(k, means[0] + means[1] + means[2], means[3]);
    Distribute(k, means[0] + means[1] + means[2] + means[3], means[4]);
    Distribute(k, means[0] + means[1] + means[2] + means[3] + means[4], means[5]);
    assert forall i :: 0 <= i < 6 ==> IsTimes(k, means[i], scaled[i]);
  }

  lemma Distribute(k: real, x: real, y: real)
    ensures k * (x + y) == k * x + k * y
  {
  }

  /** Shares do not depend on the unit of time. */
  lemma SharesScale(means: seq<real>, k: real, scaled: seq<real>, stage: Stage)
    requires |means| == 6 && k > 0.0 && AreScaled(means, k, scaled)
    ensures ShareOf(scaled[Position(stage)], Total(scaled)) == ShareOf(means[Position(stage)], Total(means))
  {
    TotalScales(means, k, scaled);
    assert IsTimes(k, means[Position(stage)], scaled[Position(stage)]);
    ShareScales(means[Position(stage)], Total(means), k, scaled[Position(stage)], Total(scaled));
  }

  /** Neither does the dominant stage. */
  lemma DominanceScales(means: seq<real>, k: real, scaled: seq<real>, stage: Stage)
    requires |means| == 6 && k > 0.0 && AreScaled(means, k, scaled)
    ensures Dominates(scaled, stage) <==> Dominates(means, stage)
  {
    var p := Position(stage);
    forall i | 0 <= i < 6
      ensures means[i] < means[p] <==> scaled[i] < scaled[p]
      ensures means[i] <= means[p] <==> scaled[i] <= scaled[p]
    {
      assert IsTimes(k, means[i], scaled[i]) && IsTimes(k, means[p], scaled[p]);
      OrderScales(means[i], means[p], k, scaled[i], scaled[p]);
    }
  }

  lemma OrderScales(x: real, y: real, k: real, kx: real, ky: real)
    requires k > 0.0 && IsTimes(k, x, kx) && IsTimes(k, y, ky)
    ensures x < y <==> kx < ky
    ensures x <= y <==> kx <= ky
  {
    if x < y {
      ProductPositive(k, y - x, k * (y - x));
    } else if y < x {
      ProductPositive(k, x - y, k * (x - y));
    }
  }

  lemma ShareScales(mean: real, total: real, k: real, mean': real, total': real)
    requires k > 0.0 && IsTimes(k, mean, mean') && IsTimes(k, total, total')
    ensures ShareOf(mean', total') == ShareOf(mean, total)
  {
    if total > 0.0 {
      var p := PercentOf(mean, total);
      ProductPositive(k, total, total');
      assert p * total == mean * 100.0;
      assert p * (k * total) == k * (p * total) == (k * mean) * 100.0;
      Quotient(p, total', mean' * 100.0);
      assert PercentOf(mean', total') == p;
    } else {
      OrderScales(total, 0.0, k, total', 0.0);
    }
  }

  lemma ProductPositive(x: real, y: real, product: real)
    requires product == x * y && x > 0.0 && y > 0.0
    ensures product > 0.0
  {
  }

  lemma Quotient(p: real, d: real, n: real)
    requires d > 0.0 && p * d == n
    ensures n / d == p
  {
  }

  /** Filling in the shares a second time changes nothing. */
  lemma SharesIdempotent(row: Row, once: Row, twice: Row)
    requires AreShares(once, StageMeanMap(row)) && SameElsewhere(once, row)
    requires AreShares(twice, StageMeanMap(once)) && SameElsewhere(twice, once)
    ensures twice == once
  {
    forall column: Column
      ensures column in once <==> column in twice
      ensures column in once ==> once[column] == twice[column]
    {
      if column.Share? {
        SharesDetermined(row, once, twice, column.stage);
      }
    }
    assert once.Keys == twice.Keys;
  }

  lemma SharesDetermined(row: Row, once: Row, twice: Row, stage: Stage)
    requires AreShares(once, StageMeanMap(row)) && SameElsewhere(once, row)
    requires AreShares(twice, StageMeanMap(once)) && SameElsewhere(twice, once)
    ensures Share(stage) in once && Share(stage) in twice && once[Share(stage)] == twice[Share(stage)]
  {
    forall s ensures MeanOf(once, s) == MeanOf(row, s) {
      assert !Mean(s).Share?;
    }
    assert StageMeanMap(once) == StageMeanMap(row);
    assert Shown(once, stage, ShareOf(StageMeanMap(row)[Position(stage)], Total(StageMeanMap(row))));
  }
}
