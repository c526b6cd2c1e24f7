/**
 * insane_recover, the rebuild the constructor runs before it returns: for
 * every block of a device, in order, ask the algorithm for a recovery plan
 * and issue its reads, then its write unless the write device is -1.
 */
module Rebuild {
  import opened Wrappers
  import opened Arith
  import opened InsaneH
  import opened Trace
  import opened Schemes
  import Raid6
  import Lrc

  /** Blocks per device: `dev_width / chunk_size`, the number of plans the rebuild asks for. */
  function Blocks(ctx: Context): nat
    requires ctx.chunkSize > 0
  {
    Div(ctx.devWidth, ctx.chunkSize)
  }

  /** The number of reads the loop issues: `quantity`, none when it is not positive. */
  function ReadCount(plan: RecoverStripe): nat
  {
    if plan.quantity > 0 then plan.quantity else 0
  }

  /** The `k`-th read; past the filled part of the read arrays it reads unset entries. */
  function ReadOf(plan: RecoverStripe, k: nat): Io
  {
    if k < |plan.sources| then Read(plan.sources[k].device, plan.sources[k].sector) else Garbage
  }

  /** The first `j` reads of a plan, in list order. */
  function ReadEvents(plan: RecoverStripe, j: nat): (io: seq<Io>)
    ensures |io| == j
    ensures forall k :: 0 <= k < j ==> io[k] == ReadOf(plan, k)
  {
    if j == 0 then [] else ReadEvents(plan, j - 1) + [ReadOf(plan, j - 1)]
  }

  /**
   * The write that follows the reads: none when the write device is -1, a
   * write otherwise; an unset write device or sector is read as it is.
   */
  function WriteEvents(plan: RecoverStripe): seq<Io>
  {
    match plan.writeDevice
    case None => [Garbage]
    case Some(d) =>
      if d == -1 then []
      else match plan.writeSector
        case None => [Garbage]
        case Some(s) => [Write(d, s)]
  }

  /** The I/O of one plan. */
  function PlanEvents(plan: RecoverStripe): seq<Io>
  {
    ReadEvents(plan, ReadCount(plan)) + WriteEvents(plan)
  }

  /**
   * The rebuild from block `i` on, with `recover` the descriptor's recovery
   * function applied to a block. A null pointer ends it with the faulting
   * call.
   */
  function RebuildFrom(recover: nat -> Call<RecoverStripe>, blocks: nat, i: nat): seq<Io>
    decreases blocks - i
  {
    if i >= blocks then []
    else match recover(i)
      case NullPointer => [NullCall]
      case OutsideModel => [Unfollowed]
      case Done(plan) => PlanEvents(plan) + RebuildFrom(recover, blocks, i + 1)
  }

  /** The target's recovery function, called for the disk being recovered. */
  function PlansOf(ctx: Context): nat -> Call<RecoverStripe>
  {
    (block: nat) => RecoverOf(ctx, block, ctx.recoveringDisk)
  }

  /** The I/O of the rebuild of a target. */
  function Rebuild(ctx: Context): seq<Io>
    requires ctx.chunkSize > 0
  {
    RebuildFrom(PlansOf(ctx), Blocks(ctx), 0)
  }

  /** insane_recover. */
  method Recover(ctx: Context) returns (trace: seq<Io>)
    requires ctx.chunkSize > 0
    ensures trace == Rebuild(ctx)
  {
    var blocksQuantity := Div(ctx.devWidth, ctx.chunkSize);
    trace := RecoverBlocks(PlansOf(ctx), blocksQuantity);
  }

  /** The loop of insane_recover, calling `recover` for blocks 0 to `blocks - 1`. */
  method RecoverBlocks(recover: nat -> Call<RecoverStripe>, blocks: nat) returns (trace: seq<Io>)
    ensures trace == RebuildFrom(recover, blocks, 0)
  {
    trace := [];
    var i := 0;
    while i < blocks
      invariant i <= blocks
      invariant trace + RebuildFrom(recover, blocks, i) == RebuildFrom(recover, blocks, 0)
      decreases blocks - i
    {
      var call := recover(i);
      if call.NullPointer? {
        assert RebuildFrom(recover, blocks, i) == [NullCall];
        trace := trace + [NullCall];
        return;
      } else if call.OutsideModel? {
        assert RebuildFrom(recover, blocks, i) == [Unfollowed];
        trace := trace + [Unfollowed];
        return;
      }
      var plan := call.value;
      var readIo := IssueReads(plan);
      var write := WriteEventsOf(plan);
      var rest := RebuildFrom(recover, blocks, i + 1);
      assert RebuildFrom(recover, blocks, i) == (readIo + write) + rest;
      assert (trace + (readIo + write)) + rest == trace + ((readIo + write) + rest);
      trace := trace + (readIo + write);
      i := i + 1;
    }
  }

  /** The inner loop of insane_recover: `quantity` reads, in list order. */
  method IssueReads(plan: RecoverStripe) returns (io: seq<Io>)
    ensures io == ReadEvents(plan, ReadCount(plan))
  {
    io := [];
    var j := 0;
    while j < plan.quantity
      invariant 0 <= j <= ReadCount(plan)
      invariant io == ReadEvents(plan, j)
      decreases plan.quantity - j
    {
      if j < |plan.sources| {
        io := io + [Read(plan.sources[j].device, plan.sources[j].sector)];
      } else {
        io := io + [Garbage];
      }
      j := j + 1;
    }
  }

  /** The tail of the loop body: the write, unless `write_device` is -1. */
  method WriteEventsOf(plan: RecoverStripe) returns (io: seq<Io>)
    ensures io == WriteEvents(plan)
  {
    if plan.writeDevice.None? {
      return [Garbage];
    }
    if plan.writeDevice.value != -1 {
      if plan.writeSector.None? {
        return [Garbage];
      }
      return [Write(plan.writeDevice.value, plan.writeSector.value)];
    }
    return [];
  }

  /**
   * A plan whose read list holds `quantity` entries and whose write target
   * is set issues exactly its reads in list order, then the write when
   * the write device is not -1.
   */
  lemma TidyPlanEvents(plan: RecoverStripe)
    requires Tidy(plan)
    ensures |PlanEvents(plan)| == |plan.sources| + (if plan.writeDevice == Some(-1) then 0 else 1)
    ensures forall k :: 0 <= k < |plan.sources| ==>
              PlanEvents(plan)[k] == Read(plan.sources[k].device, plan.sources[k].sector)
    ensures plan.writeDevice != Some(-1) ==>
              PlanEvents(plan)[|plan.sources|] == Write(plan.writeDevice.value, plan.writeSector.value)
    ensures Plain(PlanEvents(plan))
  {
  }

  /** A plan with a full read list and a set write target (the sector may stay unset when there is no write). */
  predicate Tidy(plan: RecoverStripe)
  {
    && plan.quantity == |plan.sources|
    && plan.writeDevice.Some?
    && (plan.writeDevice.value != -1 ==> plan.writeSector.Some?)
  }

  /** Every block from `i` on gets a tidy plan. */
  predicate TidyFrom(recover: nat -> Call<RecoverStripe>, blocks: nat, i: nat)
  {
    forall j: nat :: i <= j < blocks ==> recover(j).Done? && Tidy(recover(j).value)
  }

  /** When every plan is tidy, the rebuild issues reads and writes only. */
  lemma {:induction false} TidyRebuildIsPlain(recover: nat -> Call<RecoverStripe>, blocks: nat, i: nat)
    requires TidyFrom(recover, blocks, i)
    ensures Plain(RebuildFrom(recover, blocks, i))
    decreases blocks - i
  {
    if i < blocks {
      var plan := recover(i).value;
      TidyPlanEvents(plan);
      TidyRebuildIsPlain(recover, blocks, i + 1);
      PlainAppend(PlanEvents(plan), RebuildFrom(recover, blocks, i + 1));
    }
  }

  /**
   * raid7 and the elegant schemes have no recovery function: a target
   * with at least one block per device faults on the first call.
   */
  lemma NoRecoverFaults(ctx: Context)
    requires ctx.chunkSize > 0 && Blocks(ctx) > 0 && ctx.alg.recoverFn.None?
    ensures Rebuild(ctx) == [NullCall]
  {
  }

  /**
   * raid6_recover never assigns the write device: the rebuild of block 0
   * issues its N-2 reads, none on the lost block's device, and then reads
   * the unset field.
   */
  lemma Raid6RebuildReadsUnsetWrite(ctx: Context)
    requires ctx.chunkSize > 0 && Blocks(ctx) > 0 && ctx.alg.recoverFn == Some(Scheme.Raid6) && ctx.ndev >= 3
    ensures var io, n := Rebuild(ctx), ctx.ndev;
      && |io| > n - 2 && io[n - 2] == Garbage
      && forall k :: 0 <= k < n - 2 ==> io[k].Read? && io[k].device != ctx.recoveringDisk % n && io[k].sector == 0
  {
    var n, c := ctx.ndev, ctx.chunkSize;
    var plan := Raid6.RecoverPlan(n, c, 0, ctx.recoveringDisk);
    Raid6.RecoverPlanReads(n, c, 0, ctx.recoveringDisk);
    assert PlansOf(ctx)(0) == Done(plan);
    var io := Rebuild(ctx);
    assert io == PlanEvents(plan) + RebuildFrom(PlansOf(ctx), Blocks(ctx), 1);
    assert PlanEvents(plan) == ReadEvents(plan, n - 2) + [Garbage];
  }

  /**
   * Every plan of recover_lrc for a disk of the array is tidy: the read
   * list is full and the write target is set, -1 on the empty lane.
   */
  lemma LrcPlanTidy(n: nat, chunk: nat, block: nat, dev: nat)
    requires n > 0 && chunk > 0 && dev < n
    ensures Tidy(Lrc.RecoverSpec(n, chunk, block, dev))
  {
    Lrc.RecoverAvoidsLostBlock(n, chunk, block, dev);
  }

  /** The rebuild of a disk of an LRC array issues reads and writes only. */
  lemma LrcRebuildIsPlain(ctx: Context)
    requires ctx.chunkSize > 0 && ctx.alg.recoverFn == Some(Scheme.Lrc) && ctx.recoveringDisk < ctx.ndev
    ensures Plain(Rebuild(ctx))
  {
    var recover := PlansOf(ctx);
    forall j: nat | 0 <= j < Blocks(ctx)
      ensures recover(j).Done? && Tidy(recover(j).value)
    {
      LrcPlanTidy(ctx.ndev, ctx.chunkSize, j, ctx.recoveringDisk);
    }
    TidyRebuildIsPlain(recover, Blocks(ctx), 0);
  }
}
