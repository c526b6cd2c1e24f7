/**
 * The calls the driver makes through an algorithm descriptor's function
 * pointers: `configure` at construction, `map` for every bio and `recover`
 * for every block of the rebuild. Each scheme's function reads the device
 * count its `configure` stored in the scheme's one global descriptor, and
 * the context's chunk size, I/O pattern and (raid6e, elegant_rebuilt) the
 * target length. The model reads the target's own `ndev` instead, which is
 * what the descriptor holds as long as the last target configured with the
 * scheme is the one being served.
 */
module Schemes {
  import opened Wrappers
  import opened Arith
  import opened Layout
  import opened InsaneH
  import Raid6
  import Raid7
  import Raid6e
  import Elegant
  import ElegantDegraded
  import ElegantRebuilt
  import Lrc
  import Hashed

  /**
   * The outcome of a call through a function pointer: its value, a call
   * through a null pointer, or a call the model does not follow: fewer
   * devices than the scheme's arithmetic is defined for (the C code then
   * divides by zero or wraps a device count below zero), or a descriptor
   * pointing at a recovery function no scheme has.
   */
  datatype Call<T> = Done(value: T) | NullPointer | OutsideModel

  /**
   * The configure functions: raid6, raid7 and raid6e make both the disk
   * count and the stripe length the target's device count, every other
   * scheme sets only the disk count. A descriptor without `configure` is left
   * as it is. Every configure function returns 0.
   */
  function Configure(alg: Algorithm, ndev: nat): (a: Algorithm)
    ensures a.name == alg.name && a.pBlocks == alg.pBlocks && a.eBlocks == alg.eBlocks
    ensures a.mapFn == alg.mapFn && a.configureFn == alg.configureFn && a.recoverFn == alg.recoverFn
    ensures a.ndisks == (if alg.configureFn.Some? then ndev else alg.ndisks)
    ensures a.stripeBlocks == (if alg.configureFn in {Some(Raid6), Some(Raid7), Some(Raid6e)} then ndev
                               else alg.stripeBlocks)
  {
    match alg.configureFn
    case None => alg
    case Some(s) =>
      if s.Raid6? || s.Raid7? || s.Raid6e? then alg.(ndisks := ndev, stripeBlocks := ndev)
      else alg.(ndisks := ndev)
  }

  /** The smallest device count each scheme's mapping arithmetic is defined for. */
  function MinDevices(s: Scheme): nat
  {
    match s
    case Raid6 => 3
    case Raid7 => 4
    case Raid6e => 4
    case ElegantRebuilt => 2
    case _ => 1
  }

  /** The schemes that have a recovery function. */
  predicate HasRecover(s: Scheme)
  {
    s.Raid6? || s.Raid6e? || s.Lrc? || s.Hashed?
  }

  /**
   * The smallest device count each recovery function is defined for:
   * raid6_recover only reduces modulo the device count, raid6e's spare
   * zone divides by N - 3.
   */
  function RecoverMinDevices(s: Scheme): nat
  {
    if s.Raid6e? then 4 else 1
  }

  /** `alg->map(ctx, block, &sector, &dev)`. */
  function MapOf(ctx: Context, block: nat, sector: nat, dev: nat): (r: Call<MapResult>)
    ensures r.NullPointer? <==> ctx.alg.mapFn.None?
    ensures r.Done? <==> ctx.alg.mapFn.Some? && ctx.ndev >= MinDevices(ctx.alg.mapFn.value) && ctx.chunkSize > 0
  {
    match ctx.alg.mapFn
    case None => NullPointer
    case Some(s) =>
      var n, c, p := ctx.ndev, ctx.chunkSize, ctx.ioPattern;
      if n < MinDevices(s) || c == 0 then OutsideModel
      else Done(match s
        case Raid6 => Raid6.Map(n, c, p, block, sector, dev)
        case Raid7 => Raid7.Map(n, c, p, block, sector, dev)
        case Raid6e => Raid6e.Map(n, c, p, ctx.targetLen, block, sector, dev)
        case Elegant => Elegant.MapSpec(n, c, p, block, sector, dev)
        case ElegantDegraded => ElegantDegraded.MapSpec(n, c, p, block, sector, dev)
        case ElegantRebuilt => ElegantRebuilt.Map(n, c, ctx.targetLen, block, sector, dev)
        case Lrc => Lrc.MapSpec(n, c, p, block, sector, dev)
        case Hashed(t) => Hashed.MapSpec(t, n, c, p, block, sector, dev))
  }

  /**
   * `alg->recover(ctx, block, dev)`; raid7 and the three elegant
   * descriptors have no recovery function.
   */
  function RecoverOf(ctx: Context, block: nat, dev: nat): (r: Call<RecoverStripe>)
    ensures r.NullPointer? <==> ctx.alg.recoverFn.None?
    ensures r.Done? <==> && ctx.alg.recoverFn.Some? && HasRecover(ctx.alg.recoverFn.value)
                         && ctx.ndev >= RecoverMinDevices(ctx.alg.recoverFn.value) && ctx.chunkSize > 0
  {
    match ctx.alg.recoverFn
    case None => NullPointer
    case Some(s) =>
      var n, c := ctx.ndev, ctx.chunkSize;
      if n < RecoverMinDevices(s) || c == 0 then OutsideModel
      else match s
        case Raid6 => Done(Raid6.RecoverPlan(n, c, block, dev))
        case Raid6e => Done(Raid6e.Recover(n, c, ctx.targetLen, block, dev))
        case Lrc => Done(Lrc.RecoverSpec(n, c, block, dev))
        case Hashed(t) => Done(Hashed.RecoverSpec(t, n, c, block, dev))
        case _ => OutsideModel
  }

  /** The descriptors the modules of the repository register. */
  predicate Shipped(alg: Algorithm)
  {
    alg in {Raid6.Descriptor, Raid7.Descriptor, Raid6e.Descriptor, Elegant.Descriptor,
            ElegantDegraded.Descriptor, ElegantRebuilt.Descriptor, Lrc.Descriptor}
    || (alg.mapFn.Some? && alg.mapFn.value.Hashed? && alg == Hashed.Descriptor(alg.mapFn.value.template))
  }

  /**
   * Every mapping function sends the data block to one of the target's
   * devices, so `ctx->devs[dev_index]` after `map` is in range.
   */
  lemma MapDeviceInRange(ctx: Context, block: nat, sector: nat, dev: nat)
    requires MapOf(ctx, block, sector, dev).Done?
    ensures MapOf(ctx, block, sector, dev).value.device < ctx.ndev
  {
    var n, c, p := ctx.ndev, ctx.chunkSize, ctx.ioPattern;
    match ctx.alg.mapFn.value
    case Raid6 => Raid6.MapPlacesInRow(n, c, p, block, sector, dev);
    case Raid7 => Raid7.MapPlacesInRow(n, c, p, block, sector, dev);
    case Raid6e => Raid6e.MapAvoidsDegradedDisk(n, c, p, ctx.targetLen, block, sector, dev);
    case Elegant => Elegant.MapSpecDataPlace(n, c, p, block, sector, dev);
    case ElegantDegraded =>
      var e := Elegant.MapSpec(n, c, p, block, sector, dev);
      Elegant.MapSpecDataPlace(n, c, p, block, sector, dev);
      ElegantDegraded.RelocateMoves(e, n, c, sector, Elegant.EmptyLane(dev + block * n));
    case ElegantRebuilt => ElegantRebuilt.MapZones(n, c, ctx.targetLen, block, sector, dev);
    case Lrc => Lrc.MapPlacesData(n, c, p, block, sector, dev);
    case Hashed(t) => Hashed.MapPlacesData(t, n, c, p, block, sector, dev);
  }

  /**
   * The recovery functions that exist are reached: for a target whose
   * descriptor is a shipped one after `configure`, as the constructor
   * builds it, with enough devices a raid6, raid6e, LRC or hashed
   * descriptor yields a plan, and the others fail on their null pointer.
   */
  lemma RecoverReached(ctx: Context, block: nat, dev: nat, d: Algorithm)
    requires Shipped(d) && ctx.alg == Configure(d, ctx.ndev) && ctx.chunkSize > 0 && ctx.ndev >= 4
    ensures RecoverOf(ctx, block, dev).Done? <==> ctx.alg.name in {"raid6", "raid6e", "lrc", "hashed"}
    ensures RecoverOf(ctx, block, dev).NullPointer? <==>
              ctx.alg.name in {"raid7", "elegant", "elegant_degraded", "elegant_rebuilt"}
  {
  }
}
