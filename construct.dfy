/**
 * insane_ctr: the table line `<algorithm> <ndev> <chunk_size> <io_pattern>
 * [<recovering disk>] <device>...` is checked, the context filled in, the
 * algorithm configured, the target length shrunk to whole virtual stripes
 * of data, and the rebuild run.
 */
module Construct {
  import opened Wrappers
  import opened Arith
  import opened Bits
  import opened InsaneH
  import opened Registry
  import opened Schemes
  import opened SectorMap
  import opened Trace
  import Rebuild

  const I32_LIMIT: nat := 0x8000_0000

  /** The value an `unsigned int` variable holds after being assigned `x`. */
  function Wrap32(x: int): (r: nat)
    ensures r < U32
    ensures 0 <= x < U32 ==> r == x
  {
    x % U32
  }

  /** The `int` an `unsigned long` becomes on assignment: its low 32 bits, in two's complement. */
  function ToInt32(v: nat): (x: int)
    ensures -(I32_LIMIT as int) <= x < I32_LIMIT
    ensures Wrap32(x) == v % U32
  {
    var w := v % U32;
    if w >= I32_LIMIT then w - U32 else w
  }

  predicate IsDigit(c: char)
  {
    '0' <= c <= '9'
  }

  /** A (possibly empty) run of decimal digits and nothing else; for "" simple_strtoul also leaves `*end` at NUL. */
  predicate Numeral(s: string)
  {
    forall i :: 0 <= i < |s| ==> IsDigit(s[i])
  }

  /** The number of leading decimal digits. */
  function DigitRun(s: string): (k: nat)
    ensures k <= |s|
    ensures forall i :: 0 <= i < k ==> IsDigit(s[i])
    ensures k < |s| ==> !IsDigit(s[k])
  {
    if |s| == 0 || !IsDigit(s[0]) then 0 else 1 + DigitRun(s[1..])
  }

  /** The value of the first `k` characters, accumulated as simple_strtoul does: in an `unsigned long`. */
  function Accumulate(s: string, k: nat): (v: nat)
    requires k <= |s| && forall i :: 0 <= i < k ==> IsDigit(s[i])
    ensures v < U64
  {
    if k == 0 then 0 else Wrap64(Accumulate(s, k - 1) * 10 + (s[k - 1] as int - '0' as int))
  }

  /** The decimal value of the first `k` characters, unbounded. */
  function Decimal(s: string, k: nat): nat
    requires k <= |s| && forall i :: 0 <= i < k ==> IsDigit(s[i])
  {
    if k == 0 then 0
    else
      assert IsDigit(s[k - 1]);
      Decimal(s, k - 1) * 10 + (s[k - 1] as int - '0' as int)
  }

  /** What simple_strtoul returns and where it leaves `*end`. */
  datatype Parsed = Parsed(value: nat, end: nat)

  /** `simple_strtoul(s, &end, 10)`: the leading digits; `*end` is NUL exactly for a string of digits only. */
  function StrToUl(s: string): (p: Parsed)
    ensures p.value < U64 && p.end <= |s|
    ensures p.end == |s| <==> Numeral(s)
  {
    var k := DigitRun(s);
    Parsed(Accumulate(s, k), k)
  }

  /** Up to 19 digits never wrap: simple_strtoul yields the decimal value. */
  lemma {:induction false} AccumulateExact(s: string, k: nat)
    requires k <= |s| && k <= 19 && forall i :: 0 <= i < k ==> IsDigit(s[i])
    ensures Accumulate(s, k) == Decimal(s, k) < Pow10(k)
  {
    if k > 0 {
      AccumulateExact(s, k - 1);
      Pow10Bound(k);
      var v, d := Decimal(s, k - 1), s[k - 1] as int - '0' as int;
      assert IsDigit(s[k - 1]);
      DigitStep(v, d, Pow10(k - 1));
      assert v * 10 + d < U64;
      assert Accumulate(s, k) == Wrap64(v * 10 + d);
    }
  }

  function Pow10(k: nat): nat
  {
    if k == 0 then 1 else 10 * Pow10(k - 1)
  }

  lemma Pow10Bound(k: nat)
    requires k <= 19
    ensures Pow10(k) <= 10_000_000_000_000_000_000 < U64
  {
    Pow10Grows(k, 19);
    Pow10Square(1, 10);
    Pow10Square(2, 100);
    Pow10Square(4, 10_000);
    Pow10Square(8, 100_000_000);
    assert Pow10(3) == 1000;
    Pow10Add(16, 3);
  }

  lemma Pow10Square(k: nat, p: nat)
    requires Pow10(k) == p
    ensures Pow10(k + k) == p * p
  {
    Pow10Add(k, k);
  }

  lemma {:induction false} Pow10Add(a: nat, b: nat)
    ensures Pow10(a + b) == Pow10(a) * Pow10(b)
  {
    if a > 0 {
      Pow10Add(a - 1, b);
    }
  }

  lemma {:induction false} Pow10Grows(k: nat, m: nat)
    requires k <= m
    ensures Pow10(k) <= Pow10(m)
  {
    if k < m { Pow10Grows(k, m - 1); }
  }

  lemma DigitStep(v: nat, d: int, p: nat)
    requires v < p && 0 <= d < 10
    ensures v * 10 + d < 10 * p
  {
  }

  /** A numeral of at most 19 digits is read as its decimal value. */
  lemma ParseNumeral(s: string)
    requires Numeral(s) && |s| <= 19
    ensures StrToUl(s) == Parsed(Decimal(s, |s|), |s|)
  {
    AccumulateExact(s, |s|);
  }

  /** The io_pattern loop: the index of the first pattern name matching on ALG_NAME_LEN characters. */
  function PatternOf(s: string): (p: Option<nat>)
    ensures p == Some(SEQUENTIAL) <==> s == "sequential"
    ensures p == Some(RANDOM) <==> s == "random"
    ensures p.None? <==> s !in IoPatterns
  {
    StrnEqShort(s, IoPatterns[0], ALG_NAME_LEN);
    StrnEqShort(s, IoPatterns[1], ALG_NAME_LEN);
    if StrnEq(s, IoPatterns[0], ALG_NAME_LEN) then Some(0)
    else if StrnEq(s, IoPatterns[1], ALG_NAME_LEN) then Some(1)
    else None
  }

  /** The loop over io_patterns with its `break`. */
  method MatchPattern(s: string) returns (pattern: Option<nat>)
    ensures pattern == PatternOf(s)
  {
    pattern := None;
    for i := 0 to IO_PATTERN_NUM
      invariant pattern.None? ==> forall k :: 0 <= k < i ==> !StrnEq(s, IoPatterns[k], ALG_NAME_LEN)
      invariant pattern.Some? ==> pattern == PatternOf(s)
    {
      if pattern.None? && StrnEq(s, IoPatterns[i], ALG_NAME_LEN) {
        pattern := Some(i);
      }
    }
  }

  /**
   * The arguments as insane_ctr holds them after validation: the found
   * descriptor's index, the `int` device count, chunk size and recovering
   * disk, the I/O pattern, and the number of optional arguments used.
   */
  datatype Args = Args(entry: nat, ndev: int, chunk: int, pattern: nat, recovering: int, extra: nat)

  /**
   * The checks of insane_ctr, in order, each refusing with -EINVAL. The
   * last optional argument is only read in recover mode, which is the
   * pattern with index IO_PATTERN_NUM - 1 ("random"). The power-of-two
   * and divisibility tests work on the 32-bit patterns of the `int`s.
   */
  function CheckArgs(entries: seq<Algorithm>, argv: seq<string>, len: nat): (r: Result<Args>)
    ensures r.Err? ==> r.errno == EINVAL
    ensures r.Ok? ==> r.value.entry < |entries| && r.value.ndev != 0 && r.value.chunk != 0
  {
    if |argv| < 5 then Err(EINVAL)
    else match Find(entries, argv[0])
      case None => Err(EINVAL)
      case Some(k) =>
        var nd := StrToUl(argv[1]);
        var ndev := ToInt32(nd.value);
        if nd.end < |argv[1]| || ndev == 0 then Err(EINVAL)
        else
          var cs := StrToUl(argv[2]);
          var chunk := ToInt32(cs.value);
          if cs.end < |argv[2]| || chunk == 0 then Err(EINVAL)
          else match PatternOf(argv[3])
            case None => Err(EINVAL)
            case Some(pattern) =>
              var recoverMode := pattern == IO_PATTERN_NUM - 1;
              var rc := StrToUl(argv[4]);
              var recovering := if recoverMode then ToInt32(rc.value) else 0;
              if recoverMode && (rc.end < |argv[4]| || recovering == 0) then Err(EINVAL)
              else
                var extra := if recoverMode then 1 else 0;
                NonZeroWrap(chunk);
                NonZeroWrap(ndev);
                if GeometryFits(|argv|, len, ndev, chunk, extra) then Ok(Args(k, ndev, chunk, pattern, recovering, extra))
                else Err(EINVAL)
  }

  /**
   * The last three checks of insane_ctr, on the values as `unsigned int`:
   * the chunk size is a power of two, the device count divides the
   * length, and the argument count is 4 (5 in recover mode) plus one
   * device path per device.
   */
  predicate GeometryFits(argc: nat, len: nat, ndev: int, chunk: int, extra: nat)
    requires Wrap32(chunk) > 0 && Wrap32(ndev) > 0
  {
    var uc, un := Wrap32(chunk), Wrap32(ndev);
    && And(uc, uc - 1) == 0
    && Mod(len, un) == 0
    && argc == Wrap32(4 + extra + ndev)
  }

  /** The geometry checks on the parsed values: a power-of-two chunk size, a device count dividing the length, one path per device. */
  lemma GeometryAccepts(argc: nat, len: nat, ndev: int, chunk: int, extra: nat, nv: nat, cv: nat)
    requires Wrap32(chunk) > 0 && Wrap32(ndev) > 0
    requires Wrap32(ndev) == nv % U32 && Wrap32(chunk) == cv % U32
    ensures GeometryFits(argc, len, ndev, chunk, extra) <==>
              IsPow2(cv % U32) && len % (nv % U32) == 0 && argc == (4 + extra + nv) % U32
  {
    PowerOfTwoTest(Wrap32(chunk));
    SameWrap(4 + extra, ndev, nv);
  }

  /** A non-zero `int` has a non-zero 32-bit pattern. */
  lemma NonZeroWrap(x: int)
    requires x != 0 && -(I32_LIMIT as int) <= x < I32_LIMIT
    ensures Wrap32(x) > 0
  {
    if x < 0 {
      DivModUnique(x, U32, -1, x + U32);
    }
  }

  /** How the constructor ends. */
  datatype Outcome =
    | Created(ctx: Context)
    | Refused(errno: nat)
      /** A division by zero in the length computation (a kernel oops). */
    | DivideError
      /** A negative device count, chunk size or recovering disk got through the checks. */
    | Unmodelled

  /**
   * The rest of insane_ctr after the checks: the shifts (`ndev_shift` is -1
   * unless the device count is a power of two), the configured descriptor,
   * and the length shrunk to the data blocks and then rounded down to a
   * multiple of `ndev * chunk_size * stripe_blocks` (a 32-bit product as
   * the divisor, a 64-bit one as the multiplier).
   */
  function Setup(entries: seq<Algorithm>, a: Args, len: nat, begin: nat): Outcome
    requires a.entry < |entries| && a.ndev != 0 && a.chunk != 0
  {
    if a.ndev < 0 || a.chunk < 0 || a.recovering < 0 then Unmodelled
    else
      var n, c := a.ndev as nat, a.chunk as nat;
      var ndevShift := if And(n, n - 1) != 0 then -1 else Ffs(n) as int;
      var alg := Configure(entries[a.entry], n);
      var sb := alg.stripeBlocks;
      if sb == 0 then DivideError
      else
        var divisor := StripeDivisor(n, c, sb);
        if divisor == 0 then DivideError
        else
          var targetLen := RoundedLength(DataLength(len, sb, alg.pBlocks, alg.eBlocks), divisor, n, c, sb);
          Created(Context(n, ndevShift, c, Ffs(c), a.pattern, a.recovering as nat, Div(len, n),
                          begin, targetLen, alg))
  }

  /** `sector_div(ti->len, stripe_blocks)` and the product with the data blocks per stripe, an `unsigned int`. */
  function DataLength(len: nat, sb: nat, p: nat, e: nat): nat
    requires sb > 0
  {
    Wrap64(Mul(Div(len, sb), Wrap32(sb - e - p)))
  }

  /** The divisor `sc->ndev * chunk_size * alg->stripe_blocks`, computed in 32 bits. */
  function StripeDivisor(n: nat, c: nat, sb: nat): nat
  {
    Mod(Mul(Mul(n, c), sb), U32)
  }

  /** The quotient multiplied back by `ti->len * sc->ndev * chunk_size * alg->stripe_blocks`, in 64 bits. */
  function RoundedLength(dataLen: nat, divisor: nat, n: nat, c: nat, sb: nat): nat
    requires divisor > 0
  {
    Wrap64(Mul(Mul(Mul(Div(dataLen, divisor), n), c), sb))
  }

  /**
   * Without wrap-around the length computation rounds the data part
   * `(len / sb) * (sb - p - e)` down to a multiple of the stripe product
   * `n * c * sb`.
   */
  lemma LengthRounds(len: nat, n: nat, c: nat, sb: nat, p: nat, e: nat)
    requires len < U64 && n > 0 && c > 0 && sb > 0 && p + e <= sb && Mul(Mul(n, c), sb) < U32
    ensures var stripe, data := Mul(Mul(n, c), sb), (len / sb) * (sb - p - e);
      && StripeDivisor(n, c, sb) == stripe > 0
      && var t := RoundedLength(DataLength(len, sb, p, e), stripe, n, c, sb);
         t % stripe == 0 && t <= data < t + stripe
  {
    var stripe, k := Mul(Mul(n, c), sb), sb - p - e;
    MulAtLeast(n, c);
    MulAtLeast(Mul(n, c), sb);
    ModSmall(stripe, U32);
    var data := (len / sb) * k;
    DataFits(len, sb, k, stripe);
    assert DataLength(len, sb, p, e) == data;
    RoundDownMultiple(data, stripe);
    assert Mul(Mul(Mul(Div(data, stripe), n), c), sb) == Div(data, stripe) * stripe;
  }

  /** insane_ctr for a target of `len` sectors starting at `begin`, with the registry's list. */
  function Ctr(entries: seq<Algorithm>, argv: seq<string>, len: nat, begin: nat): Outcome
  {
    match CheckArgs(entries, argv, len)
    case Err(e) => Refused(e)
    case Ok(a) => Setup(entries, a, len, begin)
  }

  /**
   * The table lines the checks accept, stated on the arguments: at least
   * five of them, a registered name, a device count and a chunk size that
   * are numerals with a non-zero `int` value, a known pattern and, in
   * recover mode, a numeral recovering disk with a non-zero value, a chunk
   * size that is a power of two in 32 bits, a length divisible by the
   * device count, and one argument per device after the fixed ones.
   */
  predicate Acceptable(entries: seq<Algorithm>, argv: seq<string>, len: nat)
  {
    && |argv| >= 5
    && (exists k :: 0 <= k < |entries| && SameName(entries[k].name, argv[0]))
    && Numeral(argv[1]) && StrToUl(argv[1]).value % U32 != 0
    && Numeral(argv[2]) && StrToUl(argv[2]).value % U32 != 0
    && argv[3] in IoPatterns
    && (argv[3] == "random" ==> Numeral(argv[4]) && StrToUl(argv[4]).value % U32 != 0)
    && IsPow2(StrToUl(argv[2]).value % U32)
    && len % (StrToUl(argv[1]).value % U32) == 0
    && |argv| == (4 + (if argv[3] == "random" then 1 else 0) + StrToUl(argv[1]).value) % U32
  }

  /** The constructor refuses a table line, always with -EINVAL, exactly when the line is not acceptable. */
  lemma CheckArgsAccepts(entries: seq<Algorithm>, argv: seq<string>, len: nat)
    ensures CheckArgs(entries, argv, len).Ok? <==> Acceptable(entries, argv, len)
  {
    if |argv| >= 5 && Find(entries, argv[0]).Some? {
      var nd, cs := StrToUl(argv[1]), StrToUl(argv[2]);
      var ndev, chunk := ToInt32(nd.value), ToInt32(cs.value);
      if ndev != 0 && chunk != 0 && argv[3] in IoPatterns {
        NonZeroWrap(chunk);
        NonZeroWrap(ndev);
        var extra := if argv[3] == "random" then 1 else 0;
        GeometryAccepts(|argv|, len, ndev, chunk, extra, nd.value, cs.value);
      }
    }
  }

  /** Adding numbers with the same low 32 bits gives sums with the same low 32 bits. */
  lemma SameWrap(a: nat, x: int, v: nat)
    requires Wrap32(x) == v % U32
    ensures Wrap32(a + x) == (a + v) % U32
  {
    DivModSplit(v, U32);
    var q, r := v / U32, v % U32;
    var qx := (x - r) / U32;
    assert x == qx * U32 + r;
    DivModUnique(a + x, U32, (a + r) / U32 + qx, (a + r) % U32);
    DivModUnique(a + v, U32, (a + r) / U32 + q, (a + r) % U32);
  }

  lemma PositiveWrap(x: int)
    requires 0 < x < U32
    ensures Wrap32(x) == x
  {
  }

  /**
   * A created target's context: the shift fields agree with the sizes,
   * the per-device width times the device count is the original length,
   * the descriptor is the found one after `configure`, and a disk other
   * than 0 is recovered exactly in recover mode.
   */
  lemma CreatedContext(entries: seq<Algorithm>, argv: seq<string>, len: nat, begin: nat)
    requires Ctr(entries, argv, len, begin).Created?
    ensures var ctx := Ctr(entries, argv, len, begin).ctx;
      && Shifts(ctx)
      && ctx.ndev * ctx.devWidth == len
      && Find(entries, argv[0]).Some?
      && ctx.alg == Configure(entries[Find(entries, argv[0]).value], ctx.ndev)
      && ctx.chunkSize == StrToUl(argv[2]).value % U32 && ctx.ndev == StrToUl(argv[1]).value % U32
      && ctx.targetBegin == begin
      && (ctx.recoveringDisk != 0 <==> ctx.ioPattern == RANDOM)
  {
    var a := CheckArgs(entries, argv, len).value;
    var ctx := Ctr(entries, argv, len, begin).ctx;
    var n, c := a.ndev as nat, a.chunk as nat;
    PositiveWrap(a.ndev);
    PositiveWrap(a.chunk);
    PowerOfTwoTest(c);
    FfsPow2(c);
    PowerOfTwoTest(n);
    if And(n, n - 1) == 0 {
      FfsPow2(n);
    }
    DivModSplit(len, n);
  }

  /**
   * When the stripe product `ndev * chunk_size * stripe_blocks` fits in 32
   * bits and no descriptor count exceeds the stripe, the shrunk length is
   * the largest multiple of that product not above the data part
   * `(len / stripe_blocks) * (stripe_blocks - p_blocks - e_blocks)`.
   */
  lemma CreatedLength(entries: seq<Algorithm>, argv: seq<string>, len: nat, begin: nat)
    requires len < U64
    requires Ctr(entries, argv, len, begin).Created?
    requires var ctx := Ctr(entries, argv, len, begin).ctx;
      ctx.ndev * ctx.chunkSize * ctx.alg.stripeBlocks < U32
      && ctx.alg.pBlocks + ctx.alg.eBlocks <= ctx.alg.stripeBlocks
    ensures var ctx := Ctr(entries, argv, len, begin).ctx;
      var sb := ctx.alg.stripeBlocks;
      var stripe := ctx.ndev * ctx.chunkSize * sb;
      var data := (len / sb) * (sb - ctx.alg.pBlocks - ctx.alg.eBlocks);
      && stripe > 0 && ctx.targetLen % stripe == 0 && ctx.targetLen <= data < ctx.targetLen + stripe
  {
    var ctx := Ctr(entries, argv, len, begin).ctx;
    var alg := ctx.alg;
    var n, c, sb := ctx.ndev, ctx.chunkSize, alg.stripeBlocks;
    assert ctx.targetLen == RoundedLength(DataLength(len, sb, alg.pBlocks, alg.eBlocks), StripeDivisor(n, c, sb), n, c, sb);
    LengthRounds(len, n, c, sb, alg.pBlocks, alg.eBlocks);
  }

  /** The data part of the length does not wrap. */
  lemma DataFits(len: nat, sb: nat, k: nat, stripe: nat)
    requires len < U64 && 0 < sb && k <= sb && sb <= stripe < U32
    ensures Wrap32(k) == k && (len / sb) * k <= len < U64
  {
    MulLe(k, sb, len / sb);
    DivModSplit(len, sb);
  }

  /** Rounding down to a multiple of `d`. */
  lemma RoundDownMultiple(x: nat, d: nat)
    requires 0 < d && x < U64
    ensures var m := Div(x, d) * d;
      Wrap64(m) == m && m % d == 0 && m <= x < m + d
  {
    DivModSplit(x, d);
    DivModUnique(Div(x, d) * d, d, Div(x, d), 0);
  }

  /**
   * insane_ctr as a whole: the argument checks, the context set-up and,
   * for a created target, the rebuild of the recovering disk.
   */
  method Construct(registry: Registry, argv: seq<string>, len: nat, begin: nat)
      returns (outcome: Outcome, trace: seq<Io>)
    ensures outcome == Ctr(registry.entries, argv, len, begin)
    ensures trace == if outcome.Created? then Rebuild.Rebuild(outcome.ctx) else []
  {
    trace := [];
    var args := ParseArgs(registry, argv, len);
    if args.Err? {
      return Refused(args.errno), trace;
    }
    outcome := Setup(registry.entries, args.value, len, begin);
    if outcome.Created? {
      trace := Rebuild.Recover(outcome.ctx);
    }
  }

  /** The argument checks of insane_ctr, with the lookup and pattern loops. */
  method ParseArgs(registry: Registry, argv: seq<string>, len: nat) returns (r: Result<Args>)
    ensures r == CheckArgs(registry.entries, argv, len)
  {
    if |argv| < 5 {
      return Err(EINVAL);
    }
    var found := registry.Lookup(argv[0]);
    if found.None? {
      return Err(EINVAL);
    }
    var nd := StrToUl(argv[1]);
    var ndev := ToInt32(nd.value);
    if nd.end < |argv[1]| || ndev == 0 {
      return Err(EINVAL);
    }
    var cs := StrToUl(argv[2]);
    var chunkSize := ToInt32(cs.value);
    if cs.end < |argv[2]| || chunkSize == 0 {
      return Err(EINVAL);
    }
    var pattern := MatchPattern(argv[3]);
    if pattern.None? {
      return Err(EINVAL);
    }
    var i, recovering;
    if pattern.value == IO_PATTERN_NUM - 1 {
      i := 1;
      var rc := StrToUl(argv[4]);
      recovering := ToInt32(rc.value);
      if rc.end < |argv[4]| || recovering == 0 {
        return Err(EINVAL);
      }
    } else {
      i := 0;
      recovering := 0;
    }
    NonZeroWrap(chunkSize);
    NonZeroWrap(ndev);
    if !GeometryFits(|argv|, len, ndev, chunkSize, i) {
      return Err(EINVAL);
    }
    return Ok(Args(found.value, ndev, chunkSize, pattern.value, recovering, i));
  }
}
