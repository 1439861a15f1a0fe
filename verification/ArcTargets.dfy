/** The self-tuning targets of oss/arc/arc.c: arc_c, the size the cache aims at, and arc_p, the share of it
    meant for the MRU list. Arithmetic is that of uint64_t and int. */
module ArcTargets {

  const WORD: nat := 0x1_0000_0000_0000_0000

  /** arc_c_max and the sizes that are added to it stay well below the word size. */
  const LIMIT: nat := 0x8000_0000_0000_0000

  const P_MIN_DIVISOR: nat := 16    // arc_c >> zfs_arc_p_min_shift
  const SHRINK_DIVISOR: nat := 32   // arc_c >> zfs_arc_shrink_shift
  const TWO_BLOCKS: nat := 0x4_0000
  const PAGE: nat := 0x1000

  datatype St = Anon | Mru | MruGhost | Mfu | MfuGhost | L2cOnly

  datatype Targets = Targets(c: nat, p: nat, cMin: nat, cMax: nat)

  /** Conversion to int. */
  function Int32(x: int): int {
    var r := x % 0x1_0000_0000;
    if r < 0x8000_0000 then r else r - 0x1_0000_0000
  }

  function U64(x: int): nat {
    x % WORD
  }

  function Min(a: int, b: int): int {
    if a < b then a else b
  }

  function Max(a: int, b: int): int {
    if a > b then a else b
  }

  /** How strongly a hit in the ghost list of size `mine` moves arc_p when the other one has size `other`. */
  function Mult(mine: nat, other: nat): int
    requires mine > 0
  {
    Min(if mine >= other then 1 else Int32(other / mine), 10)
  }

  /** The first half of arc_adapt. */
  function AdaptP(t: Targets, bytes: nat, st: St, mruGhost: nat, mfuGhost: nat): nat
    requires t.p <= t.c && (st == MruGhost ==> mruGhost > 0) && (st == MfuGhost ==> mfuGhost > 0)
  {
    var pMin := t.c / P_MIN_DIVISOR;
    match st
    case MruGhost => Min(t.c - pMin, U64(t.p + U64(Int32(bytes * Mult(mruGhost, mfuGhost)))))
    case MfuGhost =>
      var delta := Min(U64(Int32(bytes * Mult(mfuGhost, mruGhost))), t.p);
      Max(pMin, t.p - delta)
    case _ => t.p
  }

  /** arc_adapt, for `bytes` coming from state `st`. */
  function Adapt(t: Targets, bytes: nat, st: St, mruGhost: nat, mfuGhost: nat, arcSize: nat, noGrow: bool): Targets
    requires t.p <= t.c && (st == MruGhost ==> mruGhost > 0) && (st == MfuGhost ==> mfuGhost > 0)
  {
    if st == L2cOnly then t else Grow(t.(p := AdaptP(t, bytes, st, mruGhost, mfuGhost)), bytes, st, arcSize, noGrow)
  }

  /** The second half of arc_adapt. */
  function Grow(t: Targets, bytes: nat, st: St, arcSize: nat, noGrow: bool): Targets {
    if noGrow || t.c >= t.cMax || arcSize <= U64(t.c - TWO_BLOCKS) then t
    else
      var c1 := U64(t.c + bytes);
      var t1 := if c1 > t.cMax then t.(c := t.cMax) else t.(c := c1, p := if st == Anon then U64(t.p + bytes) else t.p);
      if t1.p > t1.c then t1.(p := t1.c) else t1
  }

  /** arc_shrink. */
  function Shrink(t: Targets, bytes: nat, arcSize: nat): Targets {
    if t.c <= t.cMin then t
    else
      var toFree := ToFree(t, bytes);
      var c1 := if t.c > U64(t.cMin + toFree) then U64(t.c - toFree) else t.cMin;
      var p1 := t.p - t.p / SHRINK_DIVISOR;
      var c2 := if c1 > arcSize then Max(arcSize, t.cMin) else c1;
      t.(c := c2, p := if p1 > c2 then c2 / 2 else p1)
  }

  function ToFree(t: Targets, bytes: nat): nat {
    if bytes != 0 then bytes else t.c / SHRINK_DIVISOR
  }

  /** The part of arc_tempreserve_space that moves the target. */
  function Reserve(t: Targets, reserve: nat, noGrow: bool): Targets {
    if reserve > t.c / 4 && !noGrow then t.(c := Min(t.cMax, U64(reserve * 4))) else t
  }

  /** The last step of arc_get_data_buf, when the cache grows and anonymous data has outgrown arc_p. */
  function Outgrow(t: Targets, size: nat): Targets {
    t.(p := Min(t.c, U64(t.p + size)))
  }

  // ----- bounds -----

  predicate InBounds(t: Targets) {
    t.cMin <= t.c <= t.cMax < LIMIT && t.p <= t.c
  }

  datatype Action =
    | DoAdapt(bytes: nat, st: St, mruGhost: nat, mfuGhost: nat, arcSize: nat, noGrow: bool)
    | DoShrink(bytes: nat, arcSize: nat)
    | DoReserve(reserve: nat, noGrow: bool)
    | DoOutgrow(size: nat)

  /** What the callers guarantee: sizes are positive ints, a ghost hit comes from a list that is not empty, and the
      bytes to free are a whole number of pages. */
  predicate Called(act: Action) {
    match act
    case DoAdapt(bytes, st, mruGhost, mfuGhost, arcSize, _) =>
      0 < bytes < 0x8000_0000 && (st == MruGhost ==> mruGhost > 0) && (st == MfuGhost ==> mfuGhost > 0) &&
          arcSize < WORD
    case DoShrink(bytes, arcSize) => bytes < WORD && bytes % PAGE == 0 && arcSize < WORD
    case DoReserve(reserve, _) => reserve < WORD
    case DoOutgrow(size) => size < 0x8000_0000
  }

  function Apply(t: Targets, act: Action): Targets
    requires t.p <= t.c && Called(act)
  {
    match act
    case DoAdapt(bytes, st, mruGhost, mfuGhost, arcSize, noGrow) => Adapt(t, bytes, st, mruGhost, mfuGhost, arcSize,
        noGrow)
    case DoShrink(bytes, arcSize) => Shrink(t, bytes, arcSize)
    case DoReserve(reserve, noGrow) => Reserve(t, reserve, noGrow)
    case DoOutgrow(size) => Outgrow(t, size)
  }

  /** A step is right when it stays in bounds, a reservation does not lower arc_c and a shrink does not raise it. */
  predicate Right(t: Targets, act: Action)
    requires t.p <= t.c && Called(act)
  {
    var t' := Apply(t, act);
    && InBounds(t') && t'.cMin == t.cMin && t'.cMax == t.cMax
    && (act.DoReserve? ==> t'.c >= t.c) && (act.DoShrink? ==> t'.c <= t.c)
  }

  /** A call that reserves or frees no more than the given numbers of bytes. */
  predicate UpTo(act: Action, reserve: nat, free: nat) {
    (act.DoReserve? ==> act.reserve <= reserve) && (act.DoShrink? ==> act.bytes <= free)
  }

  /** The limits below which nothing goes wrong: four times the reservation fits a word, unless there is nothing to
      lower; and so does arc_c_min, in whole pages, plus the bytes to free, unless there is nothing to shrink. */
  predicate Modest(cMin: nat, cMax: nat, reserve: nat, free: nat) {
    (cMax == 0 || reserve < WORD / 4) && (cMin == cMax || free + cMin / PAGE * PAGE < WORD)
  }

  lemma AdaptPBounds(t: Targets, bytes: nat, st: St, mruGhost: nat, mfuGhost: nat)
    requires InBounds(t) && (st == MruGhost ==> mruGhost > 0) && (st == MfuGhost ==> mfuGhost > 0)
    ensures AdaptP(t, bytes, st, mruGhost, mfuGhost) <= t.c
  {
  }

  lemma AdaptBounds(t: Targets, bytes: nat, st: St, mruGhost: nat, mfuGhost: nat, arcSize: nat, noGrow: bool)
    requires InBounds(t) && Called(DoAdapt(bytes, st, mruGhost, mfuGhost, arcSize, noGrow))
    ensures var t' := Adapt(t, bytes, st, mruGhost, mfuGhost, arcSize, noGrow);
            InBounds(t') && t'.cMin == t.cMin && t'.cMax == t.cMax && t'.c >= t.c
  {
    hide AdaptP, Grow;
    AdaptPBounds(t, bytes, st, mruGhost, mfuGhost);
    GrowBounds(t.(p := AdaptP(t, bytes, st, mruGhost, mfuGhost)), bytes, st, arcSize, noGrow);
  }

  lemma GrowBounds(t: Targets, bytes: nat, st: St, arcSize: nat, noGrow: bool)
    requires InBounds(t) && bytes < 0x8000_0000
    ensures var t' := Grow(t, bytes, st, arcSize, noGrow);
            InBounds(t') && t'.cMin == t.cMin && t'.cMax == t.cMax && t'.c >= t.c
  {
  }

  /** A shrink is right exactly when there is nothing to shrink, when arc_c_min plus the bytes to free does not wrap
      around, or when the cache is no larger than its target. */
  lemma ShrinkRight(t: Targets, bytes: nat, arcSize: nat)
    requires InBounds(t) && Called(DoShrink(bytes, arcSize))
    ensures Right(t, DoShrink(bytes, arcSize)) <==>
            t.c <= t.cMin || t.cMin + ToFree(t, bytes) < WORD || arcSize <= t.c
  {
    hide U64, ToFree;
    var f := ToFree(t, bytes);
    assert f < WORD by { ShareOf(t, bytes); }
    Wraps(t.cMin + f);
    Wraps(t.c - f);
  }

  lemma Wraps(x: int)
    requires x + WORD > 0 && x < 2 * WORD
    ensures U64(x) == if x < 0 then x + WORD else if x >= WORD then x - WORD else x
  {
  }

  lemma ShareOf(t: Targets, bytes: nat)
    requires bytes < WORD && t.c < WORD
    ensures ToFree(t, bytes) < WORD
  {
  }

  /** Below the limits every call is right. */
  lemma ModestRight(t: Targets, act: Action, reserve: nat, free: nat)
    requires InBounds(t) && Called(act) && UpTo(act, reserve, free) && Modest(t.cMin, t.cMax, reserve, free)
    ensures Right(t, act)
  {
    match act {
      case DoAdapt(bytes, st, mruGhost, mfuGhost, arcSize, noGrow) => AdaptBounds(t, bytes, st, mruGhost, mfuGhost,
          arcSize, noGrow);
      case DoShrink(bytes, arcSize) =>
        WholePages(bytes, t.cMin);
        ShrinkRight(t, bytes, arcSize);
      case DoReserve(reserve, noGrow) =>
      case DoOutgrow(size) =>
    }
  }

  /** Below a word there is no room for less than a page. */
  lemma WholePages(bytes: nat, cMin: nat)
    requires bytes % PAGE == 0
    ensures bytes + cMin / PAGE * PAGE < WORD <==> bytes + cMin < WORD
  {
  }

  /** Above them, from the largest target, some call is not. */
  lemma ImmodestWrong(lo: nat, hi: nat, reserve: nat, free: nat) returns (t: Targets, act: Action)
    requires lo <= hi < LIMIT && free < WORD && !Modest(lo, hi, reserve, free)
    ensures InBounds(t) && t.cMin == lo && t.cMax == hi && Called(act) && UpTo(act, reserve, free) && !Right(t, act)
  {
    t := Targets(hi, 0, lo, hi);
    if hi > 0 && reserve >= WORD / 4 {
      act := DoReserve(WORD / 4, false);
    } else {
      var bytes := WORD - lo / PAGE * PAGE;
      act := DoShrink(bytes, WORD - 1);
      WholePages(bytes, lo);
      ShrinkRight(t, bytes, WORD - 1);
    }
  }

  // ----- what the calls do, in plain arithmetic -----

  /** The strength of a ghost hit: how many times larger the other ghost list is, between 1 and 10. */
  function Strength(mine: nat, other: nat): nat
    requires mine > 0
  {
    Max(1, Min(other / mine, 10))
  }

  lemma MultIsStrength(mine: nat, other: nat)
    requires mine > 0 && other / mine < 0x8000_0000
    ensures Mult(mine, other) == Strength(mine, other)
  {
    if mine > other { SmallQuotient(other, mine); }
  }

  lemma SmallQuotient(a: nat, b: nat)
    requires a < b
    ensures a / b == 0
  {
  }

  lemma Scaled(bytes: nat, mine: nat, other: nat)
    requires mine > 0 && other / mine < 0x8000_0000 && bytes * Strength(mine, other) < 0x8000_0000
    ensures U64(Int32(bytes * Mult(mine, other))) == bytes * Strength(mine, other)
  {
    MultIsStrength(mine, other);
    var x := bytes * Strength(mine, other);
    hide Mult, Strength;
  }

  /** A hit in the MRU ghost list raises arc_p by the size times the strength, up to arc_c less a sixteenth; a hit
      in the MFU ghost list lowers it by as much, down to that sixteenth: mirror images of one another. The product
      has to fit an int. */
  lemma GhostHits(t: Targets, bytes: nat, mruGhost: nat, mfuGhost: nat)
    requires InBounds(t)
    ensures Fits(bytes, mruGhost, mfuGhost) ==>
              AdaptP(t, bytes, MruGhost, mruGhost, mfuGhost) ==
              Min(t.p + bytes * Strength(mruGhost, mfuGhost), t.c - t.c / 16)
    ensures Fits(bytes, mfuGhost, mruGhost) ==>
              AdaptP(t, bytes, MfuGhost, mruGhost, mfuGhost) ==
              Max(t.p - bytes * Strength(mfuGhost, mruGhost), t.c / 16)
  {
    hide Mult, Strength, AdaptP, U64, Int32;
    if Fits(bytes, mruGhost, mfuGhost) {
      Scaled(bytes, mruGhost, mfuGhost);
      MruHit(t, bytes, mruGhost, mfuGhost, bytes * Strength(mruGhost, mfuGhost));
    }
    if Fits(bytes, mfuGhost, mruGhost) {
      Scaled(bytes, mfuGhost, mruGhost);
      MfuHit(t, bytes, mruGhost, mfuGhost, bytes * Strength(mfuGhost, mruGhost));
    }
  }

  /** The list is not empty, and neither the quotient nor the product leaves the range of an int. */
  predicate Fits(bytes: nat, mine: nat, other: nat) {
    mine > 0 && other / mine < 0x8000_0000 && bytes * Strength(mine, other) < 0x8000_0000
  }

  /** So a hit in a ghost list moves arc_p towards that list exactly as long as arc_p has not passed the limit on that
      side: beyond it the hit moves arc_p the other way. */
  lemma GhostDirection(t: Targets, bytes: nat, mruGhost: nat, mfuGhost: nat)
    requires InBounds(t) && bytes > 0
    ensures Fits(bytes, mruGhost, mfuGhost) ==>
              (AdaptP(t, bytes, MruGhost, mruGhost, mfuGhost) >= t.p <==> t.p <= t.c - t.c / 16)
    ensures Fits(bytes, mfuGhost, mruGhost) ==>
              (AdaptP(t, bytes, MfuGhost, mruGhost, mfuGhost) <= t.p <==> t.p >= t.c / 16)
  {
    hide AdaptP, Fits, Strength;
    GhostHits(t, bytes, mruGhost, mfuGhost);
  }

  lemma MruHit(t: Targets, bytes: nat, mruGhost: nat, mfuGhost: nat, delta: nat)
    requires InBounds(t) && mruGhost > 0 && U64(Int32(bytes * Mult(mruGhost, mfuGhost))) == delta < 0x8000_0000
    ensures AdaptP(t, bytes, MruGhost, mruGhost, mfuGhost) == Min(t.p + delta, t.c - t.c / 16)
  {
    hide Mult, Int32;
  }

  lemma MfuHit(t: Targets, bytes: nat, mruGhost: nat, mfuGhost: nat, delta: nat)
    requires InBounds(t) && mfuGhost > 0 && U64(Int32(bytes * Mult(mfuGhost, mruGhost))) == delta
    ensures AdaptP(t, bytes, MfuGhost, mruGhost, mfuGhost) == Max(t.p - delta, t.c / 16)
  {
    hide Mult, Int32;
  }

  /** A miss lets arc_c grow by the size missed, up to arc_c_max, when the cache is within two blocks of it; only
      new anonymous data takes arc_p along. */
  lemma Grows(t: Targets, bytes: nat, st: St, arcSize: nat, noGrow: bool)
    requires InBounds(t) && 0 < bytes < 0x8000_0000 && arcSize < LIMIT
    ensures var t' := Grow(t, bytes, st, arcSize, noGrow);
            && t'.c == (if !noGrow && t.c >= TWO_BLOCKS && arcSize > t.c - TWO_BLOCKS then Min(t.c + bytes, t.cMax)
                else t.c)
            && t'.p == if st == Anon && t'.c == t.c + bytes then t.p + bytes else t.p
  {
  }

  /** When arc_c grows at all: the cache is within two blocks of it, and may grow. */
  predicate Tight(t: Targets, arcSize: nat, noGrow: bool) {
    !noGrow && t.c >= TWO_BLOCKS && arcSize > t.c - TWO_BLOCKS
  }

  /** arc_adapt as a whole. Nothing changes for a header that is only in the L2 cache. Otherwise arc_c grows by the size
      asked for, up to arc_c_max; arc_p follows a ghost hit, and apart from that only anonymous data, by just as much
      as arc_c has grown without meeting its maximum. */
  lemma Adapts(t: Targets, bytes: nat, st: St, mruGhost: nat, mfuGhost: nat, arcSize: nat, noGrow: bool)
    requires InBounds(t) && arcSize < LIMIT && Called(DoAdapt(bytes, st, mruGhost, mfuGhost, arcSize, noGrow))
    ensures var t' := Adapt(t, bytes, st, mruGhost, mfuGhost, arcSize, noGrow);
            && t'.cMin == t.cMin && t'.cMax == t.cMax && (st == L2cOnly ==> t' == t)
            && (st != L2cOnly ==> t'.c == if Tight(t, arcSize, noGrow) then Min(t.c + bytes, t.cMax) else t.c)
            && (st == Mru || st == Mfu ==> t'.p == t.p)
            && (st == Anon ==> t'.p - t.p == if t'.c - t.c == bytes then bytes else 0)
            && (st == MruGhost && Fits(bytes, mruGhost, mfuGhost) ==>
                  t'.p == Min(t.p + bytes * Strength(mruGhost, mfuGhost), t.c - t.c / 16))
            && (st == MfuGhost && Fits(bytes, mfuGhost, mruGhost) ==>
                  t'.p == Max(t.p - bytes * Strength(mfuGhost, mruGhost), t.c / 16))
  {
    var p := AdaptP(t, bytes, st, mruGhost, mfuGhost);
    AdaptPBounds(t, bytes, st, mruGhost, mfuGhost);
    assert st == Anon || st == Mru || st == Mfu ==> p == t.p;
    hide AdaptP, Grow, Fits, Strength;
    if st != L2cOnly {
      Grows(t.(p := p), bytes, st, arcSize, noGrow);
      GhostHits(t, bytes, mruGhost, mfuGhost);
    }
  }

  /** A reservation below the wrap raises arc_c, if it may grow, to four times its size, but not beyond arc_c_max. */
  lemma Reserves(t: Targets, reserve: nat, noGrow: bool)
    requires InBounds(t) && reserve < WORD / 4
    ensures var t' := Reserve(t, reserve, noGrow);
            && t' == t.(c := t'.c) && (noGrow ==> t' == t)
            && (!noGrow ==> t'.c == Min(Max(t.c, 4 * reserve), t.cMax) && (4 * reserve <= t'.c || t'.c == t.cMax))
  {
  }

  /** Anonymous data that has outgrown arc_p takes it along, as far as arc_c. */
  lemma Outgrows(t: Targets, size: nat)
    requires InBounds(t) && size < 0x8000_0000
    ensures var t' := Outgrow(t, size);
            && t' == t.(p := t'.p) && t.p <= t'.p <= t.c
            && (t'.p - t.p == size || (t'.p == t.c && t'.p - t.p < size))
  {
  }

  /** Shrinking without a wrap gives up the bytes asked for, follows the cache when that is smaller still, and stops
      at arc_c_min; it makes progress whenever there is something to free, and at arc_c_min it leaves everything. */
  lemma ShrinkTo(t: Targets, bytes: nat, arcSize: nat)
    requires InBounds(t) && arcSize < WORD && (t.c > t.cMin ==> t.cMin + ToFree(t, bytes) < WORD)
    ensures var t' := Shrink(t, bytes, arcSize);
            && t'.cMin == t.cMin && t'.cMax == t.cMax && (t.c == t.cMin ==> t' == t)
            && t'.c == Max(Min(t.c - ToFree(t, bytes), arcSize), t.cMin)
            && (t.c > t.cMin ==>
                  && (ToFree(t, bytes) > 0 ==> t'.c < t.c) && t'.p <= t.p
                  && (t.p - t.p / 32 <= t'.c ==> t'.p == t.p - t.p / 32)
                  && (t.p - t.p / 32 > t'.c ==> t'.p == t'.c / 2))
            && (bytes > 0 ==> ToFree(t, bytes) == bytes) && (bytes == 0 ==> ToFree(t, bytes) == t.c / 32)
  {
    hide U64, ToFree;
    var f := ToFree(t, bytes);
    if t.c > t.cMin {
      Wraps(t.cMin + f);
      Wraps(t.c - f);
    }
    Freed(t, bytes);
  }

  lemma Freed(t: Targets, bytes: nat)
    ensures (bytes > 0 ==> ToFree(t, bytes) == bytes) && (bytes == 0 ==> ToFree(t, bytes) == t.c / 32)
  {
  }

  // ----- whole runs -----

  ghost predicate CalledRun(acts: seq<Action>, reserve: nat, free: nat) {
    forall i :: 0 <= i < |acts| ==> Called(acts[i]) && UpTo(acts[i], reserve, free)
  }

  ghost predicate RightRun(t: Targets, acts: seq<Action>)
    requires forall i :: 0 <= i < |acts| ==> Called(acts[i])
    decreases |acts|
  {
    acts != [] ==> t.p <= t.c && Right(t, acts[0]) && RightRun(Apply(t, acts[0]), acts[1..])
  }

  lemma {:induction false} ModestRun(t: Targets, acts: seq<Action>, reserve: nat, free: nat)
    requires InBounds(t) && CalledRun(acts, reserve, free) && Modest(t.cMin, t.cMax, reserve, free)
    ensures RightRun(t, acts)
    decreases |acts|
  {
    if acts != [] {
      hide InBounds, Apply, Called, Modest, UpTo;
      ModestRight(t, acts[0], reserve, free);
      assert t.p <= t.c by { InOrder(t); }
      ModestRun(Apply(t, acts[0]), acts[1..], reserve, free);
    }
  }

  lemma InOrder(t: Targets)
    requires InBounds(t)
    ensures t.p <= t.c
  {
  }

  /** Every run, in every interleaving, of calls up to these sizes. */
  ghost predicate AllRunsRight(lo: nat, hi: nat, reserve: nat, free: nat) {
    forall t: Targets, acts: seq<Action> ::
      InBounds(t) && t.cMin == lo && t.cMax == hi && CalledRun(acts, reserve, free) ==> RightRun(t, acts)
  }

  /** With the tunables fixed, every run stays right exactly when the sizes are modest. */
  lemma RunsRight(lo: nat, hi: nat, reserve: nat, free: nat)
    requires lo <= hi < LIMIT && free < WORD
    ensures AllRunsRight(lo, hi, reserve, free) <==> Modest(lo, hi, reserve, free)
  {
    hide InBounds, Modest, UpTo, Called, Right;
    if Modest(lo, hi, reserve, free) {
      forall t: Targets, acts: seq<Action>
        | InBounds(t) && t.cMin == lo && t.cMax == hi && CalledRun(acts, reserve, free)
        ensures RightRun(t, acts)
      {
        ModestRun(t, acts, reserve, free);
      }
    } else {
      var t, act := ImmodestWrong(lo, hi, reserve, free);
      assert CalledRun([act], reserve, free) && !RightRun(t, [act]);
    }
  }

  /** A reservation of a quarter of the word size lowers arc_c to zero; a request to free all pages of the address
      space but one raises it above arc_c_max. */
  lemma WrapsAround()
    ensures var t := Targets(0x1000_0000, 0x800_0000, 0x400_0000, 0x1000_0000);
            && InBounds(t) && Reserve(t, 0x4000_0000_0000_0000, false).c == 0
            && Shrink(t, WORD - PAGE, 0x2000_0000).c == t.cMax + PAGE
  {
  }

  /** The targets arc_init sets up, from the bytes of memory and the tunables. */
  function Initial(memory: nat, zfsMax: nat, zfsMin: nat, zfsMeta: nat, debugging: bool): Targets {
    var c0 := memory / 8;
    var cMax := if 0x400_0000 < zfsMax < memory then zfsMax else c0 * 4;
    var cMin0 := if 0x400_0000 < zfsMin <= cMax then zfsMin else Max(c0 / 4, 0x400_0000);
    var meta := if 0 < zfsMeta <= cMax then zfsMeta else cMax / 4;
    var cMin := if cMin0 < meta / 2 && zfsMin == 0 then meta / 2 else cMin0;
    var c1 := if debugging then cMax / 2 else cMax;
    Targets(Max(c1, cMin), cMax / 2, cMin, cMax)
  }

  /** They are in bounds exactly when the minimum computed is not above the maximum. */
  lemma InitialInBounds(memory: nat, zfsMax: nat, zfsMin: nat, zfsMeta: nat, debugging: bool)
    requires memory < LIMIT
    ensures var t := Initial(memory, zfsMax, zfsMin, zfsMeta, debugging);
            InBounds(t) <==> t.cMin <= t.cMax
  {
  }

  /** What they come to: the tunables where they are sensible, or else half of the memory, and at least 64 MB and a
      thirty-second of it; arc_p is half of arc_c_max, and arc_c all of it, or half when debugging, if not less than
      the minimum. Without a tunable for the minimum, it is at least half of what metadata may take. */
  lemma InitialSays(memory: nat, zfsMax: nat, zfsMin: nat, zfsMeta: nat, debugging: bool)
    ensures var t := Initial(memory, zfsMax, zfsMin, zfsMeta, debugging);
            && (0x400_0000 < zfsMax < memory ==> t.cMax == zfsMax)
            && (!(0x400_0000 < zfsMax < memory) ==> t.cMax % 4 == 0 && t.cMax <= memory / 2 < t.cMax + 4)
            && (0x400_0000 < zfsMin <= t.cMax ==> t.cMin == zfsMin)
            && (!(0x400_0000 < zfsMin <= t.cMax) ==>
                  var base := Max(memory / 32, 0x400_0000);
                  var meta := if 0 < zfsMeta <= t.cMax then zfsMeta else t.cMax / 4;
                  t.cMin == if zfsMin == 0 then Max(base, meta / 2) else base)
            && 2 * t.p <= t.cMax <= 2 * t.p + 1
            && t.c == Max(if debugging then t.cMax / 2 else t.cMax, t.cMin)
  {
  }
}
