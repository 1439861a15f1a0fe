/** The second-level cache device of oss/arc/arc.c: a ring of buffers written at a hand that moves
    through [start, end), with eviction ahead of it. Addresses and sizes are counted in 512-byte
    sectors. */
module L2Device {

  /** 2^64 bytes, in sectors: device addresses wrap around there. */
  const WORD: nat := 0x80_0000_0000_0000

  /** A buffer on the device. */
  datatype Entry = Entry(hdr: nat, daddr: nat, asize: nat)

  /** A buffer found on the ARC lists: its size, and its size on the device after compression. */
  datatype Cand = Cand(hdr: nat, size: nat, asize: nat)

  /** The device; `bufs` is its buffer list from tail (oldest) to head (newest). */
  datatype Dev = Dev(start: nat, end: nat, hand: nat, first: bool, bufs: seq<Entry>)

  /** Unsigned subtraction. */
  function Sub(a: nat, b: nat): nat
    requires a < WORD && b < WORD
  {
    if a >= b then a - b else a + WORD - b
  }

  /** The address up to which l2arc_evict clears the way for a write of `d` sectors. */
  function Target(dev: Dev, d: nat): nat
    requires dev.end < WORD && 2 * d < WORD
  {
    if dev.hand >= Sub(dev.end, 2 * d) then dev.end else dev.hand + d
  }

  /** l2arc_evict takes buffers off the tail until one is outside [hand, taddr]. */
  function EvictFrom(bufs: seq<Entry>, hand: nat, taddr: nat): seq<Entry> {
    if bufs != [] && hand <= bufs[0].daddr <= taddr then EvictFrom(bufs[1..], hand, taddr) else bufs
  }

  function EvictDev(dev: Dev, d: nat): Dev
    requires dev.end < WORD && 2 * d < WORD
  {
    if dev.first then dev else dev.(bufs := EvictFrom(dev.bufs, dev.hand, Target(dev, d)))
  }

  /** The candidates l2arc_write_buffers takes: up to the first that would exceed the target. */
  function Chosen(cands: seq<Cand>, room: nat): seq<Cand> {
    if cands == [] || cands[0].size > room then [] else [cands[0]] + Chosen(cands[1..], room - cands[0].size)
  }

  /** Where they end up: one after the other from the hand on. */
  function Placed(cs: seq<Cand>, hand: nat): seq<Entry> {
    if cs == [] then [] else [Entry(cs[0].hdr, hand, cs[0].asize)] + Placed(cs[1..], hand + cs[0].asize)
  }

  function Advance(cs: seq<Cand>): nat {
    if cs == [] then 0 else cs[0].asize + Advance(cs[1..])
  }

  function WriteDev(dev: Dev, d: nat, cands: seq<Cand>): Dev
    requires dev.end < WORD && d < WORD
  {
    var cs := Chosen(cands, d);
    if cs == [] then dev
    else
      var dev' := dev.(hand := dev.hand + Advance(cs), bufs := dev.bufs + Placed(cs, dev.hand));
      if dev'.hand >= Sub(dev.end, d) then dev'.(hand := dev.start, first := false) else dev'
  }

  // ----- runs of the feed thread -----

  /** Evict(d) and Write(cands) alternate; a buffer may be dropped at any time by release, by
      destruction of its header or by a failed write. */
  datatype Step = Evict(d: nat) | Write(cands: seq<Cand>) | Drop(i: nat)

  /** `cap` is the last write size used; `ready` is set between an eviction and the write it is for. */
  datatype State = State(dev: Dev, cap: nat, ready: bool)

  predicate ValidCands(cands: seq<Cand>) {
    forall i :: 0 <= i < |cands| ==> 0 < cands[i].size && cands[i].asize <= cands[i].size
  }

  predicate Enabled(s: State, step: Step) {
    match step
    case Evict(d) => !s.ready && 0 < d <= s.cap
    case Write(cands) => s.ready && ValidCands(cands)
    case Drop(i) => i < |s.dev.bufs|
  }

  predicate Fits(s: State) {
    s.dev.end < WORD && 2 * s.cap < WORD
  }

  function Do(s: State, step: Step): State
    requires Fits(s) && Enabled(s, step)
  {
    match step
    case Evict(d) => State(EvictDev(s.dev, d), d, true)
    case Write(cands) => State(WriteDev(s.dev, s.cap, cands), s.cap, false)
    case Drop(i) => s.(dev := s.dev.(bufs := s.dev.bufs[..i] + s.dev.bufs[i + 1..]))
  }

  predicate Disjoint(a: Entry, b: Entry) {
    a.asize == 0 || b.asize == 0 || a.daddr + a.asize <= b.daddr || b.daddr + b.asize <= a.daddr
  }

  /** Everything a write puts on the device lies inside it and clear of every buffer still listed. */
  predicate SafeWrite(dev: Dev, placed: seq<Entry>) {
    && (forall j :: 0 <= j < |placed| ==> dev.start <= placed[j].daddr && placed[j].daddr + placed[j].asize <= dev.end)
    && (forall i, j :: 0 <= i < |dev.bufs| && 0 <= j < |placed| ==> Disjoint(dev.bufs[i], placed[j]))
    && (forall i, j :: 0 <= i < j < |placed| ==> Disjoint(placed[i], placed[j]))
  }

  predicate Safe(s: State, step: Step) {
    step.Write? ==> SafeWrite(s.dev, Placed(Chosen(step.cands, s.cap), s.dev.hand))
  }

  ghost predicate LegalRun(s: State, steps: seq<Step>)
    decreases |steps|
  {
    steps != [] ==> Fits(s) && Enabled(s, steps[0]) && LegalRun(Do(s, steps[0]), steps[1..])
  }

  ghost predicate SafeRun(s: State, steps: seq<Step>)
    requires LegalRun(s, steps)
    decreases |steps|
  {
    steps != [] ==> Safe(s, steps[0]) && SafeRun(Do(s, steps[0]), steps[1..])
  }

  function Init(start: nat, end: nat, cap: nat): State {
    State(Dev(start, end, start, true, []), cap, false)
  }

  ghost predicate AllRunsSafe(start: nat, end: nat, cap: nat) {
    forall steps | LegalRun(Init(start, end, cap), steps) :: SafeRun(Init(start, end, cap), steps)
  }

  /** The device sizes for which the ring discipline works: twice the write size fits below the end of the
      device, so that the test for nearing the end does not wrap around; or the device is so small that
      every eviction clears all of it. */
  predicate BigEnough(start: nat, end: nat, cap: nat) {
    2 * cap <= end || end - start - end / 2 <= 3
  }

  // ----- the ring invariant -----

  ghost predicate Ascending(es: seq<Entry>) {
    forall i, j :: 0 <= i < j < |es| ==> es[i].daddr + es[i].asize <= es[j].daddr
  }

  ghost predicate Within(es: seq<Entry>, lo: nat, hi: nat) {
    forall i :: 0 <= i < |es| ==> lo <= es[i].daddr && es[i].daddr + es[i].asize <= hi
  }

  /** The list holds first what is left of the previous sweep, beyond the hand, then what this sweep
      has written behind the hand. */
  ghost predicate Ring(dev: Dev, prev: seq<Entry>, cur: seq<Entry>) {
    && dev.bufs == prev + cur
    && Ascending(prev) && Within(prev, dev.hand, dev.end)
    && Ascending(cur) && Within(cur, dev.start, dev.hand)
    && (dev.first ==> prev == [])
  }

  ghost predicate Tiny(dev: Dev) {
    forall i :: 0 <= i < |dev.bufs| ==> dev.bufs[i].daddr + 2 <= dev.end
  }

  /** Nothing of the previous sweep is within reach of a write of `d`, and nothing of it is left when that
      write may end the sweep. */
  ghost predicate Cleared(dev: Dev, prev: seq<Entry>, d: nat) {
    && (forall i :: 0 <= i < |prev| ==> prev[i].daddr > dev.hand + d)
    && (dev.hand + 2 * d >= dev.end ==> prev == [])
  }

  ghost predicate Inv(s: State, prev: seq<Entry>, cur: seq<Entry>) {
    var dev := s.dev;
    && dev.start + s.cap < dev.end && 2 * dev.end <= WORD && 0 < s.cap
    && dev.start <= dev.hand && dev.hand + s.cap < dev.end
    && BigEnough(dev.start, dev.end, s.cap) && (2 * s.cap > dev.end ==> Tiny(dev))
    && Ring(dev, prev, cur)
    && (s.ready ==> Cleared(dev, prev, s.cap))
  }

  lemma {:induction false} EvictKeeps(prev: seq<Entry>, cur: seq<Entry>, hand: nat, taddr: nat, end: nat)
    returns (prev': seq<Entry>, cur': seq<Entry>)
    requires Ascending(prev) && Within(prev, hand, end)
    ensures EvictFrom(prev + cur, hand, taddr) == prev' + cur'
    ensures Ascending(prev') && Within(prev', hand, end) && forall i :: 0 <= i < |prev'| ==> prev'[i].daddr > taddr
    ensures |prev'| <= |prev| && prev' == prev[|prev| - |prev'|..]
    ensures |cur'| <= |cur| && cur' == cur[|cur| - |cur'|..]
    decreases |prev|
  {
    if prev == [] {
      assert prev + cur == cur;
      prev' := [];
      cur' := EvictFrom(cur, hand, taddr);
      EvictSuffix(cur, hand, taddr);
    } else if prev[0].daddr <= taddr {
      assert (prev + cur)[1..] == prev[1..] + cur;
      assert (prev + cur)[0] == prev[0];
      prev', cur' := EvictKeeps(prev[1..], cur, hand, taddr, end);
    } else {
      prev', cur' := prev, cur;
      assert (prev + cur)[0] == prev[0];
    }
  }

  lemma {:induction false} EvictSuffix(bufs: seq<Entry>, hand: nat, taddr: nat)
    ensures |EvictFrom(bufs, hand, taddr)| <= |bufs|
    ensures EvictFrom(bufs, hand, taddr) == bufs[|bufs| - |EvictFrom(bufs, hand, taddr)|..]
  {
    if bufs != [] && hand <= bufs[0].daddr <= taddr { EvictSuffix(bufs[1..], hand, taddr); }
  }

  lemma EvictStep(s: State, d: nat, prev: seq<Entry>, cur: seq<Entry>) returns (prev': seq<Entry>, cur': seq<Entry>)
    requires Inv(s, prev, cur) && !s.ready && 0 < d <= s.cap
    ensures Fits(s) && Inv(Do(s, Evict(d)), prev', cur')
  {
    var dev := s.dev;
    if dev.first {
      prev', cur' := prev, cur;
    } else {
      var taddr := Target(dev, d);
      prev', cur' := EvictKeeps(prev, cur, dev.hand, taddr, dev.end);
      var bufs' := EvictFrom(dev.bufs, dev.hand, taddr);
      EvictSuffix(dev.bufs, dev.hand, taddr);
      if 2 * s.cap > dev.end {
        forall i | 0 <= i < |bufs'| ensures bufs'[i].daddr + 2 <= dev.end {
          assert bufs'[i] == dev.bufs[|dev.bufs| - |bufs'| + i];
        }
      }
      if prev' != [] {
        assert prev'[0] == prev[|prev| - |prev'|] && prev'[0] == dev.bufs[|prev| - |prev'|];
        assert prev'[0].daddr > taddr && prev'[0].daddr <= dev.end;
      }
    }
  }

  function Without(es: seq<Entry>, k: nat): seq<Entry>
    requires k < |es|
  {
    es[..k] + es[k + 1..]
  }

  lemma WithoutKeeps(es: seq<Entry>, k: nat, lo: nat, hi: nat)
    requires k < |es| && Ascending(es) && Within(es, lo, hi)
    ensures Ascending(Without(es, k)) && Within(Without(es, k), lo, hi)
  {
    var r := Without(es, k);
    assert forall i :: 0 <= i < |r| ==> r[i] == es[if i < k then i else i + 1];
  }

  lemma DropStep(s: State, k: nat, prev: seq<Entry>, cur: seq<Entry>) returns (prev': seq<Entry>, cur': seq<Entry>)
    requires Inv(s, prev, cur) && k < |s.dev.bufs|
    ensures Fits(s) && Inv(Do(s, Drop(k)), prev', cur')
  {
    var dev, bufs' := s.dev, Without(s.dev.bufs, k);
    assert Tiny(dev) ==> Tiny(dev.(bufs := bufs')) by {
      assert forall i :: 0 <= i < |bufs'| ==> bufs'[i] == dev.bufs[if i < k then i else i + 1];
    }
    if k < |prev| {
      prev', cur' := Without(prev, k), cur;
      WithoutKeeps(prev, k, dev.hand, dev.end);
      assert Cleared(dev, prev, s.cap) ==> Cleared(dev, prev', s.cap) by {
        assert forall i :: 0 <= i < |prev'| ==> prev'[i] == prev[if i < k then i else i + 1];
      }
    } else {
      prev', cur' := prev, Without(cur, k - |prev|);
      WithoutKeeps(cur, k - |prev|, dev.start, dev.hand);
    }
    assert bufs' == prev' + cur';
    hide Ascending, Within, BigEnough, Tiny, Cleared;
  }

  /** What is placed from `hand` on is in order, and starts below the room given. */
  lemma {:induction false} PlacedRange(cands: seq<Cand>, room: nat, hand: nat)
    requires ValidCands(cands)
    ensures var cs := Chosen(cands, room);
            var es := Placed(cs, hand);
            && |es| == |cs| && Ascending(es) && Within(es, hand, hand + Advance(cs)) && Advance(cs) <= room
            && forall i :: 0 <= i < |es| ==> es[i].daddr < hand + room
  {
    if cands != [] && cands[0].size <= room {
      var c := cands[0];
      PlacedRange(cands[1..], room - c.size, hand + c.asize);
    }
  }

  lemma AscendingConcat(a: seq<Entry>, b: seq<Entry>, lo: nat, mid: nat, hi: nat)
    requires Ascending(a) && Within(a, lo, mid) && Ascending(b) && Within(b, mid, hi) && lo <= mid <= hi
    ensures Ascending(a + b) && Within(a + b, lo, hi)
  {
  }

  /** A write into the cleared stretch is safe. */
  lemma WriteSafe(dev: Dev, d: nat, prev: seq<Entry>, cur: seq<Entry>, es: seq<Entry>)
    requires Ring(dev, prev, cur) && Cleared(dev, prev, d) && dev.start <= dev.hand && dev.hand + d <= dev.end
    requires Ascending(es) && Within(es, dev.hand, dev.hand + d)
    ensures SafeWrite(dev, es)
  {
    forall i, j | 0 <= i < |dev.bufs| && 0 <= j < |es| ensures Disjoint(dev.bufs[i], es[j]) {
      if i < |prev| {
        assert dev.bufs[i] == prev[i];
      } else {
        assert dev.bufs[i] == cur[i - |prev|];
      }
    }
  }

  lemma TinyAfter(dev: Dev, d: nat, es: seq<Entry>)
    requires Tiny(dev) && dev.start + d < dev.end && 2 * d > dev.end && BigEnough(dev.start, dev.end, d)
    requires dev.hand + d < dev.end
    requires forall i :: 0 <= i < |es| ==> es[i].daddr < dev.hand + d
    ensures Tiny(dev.(bufs := dev.bufs + es))
  {
  }

  /** The ring after a write that goes on with the sweep, and after one that ends it. */
  lemma RingAfter(dev: Dev, prev: seq<Entry>, cur: seq<Entry>, es: seq<Entry>, hand': nat)
    requires Ring(dev, prev, cur) && dev.start <= dev.hand <= hand' <= dev.end
    requires Ascending(es) && Within(es, dev.hand, hand')
    ensures (forall i :: 0 <= i < |prev| ==> prev[i].daddr >= hand') ==>
              Ring(dev.(hand := hand', bufs := dev.bufs + es), prev, cur + es)
    ensures prev == [] ==> Ring(dev.(hand := dev.start, first := false, bufs := dev.bufs + es), cur + es, [])
  {
    AscendingConcat(cur, es, dev.start, dev.hand, hand');
    assert dev.bufs + es == prev + (cur + es);
    if prev == [] {
      assert dev.bufs + es == cur + es + [];
    }
  }

  lemma WriteStep(s: State, cands: seq<Cand>, prev: seq<Entry>, cur: seq<Entry>)
    returns (prev': seq<Entry>, cur': seq<Entry>)
    requires Inv(s, prev, cur) && s.ready && ValidCands(cands)
    ensures Fits(s) && Inv(Do(s, Write(cands)), prev', cur') && Safe(s, Write(cands))
  {
    var dev, d := s.dev, s.cap;
    var cs := Chosen(cands, d);
    var es := Placed(cs, dev.hand);
    var hand' := dev.hand + Advance(cs);
    PlacedRange(cands, d, dev.hand);
    WriteSafe(dev, d, prev, cur, es);
    RingAfter(dev, prev, cur, es, hand');
    if 2 * d > dev.end { TinyAfter(dev, d, es); }
    hide Ascending, Within, Placed, Chosen, Advance, SafeWrite, Ring, BigEnough;
    prev', cur' := prev, cur;
    if cs != [] {
      if hand' >= dev.end - d {
        assert prev == [];
        prev', cur' := cur + es, [];
      } else {
        cur' := cur + es;
      }
    }
  }

  lemma StepInv(s: State, step: Step, prev: seq<Entry>, cur: seq<Entry>) returns (prev': seq<Entry>, cur': seq<Entry>)
    requires Inv(s, prev, cur) && Enabled(s, step)
    ensures Fits(s) && Inv(Do(s, step), prev', cur') && Safe(s, step)
  {
    match step {
      case Evict(d) => prev', cur' := EvictStep(s, d, prev, cur);
      case Write(cands) => prev', cur' := WriteStep(s, cands, prev, cur);
      case Drop(i) => prev', cur' := DropStep(s, i, prev, cur);
    }
  }

  lemma {:induction false} RunSafe(s: State, steps: seq<Step>, prev: seq<Entry>, cur: seq<Entry>)
    requires Inv(s, prev, cur) && LegalRun(s, steps)
    ensures SafeRun(s, steps)
    decreases |steps|
  {
    if steps != [] {
      hide Inv, Safe;
      var prev', cur' := StepInv(s, steps[0], prev, cur);
      RunSafe(Do(s, steps[0]), steps[1..], prev', cur');
    }
  }

  // ----- nothing more is evicted than has to be -----

  /** The hand is within twice the distance `d` of the end of the device. When that distance is more than the address
      of the end, it takes a hand near the end of the address space. */
  predicate Nearing(dev: Dev, d: nat) {
    dev.hand + 2 * d >= if 2 * d <= dev.end then dev.end else dev.end + WORD
  }

  /** A buffer in the stretch that has to be cleared for a write of `d` sectors: from the hand on, that far, or to the
      end of the device when the hand is nearing it. */
  predicate InTheWay(dev: Dev, d: nat, e: Entry) {
    dev.hand <= e.daddr <= if Nearing(dev, d) then dev.end else dev.hand + d
  }

  /** On every device, an eviction takes the longest stretch of oldest buffers that are in the way, and nothing in the
      first sweep. */
  lemma Evicts(dev: Dev, d: nat) returns (n: nat)
    requires dev.end < WORD && 2 * d < WORD
    ensures n <= |dev.bufs| && EvictDev(dev, d) == dev.(bufs := dev.bufs[n..])
    ensures dev.first ==> n == 0
    ensures forall i :: 0 <= i < n ==> InTheWay(dev, d, dev.bufs[i])
    ensures !dev.first && n < |dev.bufs| ==> !InTheWay(dev, d, dev.bufs[n])
  {
    n := 0;
    if !dev.first {
      assert Target(dev, d) == if Nearing(dev, d) then dev.end else dev.hand + d;
      n := TakesWhile(dev.bufs, dev.hand, Target(dev, d));
    }
    assert n == 0 ==> dev.bufs[n..] == dev.bufs;
  }

  lemma {:induction false} TakesWhile(bufs: seq<Entry>, hand: nat, taddr: nat) returns (n: nat)
    ensures n <= |bufs| && EvictFrom(bufs, hand, taddr) == bufs[n..]
    ensures forall i :: 0 <= i < n ==> hand <= bufs[i].daddr <= taddr
    ensures n < |bufs| ==> !(hand <= bufs[n].daddr <= taddr)
  {
    if bufs != [] && hand <= bufs[0].daddr <= taddr {
      n := TakesWhile(bufs[1..], hand, taddr);
      assert forall i :: 0 <= i < |bufs| - 1 ==> bufs[1..][i] == bufs[i + 1];
      n := n + 1;
    } else {
      n := 0;
    }
  }

  ghost function After(s: State, steps: seq<Step>): State
    requires LegalRun(s, steps)
    decreases |steps|
  {
    if steps == [] then s else After(Do(s, steps[0]), steps[1..])
  }

  lemma {:induction false} RunInv(s: State, steps: seq<Step>, prev: seq<Entry>, cur: seq<Entry>)
    returns (prev': seq<Entry>, cur': seq<Entry>)
    requires Inv(s, prev, cur) && LegalRun(s, steps)
    ensures Inv(After(s, steps), prev', cur') && After(s, steps).dev.end == s.dev.end
    ensures After(s, steps).dev.start == s.dev.start && After(s, steps).cap <= s.cap
    decreases |steps|
  {
    prev', cur' := prev, cur;
    if steps != [] {
      hide Inv, Safe, EvictFrom, Chosen, Placed;
      prev', cur' := StepInv(s, steps[0], prev, cur);
      prev', cur' := RunInv(Do(s, steps[0]), steps[1..], prev', cur');
    }
  }

  /** At any time in any run on a device of at least twice the write size: an eviction for a write of `d` sectors takes
      a buffer off the list exactly when it is ahead of the hand and no farther than `d`, or ahead of a hand that is
      within twice `d` of the end. `n` is the number of buffers that go. */
  lemma EvictsExactly(start: nat, end: nat, cap: nat, steps: seq<Step>, d: nat) returns (n: nat)
    requires 0 < cap && start + cap < end && 2 * end <= WORD && 2 * cap <= end
    requires LegalRun(Init(start, end, cap), steps) && Fits(After(Init(start, end, cap), steps))
    requires Enabled(After(Init(start, end, cap), steps), Evict(d))
    ensures var s := After(Init(start, end, cap), steps);
            var bufs := s.dev.bufs;
            && n <= |bufs| && Do(s, Evict(d)).dev == s.dev.(bufs := bufs[n..])
            && forall i :: 0 <= i < |bufs| && bufs[i].asize > 0 ==>
                 (i < n <==>
                  s.dev.hand <= bufs[i].daddr && (bufs[i].daddr <= s.dev.hand + d || s.dev.hand + 2 * d >= end))
  {
    var s := After(Init(start, end, cap), steps);
    var prev, cur := RunInv(Init(start, end, cap), steps, [], []);
    hide LegalRun, After, EvictFrom;
    n := Evicts(s.dev, d);
    RingEvicts(s.dev, prev, cur, d, n);
  }

  /** In a ring the buffers in the way are all at the tail. */
  lemma RingEvicts(dev: Dev, prev: seq<Entry>, cur: seq<Entry>, d: nat, n: nat)
    requires Ring(dev, prev, cur) && n <= |dev.bufs| && (dev.first ==> n == 0)
    requires forall i :: 0 <= i < n ==> InTheWay(dev, d, dev.bufs[i])
    requires !dev.first && n < |dev.bufs| ==> !InTheWay(dev, d, dev.bufs[n])
    ensures forall i :: 0 <= i < |dev.bufs| && dev.bufs[i].asize > 0 ==> (i < n <==> InTheWay(dev, d, dev.bufs[i]))
  {
    var bufs := dev.bufs;
    forall i | 0 <= i < |bufs| && bufs[i].asize > 0 ensures i < n <==> InTheWay(dev, d, bufs[i]) {
      if n <= i {
        if i < |prev| {
          assert bufs[i] == prev[i] && bufs[n] == prev[n];
          assert n < i ==> prev[n].daddr + prev[n].asize <= prev[i].daddr;
        } else {
          assert bufs[i] == cur[i - |prev|];
        }
      }
    }
  }

  /** And a write moves the hand behind what it has placed, unless there is no room for another write of that size
      before the end: then, and only then, the hand returns to the start and the first sweep is over. */
  lemma Writes(dev: Dev, d: nat, cands: seq<Cand>)
    requires dev.end < WORD && d < WORD
    ensures var dev', cs := WriteDev(dev, d, cands), Chosen(cands, d);
            var hand := dev.hand + Advance(cs);
            var over := hand + d >= if d <= dev.end then dev.end else dev.end + WORD;
            && dev'.start == dev.start && dev'.end == dev.end && dev'.bufs == dev.bufs + Placed(cs, dev.hand)
            && (cs == [] ==> dev' == dev)
            && (cs != [] ==> dev'.hand == (if over then dev.start else hand) && dev'.first == (dev.first && !over))
  {
    hide Chosen, Advance;
  }

  // ----- a run that fails on every other device -----

  /** Four feeds with a write size `d` of more than half the device end: the third leaves a buffer of the
      first sweep beyond its reach, the fourth stops at that buffer and overwrites a live one. */
  function Overrun(start: nat, end: nat, d: nat): seq<Step>
    requires d > 0 && start + d + 3 <= end
  {
    [Evict(d), Write([Cand(0, 1, 1), Cand(1, 1, 1)]),
     Evict(d), Write([Cand(2, d - 1, d - 1), Cand(3, 1, 1)]),
     Evict(d), Write([Cand(4, end - start - d, end - start - d)]),
     Evict(d), Write([Cand(5, 1, 1)])]
  }

  lemma TwoCands(a: Cand, b: Cand, room: nat, hand: nat)
    requires a.size + b.size <= room
    ensures Chosen([a, b], room) == [a, b] && Advance([a, b]) == a.asize + b.asize
    ensures Placed([a, b], hand) == [Entry(a.hdr, hand, a.asize), Entry(b.hdr, hand + a.asize, b.asize)]
  {
    OneCand(b, room - a.size, hand + a.asize);
    assert [a, b][1..] == [b];
  }

  lemma OneCand(a: Cand, room: nat, hand: nat)
    requires a.size <= room
    ensures Chosen([a], room) == [a] && Advance([a]) == a.asize
    ensures Placed([a], hand) == [Entry(a.hdr, hand, a.asize)]
  {
    assert [a][1..] == [];
  }

  /** The states of the failing run after each feed. */
  lemma OverrunWrites(start: nat, end: nat, d: nat, e0: Entry, e1: Entry, e3: Entry)
    requires 2 <= d && start + d + 3 <= end && 2 * d > end && 2 * end <= WORD
    ensures var steps := Overrun(start, end, d);
            && WriteDev(Dev(start, end, start, true, []), d, steps[1].cands)
               == Dev(start, end, start + 2, true, [Entry(0, start, 1), Entry(1, start + 1, 1)])
            && WriteDev(Dev(start, end, start + 2, true, [e0, e1]), d, steps[3].cands)
               == Dev(start, end, start, false, [e0, e1, Entry(2, start + 2, d - 1), Entry(3, start + d + 1, 1)])
            && WriteDev(Dev(start, end, start, false, [e3]), d, steps[5].cands)
               == Dev(start, end, start, false, [e3, Entry(4, start, end - start - d)])
  {
    TwoCands(Cand(0, 1, 1), Cand(1, 1, 1), d, start);
    TwoCands(Cand(2, d - 1, d - 1), Cand(3, 1, 1), d, start + 2);
    OneCand(Cand(4, end - start - d, end - start - d), d, start);
    hide Chosen, Placed, Advance;
  }

  lemma OverrunEvicts(start: nat, end: nat, d: nat)
    requires 2 <= d && start + d + 3 <= end && 2 * d > end && 2 * end <= WORD
    ensures var e0, e1, e2, e3 := Entry(0, start, 1), Entry(1, start + 1, 1), Entry(2, start + 2, d - 1),
            Entry(3, start + d + 1, 1);
            var e4 := Entry(4, start, end - start - d);
            && EvictDev(Dev(start, end, start, false, [e0, e1, e2, e3]), d) == Dev(start, end, start, false, [e3])
            && EvictDev(Dev(start, end, start, false, [e3, e4]), d) == Dev(start, end, start, false, [e3, e4])
  {
    var e0, e1, e2, e3 := Entry(0, start, 1), Entry(1, start + 1, 1), Entry(2, start + 2, d - 1),
        Entry(3, start + d + 1, 1);
    assert [e0, e1, e2, e3][1..] == [e1, e2, e3] && [e1, e2, e3][1..] == [e2, e3] && [e2, e3][1..] == [e3];
    assert EvictFrom([e2, e3], start, start + d) == [e3];
    assert EvictFrom([e0, e1, e2, e3], start, start + d) == EvictFrom([e2, e3], start, start + d);
  }

  lemma OverrunUnsafe(start: nat, end: nat, d: nat, e3: Entry)
    requires 2 <= d && start + d + 3 <= end
    ensures !SafeWrite(Dev(start, end, start, false, [e3, Entry(4, start, end - start - d)]),
            Placed(Chosen([Cand(5, 1, 1)], d), start))
  {
    OneCand(Cand(5, 1, 1), d, start);
    assert !Disjoint([e3, Entry(4, start, end - start - d)][1], [Entry(5, start, 1)][0]);
  }

  lemma RunCons(s: State, steps: seq<Step>)
    requires steps != [] && Fits(s) && Enabled(s, steps[0])
    ensures LegalRun(s, steps) <==> LegalRun(Do(s, steps[0]), steps[1..])
    ensures LegalRun(s, steps) ==> (SafeRun(s, steps) <==> Safe(s, steps[0]) && SafeRun(Do(s, steps[0]), steps[1..]))
  {
  }

  lemma OverrunFails(start: nat, end: nat, cap: nat, d: nat)
    requires start + d + 3 <= end && 2 * d > end && 2 * end <= WORD && d <= cap && start + cap < end
    ensures LegalRun(Init(start, end, cap), Overrun(start, end, d))
    ensures !SafeRun(Init(start, end, cap), Overrun(start, end, d))
  {
    hide LegalRun, SafeRun, EvictDev, WriteDev, SafeWrite, Chosen, Placed;
    var steps := Overrun(start, end, d);
    var e0, e1, e2, e3 := Entry(0, start, 1), Entry(1, start + 1, 1), Entry(2, start + 2, d - 1),
        Entry(3, start + d + 1, 1);
    var e4 := Entry(4, start, end - start - d);
    var s0 := Init(start, end, cap);
    var s1 := State(Dev(start, end, start, true, []), d, true);
    var s2 := State(Dev(start, end, start + 2, true, [e0, e1]), d, false);
    var s4 := State(Dev(start, end, start, false, [e0, e1, e2, e3]), d, false);
    var s5 := State(Dev(start, end, start, false, [e3]), d, true);
    var s6 := State(Dev(start, end, start, false, [e3, e4]), d, false);
    OverrunWrites(start, end, d, e0, e1, e3);
    OverrunEvicts(start, end, d);
    OverrunUnsafe(start, end, d, e3);
    FirstEvict(s0, d);
    FirstEvict(s2, d);
    assert steps[1..][1..] == steps[2..] && steps[2..][1..] == steps[3..] && steps[3..][1..] == steps[4..];
    assert steps[4..][1..] == steps[5..] && steps[5..][1..] == steps[6..] && steps[6..][1..] == steps[7..];
    assert steps[7..][1..] == [];
    assert Do(s0, steps[0]) == s1 && Do(s1, steps[1]) == s2 && Do(s2, steps[2]) == s2.(ready := true);
    assert Do(s2.(ready := true), steps[3]) == s4 && Do(s4, steps[4]) == s5;
    assert Do(s5, steps[5]) == s6 && Do(s6, steps[6]) == s6.(ready := true);
    RunCons(s0, steps);
    RunCons(s1, steps[1..]);
    RunCons(s2, steps[2..]);
    RunCons(s2.(ready := true), steps[3..]);
    RunCons(s4, steps[4..]);
    RunCons(s5, steps[5..]);
    RunCons(s6, steps[6..]);
    RunCons(s6.(ready := true), steps[7..]);
    RunEnd(Do(s6.(ready := true), steps[7]));
  }

  lemma FirstEvict(s: State, d: nat)
    requires Fits(s) && Enabled(s, Evict(d)) && s.dev.first
    ensures Do(s, Evict(d)) == State(s.dev, d, true)
  {
  }

  lemma RunEnd(s: State)
    ensures LegalRun(s, [])
  {
  }

  /** Every run is safe exactly when the device is big enough for the write size. */
  lemma DeviceSafety(start: nat, end: nat, cap: nat)
    requires 0 < cap && start + cap < end && 2 * end <= WORD
    ensures AllRunsSafe(start, end, cap) <==> BigEnough(start, end, cap)
  {
    var s := Init(start, end, cap);
    if BigEnough(start, end, cap) {
      forall steps | LegalRun(s, steps) ensures SafeRun(s, steps) {
        RunSafe(s, steps, [], []);
      }
    } else {
      OverrunFails(start, end, cap, end / 2 + 1);
    }
  }
}
