/** The tests arc_read makes before it reads from the second-level device: without a lock, of the L2 header first, then
    of the flags. What they miss, on whatever device. */
module L2Tests {
  import opened L2Device
  import opened L2Reads

  /** Whether b_l2hdr is set. */
  predicate Has(c: Cache, h: nat) {
    h in Hdrs(c.dv.dev.bufs) || h in CandHdrs(c.unplaced)
  }

  /** A step of the reader of `h`. */
  predicate Own(act: Action, h: nat) {
    match act
    case Begin(g, _) => g == h
    case Test(g, _) => g == h
    case Clear(g) => g == h
    case Fetch(g, _) => g == h
    case Sample(g, _) => g == h
    case Done(g) => g == h
    case Fail(g) => g == h
    case MainDone(g) => g == h
    case _ => false
  }

  predicate Others(acts: seq<Action>, h: nat) {
    forall i :: 0 <= i < |acts| ==> !Own(acts[i], h)
  }

  /** Its reader does nothing in the meantime but get sectors. */
  predicate Patient(acts: seq<Action>, h: nat) {
    forall i :: 0 <= i < |acts| && Own(acts[i], h) ==> acts[i].Sample?
  }

  /** A failed write, or else an eviction, takes the L2 header of `h` away. */
  predicate Takes(c: Cache, act: Action, h: nat, write: bool)
    requires Fits(c.dv) && Can(c, act)
  {
    (if write then act.WriteDone? && !act.ok else act.EvictAhead?) && Has(c, h) && !Has(Act(c, act), h)
  }

  /** One of the actions does. */
  ghost predicate Taken(c: Cache, acts: seq<Action>, h: nat, write: bool)
    requires Run(c, acts)
    decreases |acts|
  {
    acts != [] && (Takes(c, acts[0], h, write) || Taken(Act(c, acts[0]), acts[1..], h, write))
  }

  // ----- what the flag for writing covers -----

  ghost predicate Flagged(c: Cache) {
    && CandHdrs(c.unplaced) <= c.writing && c.batch <= c.writing && (!c.busy ==> c.batch == {})
    && (c.busy ==> c.unplaced == []) && (c.unplaced != [] ==> Chosen(c.unplaced, c.dv.cap) == c.unplaced)
  }

  lemma FlaggedStep(c: Cache, act: Action)
    requires Flagged(c) && Fits(c.dv) && Can(c, act)
    ensures Flagged(Act(c, act))
  {
    hide Chosen, Hdrs, EvictDev, WriteDev;
    NoCands();
  }

  lemma {:induction false} FlaggedRun(c: Cache, acts: seq<Action>, c': Cache)
    requires Flagged(c) && Reaches(c, acts, c')
    ensures Flagged(c')
    decreases |acts|
  {
    if acts != [] {
      hide Flagged, Can, Act;
      FlaggedStep(c, acts[0]);
      FlaggedRun(Act(c, acts[0]), acts[1..], c');
    }
  }

  // ----- a step beside a reader -----

  /** What a step of somebody else may do to the reader of `h`: mark its read by taking the L2 header in an eviction,
      take it by a failed write while the header is marked as being written, or nothing. */
  ghost predicate Beside(c: Cache, act: Action, h: nat)
    requires Fits(c.dv) && Can(c, act)
  {
    var c' := Act(c, act);
    && h in c.ops && h in c'.ops
    && c'.ops[h] == c.ops[h].(evicted := c.ops[h].evicted || Takes(c, act, h, false))
    && (Has(c', h) <==> Has(c, h) && !Takes(c, act, h, false) && !Takes(c, act, h, true))
    && (h in c'.writing ==> h in c.writing) && (Takes(c, act, h, true) ==> h in c.writing)
  }

  lemma StepBeside(c: Cache, act: Action, h: nat)
    requires Flagged(c) && Fits(c.dv) && Can(c, act) && h in c.ops && !Own(act, h)
    ensures Beside(c, act, h)
  {
    hide Flagged, Beside, Act, Can;
    match act {
      case EvictAhead(d) => EvictBeside(c, d, h);
      case SelectFor(cs) => SelectBeside(c, cs, h);
      case Place => PlaceBeside(c, h);
      case WriteDone(ok, missed) => WriteBeside(c, ok, missed, h);
      case Release(k) => ReleaseBeside(c, k, h);
      case _ => QuietBeside(c, act, h);
    }
  }

  /** Steps that leave the list and the flags alone. */
  lemma QuietBeside(c: Cache, act: Action, h: nat)
    requires Fits(c.dv) && Can(c, act) && h in c.ops && !Own(act, h)
    requires !act.EvictAhead? && !act.SelectFor? && !act.Place? && !act.WriteDone? && !act.Release?
    ensures Beside(c, act, h)
  {
    hide Hdrs, CandHdrs, ContentAt;
  }

  lemma SelectBeside(c: Cache, cs: seq<Cand>, h: nat)
    requires Fits(c.dv) && Can(c, SelectFor(cs)) && h in c.ops
    ensures Beside(c, SelectFor(cs), h)
  {
    hide Hdrs, Chosen, ValidCands;
    NoCands();
  }

  lemma EvictBeside(c: Cache, d: nat, h: nat)
    requires Fits(c.dv) && Can(c, EvictAhead(d)) && h in c.ops
    ensures Beside(c, EvictAhead(d), h)
  {
    hide EvictDev, Hdrs, CandHdrs;
    var bufs, bufs' := c.dv.dev.bufs, Do(c.dv, Evict(d)).dev.bufs;
    EvictDevSuffix(c.dv.dev, d);
    SuffixHdrs(bufs, bufs', h);
    NoCands();
  }

  lemma PlaceBeside(c: Cache, h: nat)
    requires Flagged(c) && Fits(c.dv) && Can(c, Place) && h in c.ops
    ensures Beside(c, Place, h)
  {
    var bufs, es := c.dv.dev.bufs, Placed(c.unplaced, c.dv.dev.hand);
    PlacedHdrs(c.unplaced, c.dv.dev.hand);
    var bufs' := Act(c, Place).dv.dev.bufs;
    assert bufs' == bufs + es;
    hide Placed, Chosen, WriteDev, Flagged, Sectors;
    NoCands();
    assert forall i :: 0 <= i < |es| ==> bufs'[|bufs| + i] == es[i];
    assert forall i :: 0 <= i < |bufs| ==> bufs'[i] == bufs[i];
    assert forall i :: |bufs| <= i < |bufs'| ==> bufs'[i].hdr == c.unplaced[i - |bufs|].hdr;
  }

  lemma WriteBeside(c: Cache, ok: bool, missed: set<nat>, h: nat)
    requires Flagged(c) && Fits(c.dv) && Can(c, WriteDone(ok, missed)) && h in c.ops
    ensures Beside(c, WriteDone(ok, missed), h)
  {
    var bufs, gone := c.dv.dev.bufs, c.batch - missed;
    KeepAll(bufs, gone);
    hide Keep, Chosen;
    var bufs' := Act(c, WriteDone(ok, missed)).dv.dev.bufs;
    if !ok {
      assert h in Hdrs(bufs') ==> h in Hdrs(bufs) && h !in gone;
      assert h in Hdrs(bufs) && h !in gone ==> h in Hdrs(bufs');
    }
  }

  lemma ReleaseBeside(c: Cache, k: nat, h: nat)
    requires Fits(c.dv) && Can(c, Release(k)) && h in c.ops
    ensures Beside(c, Release(k), h)
  {
    hide Hdrs, CandHdrs;
    OneGone(c.dv.dev.bufs, k, h);
  }

  lemma SuffixHdrs(bufs: seq<Entry>, bufs': seq<Entry>, h: nat)
    requires |bufs'| <= |bufs| && bufs' == bufs[|bufs| - |bufs'|..]
    ensures h in Hdrs(bufs') ==> h in Hdrs(bufs)
  {
    assert forall i :: 0 <= i < |bufs'| ==> bufs'[i] == bufs[|bufs| - |bufs'| + i];
  }

  lemma OneGone(bufs: seq<Entry>, k: nat, h: nat)
    requires k < |bufs| && bufs[k].hdr != h
    ensures h in Hdrs(bufs[..k] + bufs[k + 1..]) <==> h in Hdrs(bufs)
  {
    var bufs' := bufs[..k] + bufs[k + 1..];
    Split(bufs[..k], bufs[k + 1..], h);
    Split(bufs[..k], bufs[k..], h);
    Split([bufs[k]], bufs[k + 1..], h);
    assert bufs == bufs[..k] + bufs[k..] && bufs[k..] == [bufs[k]] + bufs[k + 1..];
    assert h !in Hdrs([bufs[k]]);
    hide Hdrs;
  }

  lemma Split(a: seq<Entry>, b: seq<Entry>, h: nat)
    ensures h in Hdrs(a + b) <==> h in Hdrs(a) || h in Hdrs(b)
  {
    var s := a + b;
    assert forall i :: 0 <= i < |a| ==> s[i] == a[i];
    assert forall i :: 0 <= i < |b| ==> s[|a| + i] == b[i];
  }

  lemma NoCands()
    ensures CandHdrs([]) == {}
  {
  }

  /** So may a sector that its reader gets, which it does not forget. */
  lemma SampleBeside(c: Cache, h: nat, k: nat)
    requires Flagged(c) && Fits(c.dv) && Can(c, Sample(h, k))
    ensures var c' := Act(c, Sample(h, k));
            && Flagged(c') && h in c.ops && h in c'.ops
            && c'.ops[h] == c.ops[h].(seen := c'.ops[h].seen) && (Has(c', h) <==> Has(c, h)) && c'.writing == c.writing
            && !Takes(c, Sample(h, k), h, false) && !Takes(c, Sample(h, k), h, true)
  {
    hide Hdrs, CandHdrs, ContentAt;
  }

  lemma StepPatient(c: Cache, act: Action, h: nat)
    requires Flagged(c) && Fits(c.dv) && Can(c, act) && h in c.ops && (Own(act, h) ==> act.Sample?)
    ensures var c' := Act(c, act);
            && Flagged(c') && h in c'.ops
            && c'.ops[h] == c.ops[h].(evicted := c.ops[h].evicted || Takes(c, act, h, false), seen := c'.ops[h].seen)
            && (!Own(act, h) ==> c'.ops[h].seen == c.ops[h].seen)
            && (Has(c', h) <==> Has(c, h) && !Takes(c, act, h, false) && !Takes(c, act, h, true))
            && (h in c'.writing ==> h in c.writing) && (Takes(c, act, h, true) ==> h in c.writing)
  {
    hide Flagged, Can, Act, Takes, Has;
    if Own(act, h) {
      SampleBeside(c, h, act.k);
    } else {
      FlaggedStep(c, act);
      StepBeside(c, act, h);
    }
  }

  /** Along a run of steps of others, and of the reader while it gets its sectors. */
  lemma {:induction false} RunBeside(c: Cache, acts: seq<Action>, c': Cache, h: nat)
    requires Flagged(c) && Reaches(c, acts, c') && h in c.ops && Patient(acts, h)
    ensures Flagged(c') && h in c'.ops
    ensures c'.ops[h] == c.ops[h].(evicted := c.ops[h].evicted || Taken(c, acts, h, false), seen := c'.ops[h].seen)
    ensures Others(acts, h) ==> c'.ops[h].seen == c.ops[h].seen
    ensures Has(c', h) <==> Has(c, h) && !Taken(c, acts, h, false) && !Taken(c, acts, h, true)
    ensures (h in c'.writing ==> h in c.writing) && (Taken(c, acts, h, true) ==> h in c.writing)
    decreases |acts|
  {
    if acts != [] {
      hide Flagged, Can, Act, Takes, Has;
      StepPatient(c, acts[0], h);
      assert Patient(acts[1..], h) && (Others(acts, h) ==> Others(acts[1..], h));
      var c1 := Act(c, acts[0]);
      RunBeside(c1, acts[1..], c', h);
      assert Takes(c, acts[0], h, false) || Takes(c, acts[0], h, true) ==> !Has(c1, h);
    }
  }

  // ----- when there is no L2 header to read -----

  /** In every run on every device: between the test of the L2 header and that of the flags there are the steps `mid` of
      others, and then `late` until the L2 header is used. It is missing exactly when a write that failed has taken it
      in `mid`, or an eviction in `late`. */
  lemma NullRead(start: nat, end: nat, cap: nat, pre: seq<Action>, c0: Cache, h: nat, i: int,
                 mid: seq<Action>, c1: Cache, late: seq<Action>, c2: Cache, j: int)
    requires Reaches(Start(start, end, cap), pre, c0) && Fits(c0.dv) && Can(c0, Test(h, i))
    requires Reaches(Act(c0, Test(h, i)), mid, c1) && Others(mid, h) && Fits(c1.dv) && Can(c1, Clear(h))
    requires Reaches(Act(c1, Clear(h)), late, c2) && Others(late, h) && Fits(c2.dv) && Can(c2, Fetch(h, j))
    ensures Act(c2, Fetch(h, j)).ops[h].phase.Null? <==>
            Taken(Act(c0, Test(h, i)), mid, h, true) || Taken(Act(c1, Clear(h)), late, h, false)
  {
    hide Flagged, Start, Reaches, Taken, Others, Patient, Has, Act, Can, Fits;
    StartFlagged(start, end, cap);
    FlaggedRun(Start(start, end, cap), pre, c0);
    FlaggedStep(c0, Test(h, i));
    AfterTest(c0, h, i);
    AllOthers(mid, h);
    AllOthers(late, h);
    RunBeside(Act(c0, Test(h, i)), mid, c1, h);
    FlaggedStep(c1, Clear(h));
    AfterClear(c1, h);
    RunBeside(Act(c1, Clear(h)), late, c2, h);
    AtFetch(c2, h, j);
  }

  // ----- the way of a read through the tests -----

  /** In every run on every device, with the steps `mid` of others between the noting of the address and the test of the
      L2 header: the test is passed exactly when nothing has taken the L2 header away. */
  lemma TestPassed(start: nat, end: nat, cap: nat, pre: seq<Action>, c0: Cache, h: nat, i: int,
                   mid: seq<Action>, c1: Cache, j: int)
    requires Reaches(Start(start, end, cap), pre, c0) && Fits(c0.dv) && Can(c0, Begin(h, i))
    requires Reaches(Act(c0, Begin(h, i)), mid, c1) && Others(mid, h) && Fits(c1.dv) && Can(c1, Test(h, j))
    ensures var b, t := Act(c0, Begin(h, i)), Act(c1, Test(h, j));
            && Has(c0, h) && h in t.ops && (t.ops[h].phase.Tested? || t.ops[h].phase.Main?)
            && (t.ops[h].phase.Tested? <==> !Taken(b, mid, h, false) && !Taken(b, mid, h, true))
  {
    hide Flagged, Start, Reaches, Taken, Others, Patient, Has, Act, Can, Fits;
    StartFlagged(start, end, cap);
    FlaggedRun(Start(start, end, cap), pre, c0);
    FlaggedStep(c0, Begin(h, i));
    AfterBegin(c0, h, i);
    AllOthers(mid, h);
    RunBeside(Act(c0, Begin(h, i)), mid, c1, h);
    AtTest(c1, h, j);
  }

  /** Likewise between that test and the one of the flags: it is passed exactly when the header is not being written and
      no eviction has taken the L2 header away; otherwise the block is read from the main pool. */
  lemma FlagsPassed(start: nat, end: nat, cap: nat, pre: seq<Action>, c0: Cache, h: nat, i: int,
                    mid: seq<Action>, c1: Cache)
    requires Reaches(Start(start, end, cap), pre, c0) && Fits(c0.dv) && Can(c0, Test(h, i)) && !c0.ops[h].evicted
    requires Reaches(Act(c0, Test(h, i)), mid, c1) && Others(mid, h) && Fits(c1.dv) && Can(c1, Clear(h))
    ensures var f := Act(c1, Clear(h));
            && h in f.ops && (f.ops[h].phase.Cleared? || f.ops[h].phase.Main?)
            && (f.ops[h].phase.Cleared? <==> h !in c1.writing && !Taken(Act(c0, Test(h, i)), mid, h, false))
  {
    hide Flagged, Start, Reaches, Taken, Others, Patient, Has, Act, Can, Fits;
    StartFlagged(start, end, cap);
    FlaggedRun(Start(start, end, cap), pre, c0);
    FlaggedStep(c0, Test(h, i));
    AfterTest(c0, h, i);
    AllOthers(mid, h);
    RunBeside(Act(c0, Test(h, i)), mid, c1, h);
    AfterClear(c1, h);
  }

  /** And while the sectors are read: at the end the caller gets them exactly when no eviction has taken the L2 header
      away since the read was issued; otherwise the block is read again, from the main pool. */
  lemma ReadPassed(start: nat, end: nat, cap: nat, pre: seq<Action>, c0: Cache, h: nat, i: int,
                   mid: seq<Action>, c1: Cache)
    requires Reaches(Start(start, end, cap), pre, c0) && Fits(c0.dv) && Can(c0, Fetch(h, i)) && !c0.ops[h].evicted
    requires Reaches(Act(c0, Fetch(h, i)), mid, c1) && Patient(mid, h) && Fits(c1.dv) && Can(c1, Done(h))
    ensures Delivers(c1, Done(h), h) <==> !Taken(Act(c0, Fetch(h, i)), mid, h, false)
    ensures !Delivers(c1, Done(h), h) ==>
              h in Act(c1, Done(h)).ops && Act(c1, Done(h)).ops[h].phase.Main?
  {
    hide Flagged, Start, Reaches, Taken, Others, Patient, Has, Act, Can, Fits;
    StartFlagged(start, end, cap);
    FlaggedRun(Start(start, end, cap), pre, c0);
    FlaggedStep(c0, Fetch(h, i));
    AtFetch(c0, h, i);
    RunBeside(Act(c0, Fetch(h, i)), mid, c1, h);
    AtDone(c1, h);
  }

  lemma AllOthers(acts: seq<Action>, h: nat)
    requires Others(acts, h)
    ensures Patient(acts, h)
  {
  }

  lemma AfterBegin(c: Cache, h: nat, i: int)
    requires Fits(c.dv) && Can(c, Begin(h, i))
    ensures var b := Act(c, Begin(h, i));
            && h in b.ops && !b.ops[h].evicted && (Has(b, h) <==> Has(c, h))
            && (b.ops[h].phase.Captured? || b.ops[h].phase.Main?) && (b.ops[h].phase.Captured? <==> Has(c, h))
  {
  }

  lemma AtTest(c: Cache, h: nat, i: int)
    requires Fits(c.dv) && Can(c, Test(h, i))
    ensures var t := Act(c, Test(h, i));
            && h in c.ops && c.ops[h].phase.Captured? && h in t.ops
            && (t.ops[h].phase.Tested? || t.ops[h].phase.Main?) && (t.ops[h].phase.Tested? <==> Has(c, h))
  {
  }

  lemma AtDone(c: Cache, h: nat)
    requires Fits(c.dv) && Can(c, Done(h))
    ensures h in c.ops && (Delivers(c, Done(h), h) <==> !c.ops[h].evicted)
    ensures !Delivers(c, Done(h), h) ==> h in Act(c, Done(h)).ops && Act(c, Done(h)).ops[h].phase.Main?
  {
  }

  // ----- what the flag for writing says -----

  /** Where no lock is missed at the end of a write. */
  predicate NoneMissed(acts: seq<Action>) {
    forall i :: 0 <= i < |acts| && acts[i].WriteDone? ==> acts[i].missed == {}
  }

  /** A header with an L2 header, of which it has one only, is flagged exactly while it is selected for a write, or
      being written. */
  ghost predicate Told(c: Cache) {
    && Single(c.dv.dev.bufs, c.unplaced)
    && (forall h :: h in CandHdrs(c.unplaced) ==> h in c.writing)
    && (forall h :: h in Hdrs(c.dv.dev.bufs) ==> (h in c.writing <==> h in c.batch))
  }

  ghost predicate Single(bufs: seq<Entry>, cs: seq<Cand>) {
    && DistinctHdrs(bufs) && (forall i, j :: 0 <= i < j < |cs| ==> cs[i].hdr != cs[j].hdr)
    && (forall i, j :: 0 <= i < |bufs| && 0 <= j < |cs| ==> bufs[i].hdr != cs[j].hdr)
  }

  lemma ToldStep(c: Cache, act: Action)
    requires Told(c) && Flagged(c) && Fits(c.dv) && Can(c, act) && (act.WriteDone? ==> act.missed == {})
    ensures Told(Act(c, act))
  {
    hide Flagged, Told, Act, Can;
    match act {
      case EvictAhead(d) => ToldEvict(c, d);
      case SelectFor(cs) => ToldSelect(c, cs);
      case Place => ToldPlace(c);
      case WriteDone(ok, missed) => ToldDone(c, ok);
      case Release(k) => ToldRelease(c, k);
      case _ => ToldQuiet(c, act);
    }
  }

  lemma ToldQuiet(c: Cache, act: Action)
    requires Told(c) && Fits(c.dv) && Can(c, act)
    requires !act.EvictAhead? && !act.SelectFor? && !act.Place? && !act.WriteDone? && !act.Release?
    ensures Told(Act(c, act))
  {
    hide Hdrs, CandHdrs, ContentAt;
  }

  lemma ToldEvict(c: Cache, d: nat)
    requires Told(c) && Fits(c.dv) && Can(c, EvictAhead(d))
    ensures Told(Act(c, EvictAhead(d)))
  {
    hide EvictDev, Hdrs, CandHdrs;
    var bufs, bufs' := c.dv.dev.bufs, Do(c.dv, Evict(d)).dev.bufs;
    EvictDevSuffix(c.dv.dev, d);
    assert forall i :: 0 <= i < |bufs'| ==> bufs'[i] == bufs[|bufs| - |bufs'| + i];
    forall h | h in Hdrs(bufs') ensures h in Hdrs(bufs) {
      SuffixHdrs(bufs, bufs', h);
    }
    NoCands();
  }

  lemma ToldSelect(c: Cache, cs: seq<Cand>)
    requires Told(c) && Fits(c.dv) && Can(c, SelectFor(cs))
    ensures Told(Act(c, SelectFor(cs)))
  {
    var bufs := c.dv.dev.bufs;
    assert forall i :: 0 <= i < |bufs| ==> bufs[i].hdr in Hdrs(bufs);
    assert forall i :: 0 <= i < |cs| ==> cs[i].hdr in CandHdrs(cs);
    hide Chosen, ValidCands, Hdrs, CandHdrs;
  }

  lemma ToldPlace(c: Cache)
    requires Told(c) && Flagged(c) && Fits(c.dv) && Can(c, Place)
    ensures Told(Act(c, Place))
  {
    var bufs, es := c.dv.dev.bufs, Placed(c.unplaced, c.dv.dev.hand);
    PlacedHdrs(c.unplaced, c.dv.dev.hand);
    var bufs' := Act(c, Place).dv.dev.bufs;
    assert bufs' == bufs + es;
    hide Placed, Chosen, WriteDev, Flagged, Sectors;
    assert forall i :: 0 <= i < |bufs| ==> bufs'[i] == bufs[i];
    assert forall i :: |bufs| <= i < |bufs'| ==> bufs'[i].hdr == c.unplaced[i - |bufs|].hdr;
  }

  lemma ToldDone(c: Cache, ok: bool)
    requires Told(c) && Flagged(c) && Fits(c.dv) && Can(c, WriteDone(ok, {}))
    ensures Told(Act(c, WriteDone(ok, {})))
  {
    KeepAll(c.dv.dev.bufs, c.batch);
    assert c.batch - {} == c.batch;
    hide Keep, Chosen;
    NoCands();
  }

  lemma ToldRelease(c: Cache, k: nat)
    requires Told(c) && Fits(c.dv) && Can(c, Release(k))
    ensures Told(Act(c, Release(k)))
  {
    var bufs := c.dv.dev.bufs;
    var bufs' := Act(c, Release(k)).dv.dev.bufs;
    assert forall i :: 0 <= i < |bufs'| ==> bufs'[i] == bufs[if i < k then i else i + 1];
    NoCands();
  }

  lemma {:induction false} ToldRun(c: Cache, acts: seq<Action>, c': Cache)
    requires Told(c) && Flagged(c) && Reaches(c, acts, c') && NoneMissed(acts)
    ensures Told(c')
    decreases |acts|
  {
    if acts != [] {
      hide Flagged, Told, Can, Act;
      FlaggedStep(c, acts[0]);
      ToldStep(c, acts[0]);
      assert NoneMissed(acts[1..]);
      ToldRun(Act(c, acts[0]), acts[1..], c');
    }
  }

  /** In every run in which no lock is missed, on every device, the flag of a header with an L2 header says whether
      it is about to be written, or being written. */
  lemma FlagTells(start: nat, end: nat, cap: nat, acts: seq<Action>, c: Cache, h: nat)
    requires Reaches(Start(start, end, cap), acts, c) && NoneMissed(acts) && Has(c, h)
    ensures h in c.writing <==> h in CandHdrs(c.unplaced) || h in c.batch
  {
    assert Told(Start(start, end, cap));
    StartFlagged(start, end, cap);
    FlaggedRun(Start(start, end, cap), acts, c);
    ToldRun(Start(start, end, cap), acts, c);
    hide Reaches, Start;
  }

  /** Where one has been missed, the flag goes with the L2 header at the latest. */
  lemma EvictTidies(c: Cache, d: nat, h: nat)
    requires Fits(c.dv) && Can(c, EvictAhead(d)) && Has(c, h) && !Has(Act(c, EvictAhead(d)), h)
    ensures h !in Act(c, EvictAhead(d)).writing
  {
    hide EvictDev, Hdrs, CandHdrs;
    NoCands();
  }

  /** What is known when each of the tests is passed, and when the L2 header is used. */
  lemma AfterTest(c: Cache, h: nat, i: int)
    requires Fits(c.dv) && Can(c, Test(h, i))
    ensures var t := Act(c, Test(h, i));
            h in c.ops && h in t.ops && t.ops[h].evicted == c.ops[h].evicted && (t.ops[h].phase.Tested? ==> Has(t, h))
  {
  }

  lemma AfterClear(c: Cache, h: nat)
    requires Fits(c.dv) && Can(c, Clear(h))
    ensures var f := Act(c, Clear(h));
            && h in f.ops && c.ops[h].phase.Tested? && (Has(f, h) <==> Has(c, h)) && f.writing == c.writing
            && f.ops[h].evicted == c.ops[h].evicted
            && (f.ops[h].phase.Cleared? || f.ops[h].phase.Main?)
            && (f.ops[h].phase.Cleared? <==> h !in c.writing && !c.ops[h].evicted)
  {
  }

  lemma AtFetch(c: Cache, h: nat, j: int)
    requires Flagged(c) && Fits(c.dv) && Can(c, Fetch(h, j))
    ensures h in c.ops && c.ops[h].phase.Cleared? && h in Act(c, Fetch(h, j)).ops
    ensures Act(c, Fetch(h, j)).ops[h].evicted == c.ops[h].evicted
    ensures h !in c.writing ==> (Act(c, Fetch(h, j)).ops[h].phase.Null? <==> !Has(c, h))
  {
  }

  lemma StartFlagged(start: nat, end: nat, cap: nat)
    ensures Flagged(Start(start, end, cap))
  {
  }

  // ----- both happen -----

  /** On every device a failed write can take away an L2 header between the tests. */
  lemma FailedWriteNull(start: nat, end: nat, cap: nat) returns (acts: seq<Action>, c: Cache)
    requires 0 < start && 0 < cap && start + cap < end && 2 * end <= WORD
    ensures Reaches(Start(start, end, cap), acts, c) && 0 in c.ops && c.ops[0].phase.Null?
  {
    var dv;
    acts, dv := EarlyNote(start, end, cap);
    hide Reaches;
    var c0, c4 := Start(start, end, cap), Noted(dv, start);
    var c5 := Act(c4, Test(0, 0));
    var c6 := Act(c5, WriteDone(false, {}));
    assert c5.batch - {} == {0};
    KeepOne(Entry(0, start, 1), {0});
    assert c6.dv.dev.bufs == [] && c6.ops[0].phase == Tested;
    var c7 := Act(c6, Clear(0));
    c := Act(c7, Fetch(0, -1));
    Onward(c0, acts, c4, Test(0, 0));
    Onward(c0, acts + [Test(0, 0)], c5, WriteDone(false, {}));
    acts := acts + [Test(0, 0)] + [WriteDone(false, {})];
    Onward(c0, acts, c6, Clear(0));
    Onward(c0, acts + [Clear(0)], c7, Fetch(0, -1));
    acts := acts + [Clear(0)] + [Fetch(0, -1)];
  }

  /** The device on its first sweep: the oldest buffer is that of header 0, at its start, which may be read. */
  ghost predicate Sweeping(c: Cache, start: nat, end: nat, cap: nat) {
    && Resting(c, c.dv) && c.ops == map[] && 0 !in c.writing && c.dv.cap == cap && c.dv.dev.start == start
    && c.dv.dev.end == end
    && Oldest(c.dv.dev.bufs, start) && (if c.dv.dev.first then c.dv.dev.hand + cap < end else c.dv.dev.hand == start)
  }

  ghost predicate Oldest(bufs: seq<Entry>, start: nat) {
    bufs != [] && bufs[0] == Entry(0, start, 1) && forall i :: 0 <= i < |bufs| ==> bufs[i].hdr == i
  }

  lemma FirstSweep(start: nat, end: nat, cap: nat) returns (acts: seq<Action>, c: Cache)
    requires 0 < cap && start + cap < end && 2 * end <= WORD
    ensures Reaches(Start(start, end, cap), acts, c) && Sweeping(c, start, end, cap)
  {
    hide Reaches, Chosen, Placed, Sectors, Do;
    var dv := OneBuffer(start, end, cap);
    var c0, dv1 := Start(start, end, cap), State(Dev(start, end, start, true, []), cap, true);
    FirstEvict(c0.dv, cap);
    Outset(c0);
    assert CandHdrs(TINY) == {0} by { assert TINY[0].hdr == 0; }
    var c1, c2;
    acts, c1 := FeedTo(c0, [], c0, cap, TINY, dv1, dv);
    acts, c2 := FlushAll(c0, acts, c1);
    c := Act(c2, WriteDone(true, {}));
    Onward(c0, acts, c2, WriteDone(true, {}));
    acts := acts + [WriteDone(true, {})];
    WriteMoves(dv1, TINY, dv);
  }

  /** What a write in the first sweep does to the hand. */
  lemma WriteMoves(s: State, cs: seq<Cand>, s': State)
    requires Fits(s) && Enabled(s, Write(cs)) && Chosen(cs, s.cap) == cs && cs != [] && s' == Do(s, Write(cs))
    requires s.cap <= s.dev.end
    ensures s'.cap == s.cap && !s'.ready && Fits(s') && s'.dev.start == s.dev.start && s'.dev.end == s.dev.end
    ensures s'.dev.bufs == s.dev.bufs + Placed(cs, s.dev.hand)
    ensures if s.dev.hand + Advance(cs) + s.cap >= s.dev.end then s'.dev.hand == s.dev.start && !s'.dev.first
            else s'.dev.hand == s.dev.hand + Advance(cs) && s'.dev.first == s.dev.first
  {
    hide Chosen, Placed, Advance;
  }

  /** One more feed, of a buffer as large as can be. */
  lemma SweepFeed(c0: Cache, acts0: seq<Action>, c: Cache, start: nat, end: nat, cap: nat)
    returns (acts: seq<Action>, c': Cache)
    requires Reaches(c0, acts0, c) && Sweeping(c, start, end, cap) && c.dv.dev.first && 0 < cap && start + cap < end
    requires 2 * end <= WORD
    ensures Reaches(c0, acts, c') && Sweeping(c', start, end, cap)
    ensures (c'.dv.dev.first ==> c'.dv.dev.hand > c.dv.dev.hand)
  {
    hide Reaches, Chosen, Placed, Do, Hdrs;
    var n := |c.dv.dev.bufs|;
    var cs, dv1 := [Cand(n, cap, cap)], c.dv.(ready := true);
    FirstEvict(c.dv, cap);
    OneCand(cs[0], cap, c.dv.dev.hand);
    assert CandHdrs(cs) == {n} by { assert cs[0].hdr == n; }
    NewHdr(c.dv.dev.bufs);
    var dv2 := Do(dv1, Write(cs));
    WriteMoves(dv1, cs, dv2);
    acts, c' := Feed(c0, acts0, c, cap, cs, dv1, dv2);
  }

  lemma NewHdr(bufs: seq<Entry>)
    requires forall i :: 0 <= i < |bufs| ==> bufs[i].hdr == i
    ensures |bufs| !in Hdrs(bufs)
  {
  }

  /** Feeds until the sweep is over. */
  lemma {:induction false} SweepOn(c0: Cache, acts0: seq<Action>, c: Cache, start: nat, end: nat, cap: nat)
    returns (acts: seq<Action>, c': Cache)
    requires Reaches(c0, acts0, c) && Sweeping(c, start, end, cap) && 0 < cap && start + cap < end && 2 * end <= WORD
    ensures Reaches(c0, acts, c') && Sweeping(c', start, end, cap) && !c'.dv.dev.first
    decreases if c.dv.dev.first then end - c.dv.dev.hand else 0
  {
    hide Reaches;
    if !c.dv.dev.first {
      acts, c' := acts0, c;
    } else {
      var c1;
      acts, c1 := SweepFeed(c0, acts0, c, start, end, cap);
      acts, c' := SweepOn(c0, acts, c1, start, end, cap);
    }
  }

  /** On every device an eviction can take away an L2 header after both tests. */
  lemma EvictionNull(start: nat, end: nat, cap: nat) returns (acts: seq<Action>, c: Cache)
    requires 0 < cap && start + cap < end && 2 * end <= WORD
    ensures Reaches(Start(start, end, cap), acts, c) && 0 in c.ops && c.ops[0].phase.Null?
  {
    hide Reaches;
    var c0, c1 := Start(start, end, cap), Start(start, end, cap);
    acts, c1 := FirstSweep(start, end, cap);
    acts, c1 := SweepOn(c0, acts, c1, start, end, cap);
    acts, c := EvictedAfterTests(c0, acts, c1, start, end, cap);
  }

  lemma EvictedAfterTests(c0: Cache, acts0: seq<Action>, c: Cache, start: nat, end: nat, cap: nat)
    returns (acts: seq<Action>, c': Cache)
    requires Reaches(c0, acts0, c) && Sweeping(c, start, end, cap) && !c.dv.dev.first && 0 < cap && start + cap < end
    requires 2 * end <= WORD
    ensures Reaches(c0, acts, c') && 0 in c'.ops && c'.ops[0].phase.Null?
  {
    hide Reaches, EvictDev, Hdrs;
    var c1 := Act(c, Begin(0, 0));
    var c2 := Act(c1, Test(0, 0));
    var c3 := Act(c2, Clear(0));
    OldestGoes(c.dv.dev, cap);
    EvictDevSuffix(c.dv.dev, cap);
    var c4 := Act(c3, EvictAhead(cap));
    c' := Act(c4, Fetch(0, -1));
    Onward(c0, acts0, c, Begin(0, 0));
    Onward(c0, acts0 + [Begin(0, 0)], c1, Test(0, 0));
    acts := acts0 + [Begin(0, 0)] + [Test(0, 0)];
    Onward(c0, acts, c2, Clear(0));
    Onward(c0, acts + [Clear(0)], c3, EvictAhead(cap));
    acts := acts + [Clear(0)] + [EvictAhead(cap)];
    Onward(c0, acts, c4, Fetch(0, -1));
    acts := acts + [Fetch(0, -1)];
  }

  lemma OldestGoes(dev: Dev, d: nat)
    requires dev.end < WORD && 2 * d < WORD && !dev.first && dev.hand == dev.start <= dev.end
    requires Oldest(dev.bufs, dev.start)
    ensures 0 !in Hdrs(EvictDev(dev, d).bufs)
  {
    var bufs, taddr := dev.bufs, Target(dev, d);
    var bufs' := EvictFrom(bufs, dev.hand, taddr);
    assert bufs' == EvictFrom(bufs[1..], dev.hand, taddr);
    EvictSuffix(bufs[1..], dev.hand, taddr);
    hide EvictFrom;
    assert forall i :: 0 <= i < |bufs'| ==> bufs'[i] == bufs[|bufs| - |bufs'| + i];
  }
}
