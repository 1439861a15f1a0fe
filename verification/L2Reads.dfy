/** Reads from the second-level cache of oss/arc/arc.c, under every interleaving with eviction, selection,
    placement, device writes and write completion. Each operation that holds its lock throughout is one
    step. What a reader does outside the hash lock is split into steps of its own: the test of the L2 header, that of
    the flags, the use of the L2 header (up to the last time it is read), every sector, and the completion. */
module L2Reads {
  import opened L2Device

  /** What a sector holds: the header it was written for and the write in which that was. */
  datatype Tag = Tag(hdr: nat, epoch: nat)

  datatype Content = Blank | Written(tag: Tag)

  /** Captured: arc_read has set IO_IN_PROGRESS and noted b_daddr under the hash lock. Tested: it found that the
      header still has an L2 header. Cleared: it found the flags fit for an L2 read. Issued: it has taken the length
      from the L2 header and started the read. Main: the block comes from the main pool. Null: there was no L2 header
      to take the length from. */
  datatype Phase = Captured | Tested | Cleared | Issued | Main | Null

  /** A read in progress. `placed` tells whether the header had its device address when the address was
      noted, `epoch` the write its L2 entry came from; `evicted` is the flag L2_EVICTED. */
  datatype Read = Read(phase: Phase, addr: nat, placed: bool, epoch: nat, len: nat, seen: map<nat, Content>,
      evicted: bool)

  /** Selected headers in `unplaced` are on the list without an address; `writing` is the flag L2_WRITING;
      `batch` are the listed headers of the write in flight, `pending` its sectors not yet on the device. */
  datatype Cache = Cache(
    dv: State, unplaced: seq<Cand>, busy: bool, writing: set<nat>, epochs: map<nat, nat>, epoch: nat, batch: set<nat>,
    ops: map<nat, Read>, disk: map<nat, Tag>, pending: map<nat, Tag>)

  datatype Action =
    | EvictAhead(d: nat)
    | SelectFor(cs: seq<Cand>)
    | Place
    | Flush(a: nat)
    | WriteDone(ok: bool, missed: set<nat>)
    | Skip
    | Release(k: nat)
    | Begin(h: nat, i: int)
    | Test(h: nat, i: int)
    | Clear(h: nat)
    | Fetch(h: nat, i: int)
    | Sample(h: nat, k: nat)
    | Done(h: nat)
    | Fail(h: nat)
    | MainDone(h: nat)

  function Hdrs(es: seq<Entry>): set<nat> {
    set i | 0 <= i < |es| :: es[i].hdr
  }

  function CandHdrs(cs: seq<Cand>): set<nat> {
    set i | 0 <= i < |cs| :: cs[i].hdr
  }

  predicate DistinctHdrs(es: seq<Entry>) {
    forall i, j :: 0 <= i < j < |es| ==> es[i].hdr != es[j].hdr
  }

  predicate InRange(e: Entry, a: nat) {
    e.daddr <= a < e.daddr + e.asize
  }

  function Sectors(es: seq<Entry>, epoch: nat): map<nat, Tag> {
    if es == [] then map[]
    else
      var e := es[0];
      Sectors(es[1..], epoch) + map a | e.daddr <= a < e.daddr + e.asize && InRange(e, a) :: Tag(e.hdr, epoch)
  }

  function ContentAt(disk: map<nat, Tag>, a: nat): Content {
    if a in disk then Written(disk[a]) else Blank
  }

  /** The list without the headers in `gone`. */
  function Keep(es: seq<Entry>, gone: set<nat>): seq<Entry> {
    if es == [] then [] else if es[0].hdr in gone then Keep(es[1..], gone) else [es[0]] + Keep(es[1..], gone)
  }

  predicate Can(c: Cache, act: Action) {
    match act
    case EvictAhead(d) => !c.busy && c.unplaced == [] && Enabled(c.dv, Evict(d))
    case SelectFor(cs) =>
      && !c.busy && c.unplaced == [] && c.dv.ready && cs != [] && ValidCands(cs) && Chosen(cs, c.dv.cap) == cs
      && (forall i, j :: 0 <= i < j < |cs| ==> cs[i].hdr != cs[j].hdr)
      && CandHdrs(cs) !! Hdrs(c.dv.dev.bufs) && CandHdrs(cs) !! c.ops.Keys
    case Place => c.unplaced != [] && Enabled(c.dv, Write(c.unplaced))
    case Skip => !c.busy && c.unplaced == [] && c.dv.ready
    case Flush(a) => a in c.pending
    case WriteDone(ok, missed) => c.busy && (ok ==> c.pending == map[])
    case Release(k) => c.unplaced == [] && k < |c.dv.dev.bufs| && c.dv.dev.bufs[k].hdr !in c.ops
    case Begin(h, i) =>
      h !in c.ops &&
      if i >= 0 then i < |c.dv.dev.bufs| && c.dv.dev.bufs[i].hdr == h else h !in Hdrs(c.dv.dev.bufs)
    case Test(h, i) =>
      h in c.ops && c.ops[h].phase == Captured &&
      if i >= 0 then i < |c.dv.dev.bufs| && c.dv.dev.bufs[i].hdr == h else h !in Hdrs(c.dv.dev.bufs)
    case Clear(h) => h in c.ops && c.ops[h].phase == Tested
    case Fetch(h, i) =>
      h in c.ops && c.ops[h].phase == Cleared &&
      if i >= 0 then i < |c.dv.dev.bufs| && c.dv.dev.bufs[i].hdr == h else h !in Hdrs(c.dv.dev.bufs)
    case Sample(h, k) => h in c.ops && c.ops[h].phase == Issued && k < c.ops[h].len && k !in c.ops[h].seen
    case Done(h) => h in c.ops && c.ops[h].phase == Issued && forall k :: 0 <= k < c.ops[h].len ==> k in c.ops[h].seen
    case Fail(h) => h in c.ops && c.ops[h].phase == Issued
    case MainDone(h) => h in c.ops && c.ops[h].phase == Main
  }

  /** Evicting a header that is being read, or about to be, invalidates the read. */
  function MarkEvicted(ops: map<nat, Read>, gone: set<nat>): map<nat, Read> {
    map h | h in ops :: if h in gone then ops[h].(evicted := true) else ops[h]
  }

  function AfterEvict(c: Cache, dv': State): Cache {
    var gone := Hdrs(c.dv.dev.bufs) - Hdrs(dv'.dev.bufs);
    c.(dv := dv', writing := c.writing - gone, ops := MarkEvicted(c.ops, gone))
  }

  /** The write is over: `settled` are its headers whose lock could be taken. A failed write drops them. */
  function AfterWrite(c: Cache, ok: bool, settled: set<nat>): Cache {
    c.(busy := false, batch := {}, writing := c.writing - settled, pending := map[],
       dv := if ok then c.dv else c.dv.(dev := c.dv.dev.(bufs := Keep(c.dv.dev.bufs, settled))))
  }

  function Act(c: Cache, act: Action): Cache
    requires Fits(c.dv) && Can(c, act)
  {
    match act
    case EvictAhead(d) => AfterEvict(c, Do(c.dv, Evict(d)))
    case SelectFor(cs) =>
      var hs := CandHdrs(cs);
      c.(unplaced := cs, writing := c.writing + hs, epoch := c.epoch + 1,
         epochs := map h | h in c.epochs.Keys + hs :: if h in hs then c.epoch + 1 else c.epochs[h])
    case Place =>
      c.(dv := Do(c.dv, Write(c.unplaced)), unplaced := [], busy := true, batch := CandHdrs(c.unplaced),
         pending := Sectors(Placed(c.unplaced, c.dv.dev.hand), c.epoch))
    case Flush(a) =>
      c.(disk := c.disk[a := c.pending[a]], pending := c.pending - {a})
    case WriteDone(ok, missed) => AfterWrite(c, ok, c.batch - missed)
    case Skip => c.(dv := Do(c.dv, Write([])))
    case Release(k) =>
      var h := c.dv.dev.bufs[k].hdr;
      c.(dv := Do(c.dv, Drop(k)), batch := c.batch - {h})
    case Begin(h, i) =>
      var epoch := if h in c.epochs then c.epochs[h] else 0;
      var r :=
        if i >= 0 then Read(Captured, c.dv.dev.bufs[i].daddr, true, epoch, 0, map[], false)
        else if h in CandHdrs(c.unplaced) then Read(Captured, 0, false, epoch, 0, map[], false)
        else Read(Main, 0, false, epoch, 0, map[], false);
      c.(ops := c.ops[h := r])
    case Test(h, i) =>
      c.(ops := c.ops[h := c.ops[h].(phase := if i >= 0 || h in CandHdrs(c.unplaced) then Tested else Main)])
    case Clear(h) =>
      var r := c.ops[h];
      c.(ops := c.ops[h := r.(phase := if h in c.writing || r.evicted then Main else Cleared)])
    case Fetch(h, i) =>
      var r := c.ops[h];
      c.(ops := c.ops[h := if i >= 0 then r.(phase := Issued, len := c.dv.dev.bufs[i].asize) else r.(phase := Null)])
    case Sample(h, k) =>
      var r := c.ops[h];
      c.(ops := c.ops[h := r.(seen := r.seen[k := ContentAt(c.disk, r.addr + k)])])
    case Done(h) =>
      var r := c.ops[h];
      if r.evicted then c.(ops := c.ops[h := r.(phase := Main)]) else c.(ops := c.ops - {h})
    case Fail(h) => c.(ops := c.ops[h := c.ops[h].(phase := Main)])
    case MainDone(h) => c.(ops := c.ops - {h})
  }

  /** By this action the read of `h` is over, and not because the block has come from the main pool: the caller gets
      what was read from the device. */
  predicate Delivers(c: Cache, act: Action, h: nat) {
    Fits(c.dv) && Can(c, act) && h in c.ops && h !in Act(c, act).ops && act != MainDone(h)
  }

  /** Every sector of the read was returned, and held what its header wrote. */
  predicate SawOwnBytes(h: nat, r: Read) {
    forall k :: 0 <= k < r.len ==> k in r.seen && r.seen[k] == Written(Tag(h, r.epoch))
  }

  function Start(start: nat, end: nat, cap: nat): Cache {
    Cache(Init(start, end, cap), [], false, {}, map[], 0, {}, map[], map[], map[])
  }

  // ----- the invariant -----

  /** Which headers are where. */
  ghost predicate Shape(c: Cache) {
    var bufs := c.dv.dev.bufs;
    && DistinctHdrs(bufs) && CandHdrs(c.unplaced) !! Hdrs(bufs)
    && (forall i, j :: 0 <= i < j < |c.unplaced| ==> c.unplaced[i].hdr != c.unplaced[j].hdr)
    && (c.unplaced != [] ==> !c.busy && Enabled(c.dv, Write(c.unplaced)) && Chosen(c.unplaced, c.dv.cap) == c.unplaced)
    && (forall i :: 0 <= i < |bufs| ==> bufs[i].hdr in c.epochs)
    && (forall i :: 0 <= i < |c.unplaced| ==> var h := c.unplaced[i].hdr;
          h in c.writing && h in c.epochs && c.epochs[h] == c.epoch)
    && (forall h :: h in c.batch ==> h in c.writing && h in c.epochs && c.epochs[h] == c.epoch)
    && (!c.busy ==> c.batch == {} && c.pending == map[])
  }

  function TagOf(c: Cache, e: Entry): Tag
    requires e.hdr in c.epochs
  {
    Tag(e.hdr, c.epochs[e.hdr])
  }

  /** A sector holds the buffer's bytes, or will once the write in flight is through. */
  ghost predicate Holds(c: Cache, e: Entry, a: nat)
    requires e.hdr in c.epochs
  {
    if a in c.pending then e.hdr in c.batch && c.pending[a] == TagOf(c, e)
    else e.hdr in c.batch || e.hdr !in c.writing ==> a in c.disk && c.disk[a] == TagOf(c, e)
  }

  ghost predicate Stored(c: Cache)
    requires Shape(c)
  {
    && (forall i, a :: 0 <= i < |c.dv.dev.bufs| && InRange(c.dv.dev.bufs[i], a) ==> Holds(c, c.dv.dev.bufs[i], a))
    && (forall a :: a in c.pending ==> c.dv.dev.start <= a)
    && (forall a :: a in c.disk ==> c.dv.dev.start <= a)
  }

  /** What a read that has not been invalidated may rely on. */
  ghost predicate Reading(c: Cache, h: nat, r: Read)
    requires Shape(c)
  {
    && (!r.placed ==> r.addr == 0)
    && (r.phase.Captured? || r.phase.Tested? || r.phase.Cleared? ==> r.seen == map[])
    && (r.phase.Cleared? && !r.evicted ==> h !in c.writing)
    && (!r.evicted && !r.phase.Main? && !r.phase.Null? ==>
          && (forall i :: 0 <= i < |c.dv.dev.bufs| && c.dv.dev.bufs[i].hdr == h ==>
                r.epoch == c.epochs[h] && (r.placed ==> r.addr == c.dv.dev.bufs[i].daddr)
                && (r.phase.Issued? ==> r.len == c.dv.dev.bufs[i].asize))
          && (h in CandHdrs(c.unplaced) ==> r.epoch == c.epochs[h] && !r.placed && !r.phase.Issued?)
          && (r.phase.Issued? ==> h in Hdrs(c.dv.dev.bufs) && h !in c.writing && Seen(h, r)))
  }

  ghost predicate Seen(h: nat, r: Read) {
    forall k :: k in r.seen ==> if r.placed then r.seen[k] == Written(Tag(h, r.epoch)) else k == 0 ==>
        r.seen[k] == Blank
  }

  ghost predicate AllReading(c: Cache)
    requires Shape(c)
  {
    forall h :: h in c.ops ==> Reading(c, h, c.ops[h])
  }

  ghost predicate Good(c: Cache, prev: seq<Entry>, cur: seq<Entry>) {
    && Inv(c.dv, prev, cur) && 0 < c.dv.dev.start
    && Shape(c) && Stored(c) && AllReading(c)
  }

  // ----- steps of a reader -----

  /** Steps that only touch the read of `h` keep everything else. */
  lemma ReaderKeeps(c: Cache, h: nat, r: Read, prev: seq<Entry>, cur: seq<Entry>)
    requires Good(c, prev, cur) && Reading(c, h, r)
    ensures Good(c.(ops := c.ops[h := r]), prev, cur)
  {
    var c' := c.(ops := c.ops[h := r]);
    assert Shape(c');
    assert Stored(c') by {
      forall i, a | 0 <= i < |c.dv.dev.bufs| && InRange(c.dv.dev.bufs[i], a) ensures Holds(c', c.dv.dev.bufs[i], a) {
        assert Holds(c, c.dv.dev.bufs[i], a);
      }
    }
    forall g | g in c'.ops ensures Reading(c', g, c'.ops[g]) {
      assert g != h ==> Reading(c, g, c.ops[g]);
    }
  }

  lemma EndKeeps(c: Cache, h: nat, prev: seq<Entry>, cur: seq<Entry>)
    requires Good(c, prev, cur)
    ensures Good(c.(ops := c.ops - {h}), prev, cur)
  {
    var c' := c.(ops := c.ops - {h});
    assert Shape(c');
    assert Stored(c') by {
      forall i, a | 0 <= i < |c.dv.dev.bufs| && InRange(c.dv.dev.bufs[i], a) ensures Holds(c', c.dv.dev.bufs[i], a) {
        assert Holds(c, c.dv.dev.bufs[i], a);
      }
    }
    forall g | g in c'.ops ensures Reading(c', g, c'.ops[g]) {
      assert Reading(c, g, c.ops[g]);
    }
  }

  lemma BeginReading(c: Cache, h: nat, i: int, prev: seq<Entry>, cur: seq<Entry>)
    requires Good(c, prev, cur) && Can(c, Begin(h, i)) && Fits(c.dv)
    ensures Reading(c, h, Act(c, Begin(h, i)).ops[h])
  {
  }

  lemma TestReading(c: Cache, h: nat, i: int, prev: seq<Entry>, cur: seq<Entry>)
    requires Good(c, prev, cur) && Can(c, Test(h, i)) && Fits(c.dv)
    ensures Reading(c, h, Act(c, Test(h, i)).ops[h])
  {
    assert Reading(c, h, c.ops[h]);
  }

  lemma ClearReading(c: Cache, h: nat, prev: seq<Entry>, cur: seq<Entry>)
    requires Good(c, prev, cur) && Can(c, Clear(h)) && Fits(c.dv)
    ensures Reading(c, h, Act(c, Clear(h)).ops[h])
  {
    assert Reading(c, h, c.ops[h]);
  }

  lemma FetchReading(c: Cache, h: nat, i: int, prev: seq<Entry>, cur: seq<Entry>)
    requires Good(c, prev, cur) && Can(c, Fetch(h, i)) && Fits(c.dv)
    ensures Reading(c, h, Act(c, Fetch(h, i)).ops[h])
  {
    assert Reading(c, h, c.ops[h]);
  }

  /** A sector read is the header's own unless the address was noted before placement. */
  lemma SectorSeen(c: Cache, h: nat, r: Read, k: nat)
    requires Shape(c) && Stored(c) && Reading(c, h, r) && 0 < c.dv.dev.start
    requires r.phase.Issued? && !r.evicted && k < r.len
    ensures r.placed ==> ContentAt(c.disk, r.addr + k) == Written(Tag(h, r.epoch))
    ensures !r.placed && k == 0 ==> ContentAt(c.disk, r.addr + k) == Blank
  {
    if r.placed {
      var i :| 0 <= i < |c.dv.dev.bufs| && c.dv.dev.bufs[i].hdr == h;
      assert InRange(c.dv.dev.bufs[i], r.addr + k);
      assert Holds(c, c.dv.dev.bufs[i], r.addr + k);
    }
  }

  lemma SampleReading(c: Cache, h: nat, k: nat, prev: seq<Entry>, cur: seq<Entry>)
    requires Good(c, prev, cur) && Can(c, Sample(h, k)) && Fits(c.dv)
    ensures Reading(c, h, Act(c, Sample(h, k)).ops[h])
  {
    var r := c.ops[h];
    assert Reading(c, h, r);
    if !r.evicted { SectorSeen(c, h, r, k); }
    hide Shape, Stored, Inv, ContentAt, Hdrs, CandHdrs;
  }

  // ----- steps that take headers off the list -----

  /** `c'` is `c` with some headers off the list, and its flags changed for those alone. */
  ghost predicate Shrunk(c: Cache, c': Cache) {
    var bufs, bufs' := c.dv.dev.bufs, c'.dv.dev.bufs;
    && (forall i :: 0 <= i < |bufs'| ==> bufs'[i] in bufs && (bufs'[i].hdr in c'.batch <==> bufs'[i].hdr in c.batch)
                                         && (bufs'[i].hdr in c'.writing <==> bufs'[i].hdr in c.writing))
    && DistinctHdrs(bufs') && c'.writing <= c.writing && c'.batch <= c.batch && c'.batch <= c'.writing
    && c.unplaced == c'.unplaced == [] && c'.epochs == c.epochs && c'.epoch == c.epoch
    && c'.busy == c.busy && c'.disk == c.disk && c'.pending == c.pending && c'.dv.dev.start == c.dv.dev.start
  }

  lemma ShrunkKeeps(c: Cache, c': Cache)
    requires Shape(c) && Stored(c) && Shrunk(c, c')
    ensures Shape(c') && Stored(c')
  {
    var bufs, bufs' := c.dv.dev.bufs, c'.dv.dev.bufs;
    assert Shape(c');
    forall i, a | 0 <= i < |bufs'| && InRange(bufs'[i], a) ensures Holds(c', bufs'[i], a) {
      var j :| 0 <= j < |bufs| && bufs[j] == bufs'[i];
      assert Holds(c, bufs[j], a);
    }
  }

  /** What may become of a read when headers leave the list: it goes on if its header stays or it is not under way on
      the device; or it is marked. */
  ghost predicate Follows(c: Cache, c': Cache, h: nat, r: Read, r': Read) {
    || (r' == r && (h in Hdrs(c.dv.dev.bufs) && h !in Hdrs(c'.dv.dev.bufs) ==> r.evicted || !r.phase.Issued?))
    || r' == r.(evicted := true)
  }

  lemma ShrunkReading(c: Cache, c': Cache, h: nat, r: Read, r': Read)
    requires Shape(c) && Shrunk(c, c') && Shape(c') && Reading(c, h, r) && Follows(c, c', h, r, r')
    ensures Reading(c', h, r')
  {
    var bufs, bufs' := c.dv.dev.bufs, c'.dv.dev.bufs;
    forall i | 0 <= i < |bufs'| && bufs'[i].hdr == h ensures bufs'[i] in bufs && h in Hdrs(bufs) {
    }
    hide Stored, Seen, TagOf;
    if !r.evicted && !r.phase.Main? && !r.phase.Null? {
      forall i | 0 <= i < |bufs'| && bufs'[i].hdr == h
        ensures r.epoch == c'.epochs[h] && (r.placed ==> r.addr == bufs'[i].daddr)
        ensures (r.phase.Issued? ==> r.len == bufs'[i].asize)
      {
        var j :| 0 <= j < |bufs| && bufs[j] == bufs'[i];
      }
    }
  }

  lemma ShrunkGood(c: Cache, c': Cache)
    requires Shape(c) && Stored(c) && AllReading(c) && Shrunk(c, c') && c'.ops.Keys == c.ops.Keys
    requires forall h :: h in c.ops ==> Follows(c, c', h, c.ops[h], c'.ops[h])
    ensures Shape(c') && Stored(c') && AllReading(c')
  {
    ShrunkKeeps(c, c');
    forall h | h in c'.ops ensures Reading(c', h, c'.ops[h]) {
      assert Reading(c, h, c.ops[h]);
      hide Reading, Shape, Stored, Shrunk, Follows;
      ShrunkReading(c, c', h, c.ops[h], c'.ops[h]);
    }
  }

  /** Eviction marks every read of a header it takes off the list. */
  lemma EvictGood(c: Cache, d: nat, prev: seq<Entry>, cur: seq<Entry>) returns (prev': seq<Entry>, cur': seq<Entry>)
    requires Good(c, prev, cur) && !c.busy && c.unplaced == [] && Enabled(c.dv, Evict(d))
    ensures Fits(c.dv) && Good(AfterEvict(c, Do(c.dv, Evict(d))), prev', cur')
  {
    prev', cur' := EvictStep(c.dv, d, prev, cur);
    EvictDevSuffix(c.dv.dev, d);
    var dv' := Do(c.dv, Evict(d));
    hide Inv, EvictDev, Stored, AllReading, Shape, Hdrs, MarkEvicted, Do;
    var c' := AfterEvict(c, dv');
    EvictRest(c, c', Hdrs(c.dv.dev.bufs) - Hdrs(c'.dv.dev.bufs));
  }

  lemma EvictRest(c: Cache, c': Cache, gone: set<nat>)
    requires Shape(c) && Stored(c) && AllReading(c) && c.unplaced == [] && !c.busy
    requires c' == c.(dv := c'.dv, writing := c.writing - gone, ops := MarkEvicted(c.ops, gone))
    requires c'.dv.dev.start == c.dv.dev.start
    requires var n := |c.dv.dev.bufs| - |c'.dv.dev.bufs|; n >= 0 && c'.dv.dev.bufs == c.dv.dev.bufs[n..]
    requires gone == Hdrs(c.dv.dev.bufs) - Hdrs(c'.dv.dev.bufs)
    ensures Shape(c') && Stored(c') && AllReading(c')
  {
    hide Stored, AllReading, Shape, Shrunk, Hdrs;
    EvictShrinks(c, c', gone);
    assert forall h :: h in c.ops ==> Follows(c, c', h, c.ops[h], c'.ops[h]);
    ShrunkGood(c, c');
  }

  lemma EvictDevSuffix(dev: Dev, d: nat)
    requires dev.end < WORD && 2 * d < WORD
    ensures var dev' := EvictDev(dev, d);
            |dev'.bufs| <= |dev.bufs| && dev' == dev.(bufs := dev.bufs[|dev.bufs| - |dev'.bufs|..])
  {
    if !dev.first { EvictSuffix(dev.bufs, dev.hand, Target(dev, d)); }
  }

  lemma EvictShrinks(c: Cache, c': Cache, gone: set<nat>)
    requires Shape(c) && c.unplaced == [] && !c.busy
    requires c' == c.(dv := c'.dv, writing := c.writing - gone, ops := c'.ops) && c'.dv.dev.start == c.dv.dev.start
    requires var n := |c.dv.dev.bufs| - |c'.dv.dev.bufs|; n >= 0 && c'.dv.dev.bufs == c.dv.dev.bufs[n..]
    requires gone == Hdrs(c.dv.dev.bufs) - Hdrs(c'.dv.dev.bufs)
    ensures Shrunk(c, c')
  {
    var bufs, bufs' := c.dv.dev.bufs, c'.dv.dev.bufs;
    forall i | 0 <= i < |bufs'| ensures bufs'[i] in bufs && bufs'[i].hdr !in gone {
      assert bufs'[i] == bufs[|bufs| - |bufs'| + i];
      assert bufs'[i].hdr in Hdrs(bufs');
    }
  }

  lemma ReleaseGood(c: Cache, k: nat, prev: seq<Entry>, cur: seq<Entry>) returns (prev': seq<Entry>, cur': seq<Entry>)
    requires Good(c, prev, cur) && Can(c, Release(k))
    ensures Fits(c.dv) && Good(Act(c, Release(k)), prev', cur')
  {
    prev', cur' := DropStep(c.dv, k, prev, cur);
    var c' := Act(c, Release(k));
    ReleaseShrinks(c, c', k);
    assert forall h :: h in c.ops ==> Follows(c, c', h, c.ops[h], c'.ops[h]);
    hide Inv, Stored, AllReading, Shape, Shrunk, Follows;
    ShrunkGood(c, c');
  }

  lemma ReleaseShrinks(c: Cache, c': Cache, k: nat)
    requires Shape(c) && c.unplaced == [] && k < |c.dv.dev.bufs|
    requires c' == c.(dv := c'.dv, batch := c.batch - {c.dv.dev.bufs[k].hdr}) && c'.dv.dev.start == c.dv.dev.start
    requires c'.dv.dev.bufs == c.dv.dev.bufs[..k] + c.dv.dev.bufs[k + 1..]
    ensures Shrunk(c, c')
    ensures forall h :: h in Hdrs(c.dv.dev.bufs) && h !in Hdrs(c'.dv.dev.bufs) ==> h == c.dv.dev.bufs[k].hdr
  {
    var bufs, bufs' := c.dv.dev.bufs, c'.dv.dev.bufs;
    assert forall i :: 0 <= i < |bufs'| ==> bufs'[i] == bufs[if i < k then i else i + 1];
    forall h | h in Hdrs(bufs) && h != bufs[k].hdr ensures h in Hdrs(bufs') {
      var i :| 0 <= i < |bufs| && bufs[i].hdr == h;
      assert bufs'[if i < k then i else i - 1] == bufs[i];
    }
  }

  lemma KeepFacts(es: seq<Entry>, gone: set<nat>, lo: nat, hi: nat)
    requires Ascending(es) && Within(es, lo, hi)
    ensures Ascending(Keep(es, gone)) && Within(Keep(es, gone), lo, hi)
  {
    KeepAll(es, gone);
    KeepAscending(es, gone);
  }

  lemma {:induction false} KeepAscending(es: seq<Entry>, gone: set<nat>)
    requires Ascending(es)
    ensures Ascending(Keep(es, gone))
  {
    if es != [] {
      var ks := Keep(es[1..], gone);
      KeepAscending(es[1..], gone);
      KeepAll(es[1..], gone);
      hide Keep;
      forall i | 0 <= i < |ks| ensures es[0].daddr + es[0].asize <= ks[i].daddr {
        var j :| 0 <= j < |es[1..]| && es[1..][j] == ks[i];
        assert es[j + 1] == ks[i];
      }
      assert Ascending([es[0]] + ks);
    }
  }

  lemma {:induction false} KeepConcat(a: seq<Entry>, b: seq<Entry>, gone: set<nat>)
    ensures Keep(a + b, gone) == Keep(a, gone) + Keep(b, gone)
  {
    if a == [] {
      assert a + b == b;
    } else {
      assert (a + b)[1..] == a[1..] + b;
      KeepConcat(a[1..], b, gone);
    }
  }

  lemma {:induction false} KeepAll(es: seq<Entry>, gone: set<nat>)
    ensures forall i :: 0 <= i < |es| && es[i].hdr !in gone ==> es[i] in Keep(es, gone)
    ensures forall i :: 0 <= i < |Keep(es, gone)| ==> Keep(es, gone)[i] in es && Keep(es, gone)[i].hdr !in gone
    ensures DistinctHdrs(es) ==> DistinctHdrs(Keep(es, gone))
  {
    if es != [] {
      KeepAll(es[1..], gone);
      assert forall i :: 0 < i < |es| ==> es[i] == es[1..][i - 1];
    }
  }

  lemma KeepInv(s: State, gone: set<nat>, prev: seq<Entry>, cur: seq<Entry>)
    returns (prev': seq<Entry>, cur': seq<Entry>)
    requires Inv(s, prev, cur)
    ensures Inv(s.(dev := s.dev.(bufs := Keep(s.dev.bufs, gone))), prev', cur')
  {
    prev', cur' := Keep(prev, gone), Keep(cur, gone);
    KeepConcat(prev, cur, gone);
    KeepFacts(prev, gone, s.dev.hand, s.dev.end);
    KeepFacts(cur, gone, s.dev.start, s.dev.hand);
    KeepAll(s.dev.bufs, gone);
    KeepAll(prev, gone);
    hide Ascending, Within, Keep, BigEnough;
  }

  /** Once the write is over, nothing is pending and its headers are readable, except those whose lock was missed. */
  lemma SettledKeeps(c: Cache, c': Cache)
    requires Shape(c) && Stored(c) && c.unplaced == []
    requires c' == c.(busy := false, batch := {}, pending := map[], writing := c'.writing) && c'.writing <= c.writing
    requires c.pending == map[] || c'.writing == c.writing
    requires forall h :: h in c.writing - c'.writing ==> h in c.batch
    ensures Shape(c') && Stored(c')
    ensures forall h, r :: Reading(c, h, r) ==> Reading(c', h, r)
  {
    forall i, a | 0 <= i < |c.dv.dev.bufs| && InRange(c.dv.dev.bufs[i], a) ensures Holds(c', c.dv.dev.bufs[i], a) {
      assert Holds(c, c.dv.dev.bufs[i], a);
    }
  }

  lemma WriteDoneGood(c: Cache, settled: set<nat>, prev: seq<Entry>, cur: seq<Entry>)
    requires Good(c, prev, cur) && c.busy && c.pending == map[] && settled <= c.batch
    ensures Good(AfterWrite(c, true, settled), prev, cur)
  {
    assert AllReading(c);
    hide Inv, Stored, Reading;
    SettledKeeps(c, AfterWrite(c, true, settled));
    assert forall h :: h in c.ops ==> Reading(c, h, c.ops[h]);
  }

  lemma WriteFailedGood(c: Cache, settled: set<nat>, prev: seq<Entry>, cur: seq<Entry>)
    returns (prev': seq<Entry>, cur': seq<Entry>)
    requires Good(c, prev, cur) && c.busy && settled <= c.batch
    ensures Good(AfterWrite(c, false, settled), prev', cur')
  {
    prev', cur' := KeepInv(c.dv, settled, prev, cur);
    var c' := AfterWrite(c, false, settled);
    FailedRest(c, c.(dv := c'.dv, writing := c.writing - settled, batch := c.batch - settled), c', settled);
  }

  lemma FailedRest(c: Cache, c1: Cache, c': Cache, settled: set<nat>)
    requires Shape(c) && Stored(c) && AllReading(c) && c.busy && settled <= c.batch
    requires c1 == c.(dv := c1.dv, writing := c.writing - settled, batch := c.batch - settled)
    requires c1.dv.dev.start == c.dv.dev.start
    requires c1.dv.dev.bufs == Keep(c.dv.dev.bufs, settled)
    requires c' == c1.(busy := false, batch := {}, pending := map[])
    ensures Shape(c') && Stored(c') && AllReading(c')
  {
    assert c.unplaced == [];
    FailedShrinks(c, c1, settled);
    hide Keep, Stored, Shape, Shrunk, Reading, Hdrs, Follows;
    ShrunkGood(c, c1);
    SettledKeeps(c1, c');
    assert forall h :: h in c'.ops ==> Reading(c1, h, c1.ops[h]);
  }

  lemma FailedShrinks(c: Cache, c': Cache, gone: set<nat>)
    requires Shape(c) && AllReading(c) && c.unplaced == [] && gone <= c.batch
    requires c' == c.(dv := c'.dv, writing := c.writing - gone, batch := c.batch - gone)
    requires c'.dv.dev.start == c.dv.dev.start && c'.dv.dev.bufs == Keep(c.dv.dev.bufs, gone)
    ensures Shrunk(c, c') && c'.ops.Keys == c.ops.Keys
    ensures forall h :: h in c.ops ==> Follows(c, c', h, c.ops[h], c'.ops[h])
  {
    var bufs, bufs' := c.dv.dev.bufs, c'.dv.dev.bufs;
    KeepAll(bufs, gone);
    forall h | h in c.ops ensures Follows(c, c', h, c.ops[h], c'.ops[h]) {
      assert Reading(c, h, c.ops[h]);
      if h in Hdrs(bufs) && h !in Hdrs(bufs') {
        var i :| 0 <= i < |bufs| && bufs[i].hdr == h;
        assert h in gone;
      }
    }
  }

  // ----- steps of a write -----

  lemma SelectGood(c: Cache, cs: seq<Cand>, prev: seq<Entry>, cur: seq<Entry>)
    requires Good(c, prev, cur) && Can(c, SelectFor(cs)) && Fits(c.dv)
    ensures Good(Act(c, SelectFor(cs)), prev, cur)
  {
    var c', bufs := Act(c, SelectFor(cs)), c.dv.dev.bufs;
    hide Inv, Chosen, ValidCands;
    forall i | 0 <= i < |bufs| ensures bufs[i].hdr !in CandHdrs(cs) {
      assert bufs[i].hdr in Hdrs(bufs);
    }
    assert Shape(c');
    forall i, a | 0 <= i < |bufs| && InRange(bufs[i], a) ensures Holds(c', bufs[i], a) {
      assert Holds(c, bufs[i], a);
    }
    hide InRange, Holds, DistinctHdrs;
    forall h | h in c'.ops ensures Reading(c', h, c'.ops[h]) {
      assert Reading(c, h, c.ops[h]) && h !in CandHdrs(cs);
    }
  }

  lemma {:induction false} PlacedHdrs(cs: seq<Cand>, hand: nat)
    ensures |Placed(cs, hand)| == |cs|
    ensures forall i :: 0 <= i < |cs| ==> Placed(cs, hand)[i].hdr == cs[i].hdr
  {
    if cs != [] { PlacedHdrs(cs[1..], hand + cs[0].asize); }
  }

  /** The sectors of a write: the ranges of its buffers, each with its header's tag. */
  lemma {:induction false} SectorsOf(es: seq<Entry>, epoch: nat, a: nat)
    requires Ascending(es)
    ensures a in Sectors(es, epoch) <==> exists i :: 0 <= i < |es| && InRange(es[i], a)
    ensures forall i :: 0 <= i < |es| && InRange(es[i], a) ==>
              a in Sectors(es, epoch) && Sectors(es, epoch)[a] == Tag(es[i].hdr, epoch)
  {
    if es != [] {
      var e, rest := es[0], es[1..];
      SectorsOf(rest, epoch, a);
      assert forall i :: 0 < i < |es| ==> es[i] == rest[i - 1];
      assert InRange(e, a) ==> a in Sectors(es, epoch) && Sectors(es, epoch)[a] == Tag(e.hdr, epoch);
      assert !InRange(e, a) ==> (a in Sectors(es, epoch) <==> a in Sectors(rest, epoch));
      assert !InRange(e, a) && a in Sectors(rest, epoch) ==> Sectors(es, epoch)[a] == Sectors(rest, epoch)[a];
      hide Sectors;
      if exists i :: 0 <= i < |rest| && InRange(rest[i], a) {
        var i :| 0 <= i < |rest| && InRange(rest[i], a);
        assert InRange(es[i + 1], a);
      }
    }
  }

  /** `c'` is `c` with the chosen buffers placed as `es` and their write started. */
  ghost predicate PlacedAs(c: Cache, c': Cache, es: seq<Entry>) {
    && |es| == |c.unplaced| && (forall i :: 0 <= i < |es| ==> es[i].hdr == c.unplaced[i].hdr)
    && Ascending(es) && SafeWrite(c.dv.dev, es)
    && c' == c.(dv := c'.dv, unplaced := [], busy := true, batch := CandHdrs(c.unplaced), pending :=
        Sectors(es, c.epoch))
    && c'.dv.dev.bufs == c.dv.dev.bufs + es && c'.dv.dev.start == c.dv.dev.start
  }

  lemma PlacedShape(c: Cache, c': Cache, es: seq<Entry>)
    requires Shape(c) && PlacedAs(c, c', es)
    ensures Shape(c')
  {
    hide SafeWrite, Ascending, Chosen, ValidCands, Sectors;
    var bufs, bufs' := c.dv.dev.bufs, c'.dv.dev.bufs;
    forall i | 0 <= i < |es| ensures es[i].hdr in CandHdrs(c.unplaced) {
    }
    forall i | 0 <= i < |bufs| ensures bufs[i].hdr in Hdrs(bufs) {
    }
  }

  lemma PlacedStored(c: Cache, c': Cache, es: seq<Entry>)
    requires Shape(c) && Stored(c) && PlacedAs(c, c', es) && Shape(c') && !c.busy
    ensures Stored(c')
  {
    var bufs, bufs' := c.dv.dev.bufs, c'.dv.dev.bufs;
    forall i, a | 0 <= i < |bufs'| && InRange(bufs'[i], a) ensures Holds(c', bufs'[i], a) {
      SectorsOf(es, c.epoch, a);
      if i < |bufs| {
        OldHolds(c, c', es, i, a);
      } else {
        assert bufs'[i] == es[i - |bufs|] && es[i - |bufs|].hdr in CandHdrs(c.unplaced);
      }
    }
    forall a | a in c'.pending ensures c.dv.dev.start <= a {
      SectorsOf(es, c.epoch, a);
    }
  }

  lemma OldHolds(c: Cache, c': Cache, es: seq<Entry>, i: nat, a: nat)
    requires Shape(c) && Stored(c) && PlacedAs(c, c', es) && Shape(c') && !c.busy
    requires i < |c.dv.dev.bufs| && InRange(c.dv.dev.bufs[i], a)
    ensures Holds(c', c.dv.dev.bufs[i], a)
  {
    var bufs := c.dv.dev.bufs;
    SectorsOf(es, c.epoch, a);
    forall j | 0 <= j < |es| ensures !InRange(es[j], a) {
      assert Disjoint(bufs[i], es[j]);
    }
    assert Holds(c, bufs[i], a);
    assert bufs[i].hdr in Hdrs(bufs);
    hide Ascending, SafeWrite, Sectors;
  }

  lemma PlacedReading(c: Cache, c': Cache, es: seq<Entry>, h: nat, r: Read)
    requires Shape(c) && PlacedAs(c, c', es) && Shape(c') && Reading(c, h, r)
    ensures Reading(c', h, r)
  {
    hide SafeWrite, Ascending, Sectors, Seen;
    var bufs, bufs' := c.dv.dev.bufs, c'.dv.dev.bufs;
    forall i | 0 <= i < |es| ensures es[i].hdr in CandHdrs(c.unplaced) {
    }
    assert h in Hdrs(bufs) ==> h in Hdrs(bufs') by {
      assert forall i :: 0 <= i < |bufs| ==> bufs'[i] == bufs[i];
    }
    assert h in CandHdrs(c.unplaced) ==> h in Hdrs(bufs') by {
      assert forall i :: 0 <= i < |es| ==> bufs'[|bufs| + i] == es[i];
    }
  }

  lemma PlaceGood(c: Cache, prev: seq<Entry>, cur: seq<Entry>) returns (prev': seq<Entry>, cur': seq<Entry>)
    requires Good(c, prev, cur) && Can(c, Place)
    ensures Fits(c.dv) && Good(Act(c, Place), prev', cur')
  {
    prev', cur' := WriteStep(c.dv, c.unplaced, prev, cur);
    var es := Placed(c.unplaced, c.dv.dev.hand);
    PlacedHdrs(c.unplaced, c.dv.dev.hand);
    PlacedRange(c.unplaced, c.dv.cap, c.dv.dev.hand);
    assert AllReading(c);
    hide Inv, Placed, Chosen, Stored, SafeWrite, Ascending, Within, Sectors, Reading, Advance;
    var c' := Act(c, Place);
    assert PlacedAs(c, c', es);
    PlacedShape(c, c', es);
    PlacedStored(c, c', es);
    forall h | h in c'.ops ensures Reading(c', h, c'.ops[h]) {
      PlacedReading(c, c', es, h, c.ops[h]);
    }
  }

  lemma FlushGood(c: Cache, a: nat, prev: seq<Entry>, cur: seq<Entry>)
    requires Good(c, prev, cur) && Can(c, Flush(a)) && Fits(c.dv)
    ensures Good(Act(c, Flush(a)), prev, cur)
  {
    var c' := Act(c, Flush(a));
    hide Inv, InRange, DistinctHdrs, CandHdrs, Chosen, ValidCands;
    assert Shape(c');
    forall i, b | 0 <= i < |c.dv.dev.bufs| && InRange(c.dv.dev.bufs[i], b) ensures Holds(c', c.dv.dev.bufs[i], b) {
      assert Holds(c, c.dv.dev.bufs[i], b);
    }
    forall h | h in c'.ops ensures Reading(c', h, c'.ops[h]) {
      assert Reading(c, h, c.ops[h]);
    }
  }

  lemma SkipGood(c: Cache, prev: seq<Entry>, cur: seq<Entry>) returns (prev': seq<Entry>, cur': seq<Entry>)
    requires Good(c, prev, cur) && Can(c, Skip)
    ensures Fits(c.dv) && Good(Act(c, Skip), prev', cur')
  {
    prev', cur' := WriteStep(c.dv, [], prev, cur);
    var c' := Act(c, Skip);
    assert c' == c.(dv := c.dv.(ready := false));
    hide Inv, DistinctHdrs, CandHdrs, ValidCands;
    assert Shape(c');
    forall i, b | 0 <= i < |c.dv.dev.bufs| && InRange(c.dv.dev.bufs[i], b) ensures Holds(c', c.dv.dev.bufs[i], b) {
      assert Holds(c, c.dv.dev.bufs[i], b);
    }
    forall h | h in c'.ops ensures Reading(c', h, c'.ops[h]) {
      assert Reading(c, h, c.ops[h]);
    }
  }

  // ----- whole runs -----

  lemma ReaderGood(c: Cache, act: Action, prev: seq<Entry>, cur: seq<Entry>)
    requires Good(c, prev, cur) && Can(c, act) && Fits(c.dv)
    requires act.Begin? || act.Test? || act.Clear? || act.Fetch? || act.Sample? || act.Done? || act.Fail? ||
             act.MainDone?
    ensures Good(Act(c, act), prev, cur)
  {
    var h, c' := act.h, Act(c, act);
    hide Good, Reading;
    if act.Begin? {
      BeginReading(c, h, act.i, prev, cur);
    } else if act.Test? {
      TestReading(c, h, act.i, prev, cur);
    } else if act.Clear? {
      ClearReading(c, h, prev, cur);
    } else if act.Fetch? {
      FetchReading(c, h, act.i, prev, cur);
    } else if act.Sample? {
      SampleReading(c, h, act.k, prev, cur);
    } else {
      MainReading(c, h, prev, cur);
    }
    hide Can;
    if h in c'.ops {
      assert c' == c.(ops := c.ops[h := c'.ops[h]]);
      ReaderKeeps(c, h, c'.ops[h], prev, cur);
    } else {
      EndKeeps(c, h, prev, cur);
    }
  }

  lemma MainReading(c: Cache, h: nat, prev: seq<Entry>, cur: seq<Entry>)
    requires Good(c, prev, cur) && h in c.ops
    ensures Reading(c, h, c.ops[h].(phase := Main))
  {
    assert Reading(c, h, c.ops[h]);
  }

  lemma ActGood(c: Cache, act: Action, prev: seq<Entry>, cur: seq<Entry>) returns (prev': seq<Entry>, cur': seq<Entry>)
    requires Good(c, prev, cur) && Can(c, act) && Fits(c.dv)
    ensures Good(Act(c, act), prev', cur')
  {
    hide Good, Fits, AfterEvict, AfterWrite;
    prev', cur' := prev, cur;
    match act {
      case EvictAhead(d) => prev', cur' := EvictGood(c, d, prev, cur);
      case SelectFor(cs) => SelectGood(c, cs, prev, cur);
      case Place => prev', cur' := PlaceGood(c, prev, cur);
      case Skip => prev', cur' := SkipGood(c, prev, cur);
      case Flush(a) => FlushGood(c, a, prev, cur);
      case WriteDone(ok, missed) =>
        if ok {
          WriteDoneGood(c, c.batch - missed, prev, cur);
        } else {
          prev', cur' := WriteFailedGood(c, c.batch - missed, prev, cur);
        }
      case Release(k) => prev', cur' := ReleaseGood(c, k, prev, cur);
      case _ => ReaderGood(c, act, prev, cur);
    }
  }

  /** How a read ends, on whatever device: with the block from the main pool, or else when all of it has been read from
      the second-level device and no eviction has marked it. */
  lemma ReadEnds(c: Cache, act: Action, h: nat)
    requires Fits(c.dv) && Can(c, act) && h in c.ops
    ensures h !in Act(c, act).ops <==> act == MainDone(h) || (act == Done(h) && !c.ops[h].evicted)
    ensures Delivers(c, act, h) ==>
              c.ops[h].phase.Issued? && forall k :: 0 <= k < c.ops[h].len ==> k in c.ops[h].seen
  {
    hide Hdrs, CandHdrs, ContentAt, Do, Sectors, Placed, Keep;
  }

  /** A read that is delivered saw its header's bytes exactly when the address it noted is one on the device, that is,
      when it was noted after placement, or when there was nothing on the device to read. */
  lemma DeliveredRead(c: Cache, act: Action, h: nat, prev: seq<Entry>, cur: seq<Entry>)
    requires Good(c, prev, cur) && Delivers(c, act, h)
    ensures SawOwnBytes(h, c.ops[h]) <==> c.ops[h].addr >= c.dv.dev.start || c.ops[h].len == 0
  {
    ReadEnds(c, act, h);
    var r := c.ops[h];
    hide Act, Can;
    assert Reading(c, h, r);
    if r.placed {
      InDevice(c.dv, h, prev, cur);
    }
    hide Shape, Inv, Stored;
    if !r.placed && r.len > 0 {
      assert r.seen[0] == Blank;
    }
  }

  lemma InDevice(s: State, h: nat, prev: seq<Entry>, cur: seq<Entry>)
    requires Inv(s, prev, cur)
    ensures forall i :: 0 <= i < |s.dev.bufs| && s.dev.bufs[i].hdr == h ==> s.dev.bufs[i].daddr >= s.dev.start
  {
    assert forall i :: 0 <= i < |s.dev.bufs| ==> s.dev.bufs[i] == if i < |prev| then prev[i] else cur[i - |prev|];
  }

  ghost predicate Run(c: Cache, acts: seq<Action>)
    decreases |acts|
  {
    acts != [] ==> Fits(c.dv) && Can(c, acts[0]) && Run(Act(c, acts[0]), acts[1..])
  }

  /** Every read delivered in the run saw its header's bytes exactly when its address is one on the device. */
  ghost predicate ReadsByAddress(c: Cache, acts: seq<Action>)
    requires Run(c, acts)
    decreases |acts|
  {
    acts != [] ==>
      && (forall h :: Delivers(c, acts[0], h) ==>
            var r := c.ops[h];
            SawOwnBytes(h, r) <==> r.addr >= c.dv.dev.start || r.len == 0)
      && ReadsByAddress(Act(c, acts[0]), acts[1..])
  }

  lemma {:induction false} RunReads(c: Cache, acts: seq<Action>, prev: seq<Entry>, cur: seq<Entry>)
    requires Good(c, prev, cur) && Run(c, acts)
    ensures ReadsByAddress(c, acts)
    decreases |acts|
  {
    if acts != [] {
      hide Good, Can, Act, SawOwnBytes;
      forall h | Delivers(c, acts[0], h)
        ensures SawOwnBytes(h, c.ops[h]) <==> c.ops[h].addr >= c.dv.dev.start || c.ops[h].len == 0
      {
        DeliveredRead(c, acts[0], h, prev, cur);
      }
      var prev', cur' := ActGood(c, acts[0], prev, cur);
      RunReads(Act(c, acts[0]), acts[1..], prev', cur');
    }
  }

  lemma StartGood(start: nat, end: nat, cap: nat)
    requires 0 < start && 0 < cap && start + cap < end && 2 * end <= WORD && BigEnough(start, end, cap)
    ensures Good(Start(start, end, cap), [], [])
  {
  }

  /** On every device big enough for its write size, in every run. */
  lemma L2ReadSafety(start: nat, end: nat, cap: nat, acts: seq<Action>)
    requires 0 < start && 0 < cap && start + cap < end && 2 * end <= WORD && BigEnough(start, end, cap)
    requires Run(Start(start, end, cap), acts)
    ensures ReadsByAddress(Start(start, end, cap), acts)
  {
    StartGood(start, end, cap);
    hide Good, Run, Start;
    RunReads(Start(start, end, cap), acts, [], []);
  }

  // ----- runs put together -----

  ghost function After(c: Cache, acts: seq<Action>): Cache
    requires Run(c, acts)
    decreases |acts|
  {
    if acts == [] then c else After(Act(c, acts[0]), acts[1..])
  }

  ghost predicate Reaches(c: Cache, acts: seq<Action>, c': Cache) {
    Run(c, acts) && After(c, acts) == c'
  }

  lemma {:induction false} Onward(c: Cache, acts: seq<Action>, c1: Cache, act: Action)
    requires Reaches(c, acts, c1) && Fits(c1.dv) && Can(c1, act)
    ensures Reaches(c, acts + [act], Act(c1, act))
    decreases |acts|
  {
    hide Can, Act, Fits;
    if acts == [] {
      assert acts + [act] == [act] && [act][1..] == [];
      Outset(Act(c, act));
    } else {
      assert (acts + [act])[1..] == acts[1..] + [act];
      Onward(Act(c, acts[0]), acts[1..], c1, act);
    }
  }

  lemma Outset(c: Cache)
    ensures Reaches(c, [], c)
  {
  }

  /** A reader whose header is listed, not marked and not being written gets its read going. */
  lemma GetGoing(c0: Cache, acts0: seq<Action>, c: Cache, h: nat, i: nat) returns (acts: seq<Action>, c': Cache)
    requires Reaches(c0, acts0, c) && Fits(c.dv) && i < |c.dv.dev.bufs| && c.dv.dev.bufs[i].hdr == h && h !in c.writing
    requires h in c.ops && c.ops[h].phase.Captured? && !c.ops[h].evicted
    ensures Reaches(c0, acts, c')
    ensures c' == c.(ops := c.ops[h := c.ops[h].(phase := Issued, len := c.dv.dev.bufs[i].asize)])
  {
    hide Reaches, Fits;
    var c1 := Act(c, Test(h, i));
    var c2 := Act(c1, Clear(h));
    c' := Act(c2, Fetch(h, i));
    Onward(c0, acts0, c, Test(h, i));
    Onward(c0, acts0 + [Test(h, i)], c1, Clear(h));
    acts := acts0 + [Test(h, i)] + [Clear(h)];
    Onward(c0, acts, c2, Fetch(h, i));
    acts := acts + [Fetch(h, i)];
  }

  // ----- a read whose address was noted too early -----

  const TINY: seq<Cand> := [Cand(0, 1, 1)]

  /** The device with the one buffer on it. */
  lemma OneBuffer(start: nat, end: nat, cap: nat) returns (dv: State)
    requires 0 < cap && start + cap < end && 2 * end <= WORD
    ensures Fits(dv) && dv == Do(State(Dev(start, end, start, true, []), cap, true), Write(TINY))
    ensures dv.dev.bufs == [Entry(0, start, 1)] && Chosen(TINY, cap) == TINY
    ensures Sectors(Placed(TINY, start), 1) == map[start := Tag(0, 1)]
  {
    OneCand(Cand(0, 1, 1), cap, start);
    dv := Do(State(Dev(start, end, start, true, []), cap, true), Write(TINY));
    OneSector(0, start, 1);
  }

  lemma OneSector(h: nat, a: nat, epoch: nat)
    ensures Sectors([Entry(h, a, 1)], epoch) == map[a := Tag(h, epoch)]
  {
    var es := [Entry(h, a, 1)];
    SectorsOf(es, epoch, a);
    forall b | b in Sectors(es, epoch) ensures b == a {
      SectorsOf(es, epoch, b);
    }
    assert InRange(es[0], a);
    assert Sectors(es, epoch).Keys == {a};
  }

  /** The state in which a header is being written whose address a reader noted before. */
  function Noted(dv: State, start: nat): Cache {
    var r := Read(Captured, 0, false, 1, 0, map[], false);
    Cache(dv, [], true, {0}, map[0 := 1], 1, {0}, map[0 := r], map[], map[start := Tag(0, 1)])
  }

  lemma EarlyNote(start: nat, end: nat, cap: nat) returns (acts: seq<Action>, dv: State)
    requires 0 < start && 0 < cap && start + cap < end && 2 * end <= WORD
    ensures Fits(dv) && dv.dev.bufs == [Entry(0, start, 1)] && Reaches(Start(start, end, cap), acts, Noted(dv, start))
  {
    hide Chosen, Placed, Sectors, Reaches, Do;
    dv := OneBuffer(start, end, cap);
    var c0 := Start(start, end, cap);
    var c1 := c0.(dv := State(c0.dv.dev, cap, true));
    FirstEvict(c0.dv, cap);
    assert Act(c0, EvictAhead(cap)) == c1;
    assert CandHdrs(TINY) == {0} by { assert TINY[0].hdr == 0; }
    var c2 := Act(c1, SelectFor(TINY));
    var c3 := Act(c2, Begin(0, -1));
    assert Act(c3, Place) == Noted(dv, start);
    Outset(c0);
    Onward(c0, [], c0, EvictAhead(cap));
    Onward(c0, [] + [EvictAhead(cap)], c1, SelectFor(TINY));
    acts := [] + [EvictAhead(cap)] + [SelectFor(TINY)];
    Onward(c0, acts, c2, Begin(0, -1));
    Onward(c0, acts + [Begin(0, -1)], c3, Place);
    acts := acts + [Begin(0, -1)] + [Place];
  }

  /** On every device, a reader that notes the address of a header before it has one, and gets to the flags when the
      write is over, reads sector 0; that read is delivered and did not see its header's bytes. */
  lemma EarlyReadFails(start: nat, end: nat, cap: nat) returns (acts: seq<Action>, c: Cache)
    requires 0 < start && 0 < cap && start + cap < end && 2 * end <= WORD
    ensures Reaches(Start(start, end, cap), acts, c) && Delivers(c, Done(0), 0) && !SawOwnBytes(0, c.ops[0])
  {
    var dv;
    acts, dv := EarlyNote(start, end, cap);
    hide Reaches;
    var c0, c4 := Start(start, end, cap), Noted(dv, start);
    var c5 := Act(c4, Flush(start));
    var c6 := Act(c5, WriteDone(true, {}));
    Onward(c0, acts, c4, Flush(start));
    Onward(c0, acts + [Flush(start)], c5, WriteDone(true, {}));
    var c7;
    acts, c7 := GetGoing(c0, acts + [Flush(start)] + [WriteDone(true, {})], c6, 0, 0);
    c := Act(c7, Sample(0, 0));
    assert c.ops[0].seen[0] == Blank;
    Onward(c0, acts, c7, Sample(0, 0));
    acts := acts + [Sample(0, 0)];
  }

  // ----- a placed read that is written over -----

  /** Between feeds. */
  ghost predicate Resting(c: Cache, dv: State) {
    c.dv == dv && Fits(dv) && !dv.ready && !c.busy && c.unplaced == [] && c.pending == map[]
  }

  /** A feed up to the start of its write. */
  lemma FeedTo(c0: Cache, acts0: seq<Action>, c: Cache, d: nat, cs: seq<Cand>, dv1: State, dv2: State)
    returns (acts: seq<Action>, c': Cache)
    requires Reaches(c0, acts0, c) && Resting(c, c.dv) && 0 < d <= c.dv.cap && Do(c.dv, Evict(d)) == dv1
    requires dv1.ready && dv1.cap == d && Fits(dv1)
    requires cs != [] && ValidCands(cs) && Chosen(cs, d) == cs
    requires (forall i, j :: 0 <= i < j < |cs| ==> cs[i].hdr != cs[j].hdr)
    requires CandHdrs(cs) !! Hdrs(dv1.dev.bufs) && CandHdrs(cs) !! c.ops.Keys && Do(dv1, Write(cs)) == dv2
    ensures Reaches(c0, acts, c') && c'.dv == dv2 && c'.unplaced == [] && c'.busy && c'.batch == CandHdrs(cs)
    ensures c'.pending == Sectors(Placed(cs, dv1.dev.hand), c.epoch + 1) && c'.epoch == c.epoch + 1
    ensures c'.ops == MarkEvicted(c.ops, Hdrs(c.dv.dev.bufs) - Hdrs(dv1.dev.bufs))
    ensures forall h :: h in CandHdrs(cs) ==> h in c'.epochs && c'.epochs[h] == c'.epoch
    ensures c'.writing <= c.writing + CandHdrs(cs)
  {
    hide Chosen, Placed, Sectors, Reaches, Do, Hdrs, CandHdrs, MarkEvicted;
    var c1 := Act(c, EvictAhead(d));
    assert c1.dv == dv1;
    assert c1.ops.Keys == c.ops.Keys by { MarkedKeys(c.ops, Hdrs(c.dv.dev.bufs) - Hdrs(dv1.dev.bufs)); }
    var c2 := Act(c1, SelectFor(cs));
    c' := Act(c2, Place);
    Onward(c0, acts0, c, EvictAhead(d));
    Onward(c0, acts0 + [EvictAhead(d)], c1, SelectFor(cs));
    acts := acts0 + [EvictAhead(d)] + [SelectFor(cs)];
    Onward(c0, acts, c2, Place);
    acts := acts + [Place];
  }

  lemma MarkedKeys(ops: map<nat, Read>, gone: set<nat>)
    ensures MarkEvicted(ops, gone).Keys == ops.Keys
  {
  }

  /** A feed whose write fails while no lock can be taken: its headers stay, marked as being written. */
  lemma Feed(c0: Cache, acts0: seq<Action>, c: Cache, d: nat, cs: seq<Cand>, dv1: State, dv2: State)
    returns (acts: seq<Action>, c': Cache)
    requires Reaches(c0, acts0, c) && Resting(c, c.dv) && 0 < d <= c.dv.cap && Do(c.dv, Evict(d)) == dv1
    requires dv1.ready && dv1.cap == d && Fits(dv1)
    requires cs != [] && ValidCands(cs) && Chosen(cs, d) == cs
    requires (forall i, j :: 0 <= i < j < |cs| ==> cs[i].hdr != cs[j].hdr)
    requires CandHdrs(cs) !! Hdrs(dv1.dev.bufs) && c.ops == map[] && Do(dv1, Write(cs)) == dv2 && Fits(dv2)
    requires !dv2.ready
    ensures Reaches(c0, acts, c') && Resting(c', dv2) && c'.ops == map[] && c'.writing <= c.writing + CandHdrs(cs)
  {
    hide Chosen, Placed, Sectors, Reaches, Do, Hdrs, Keep;
    var c1;
    acts, c1 := FeedTo(c0, acts0, c, d, cs, dv1, dv2);
    hide CandHdrs;
    c' := Act(c1, WriteDone(false, CandHdrs(cs)));
    assert CandHdrs(cs) - CandHdrs(cs) == {};
    KeepNone(dv2.dev.bufs);
    Onward(c0, acts, c1, WriteDone(false, CandHdrs(cs)));
    acts := acts + [WriteDone(false, CandHdrs(cs))];
  }

  lemma KeepOne(e: Entry, gone: set<nat>)
    requires e.hdr in gone
    ensures Keep([e], gone) == []
  {
    assert [e][1..] == [];
  }

  lemma {:induction false} KeepNone(es: seq<Entry>)
    ensures Keep(es, {}) == es
  {
    if es != [] { KeepNone(es[1..]); }
  }

  /** All sectors of a write reach the device. */
  lemma {:induction false} FlushAll(c0: Cache, acts0: seq<Action>, c: Cache) returns (acts: seq<Action>, c': Cache)
    requires Reaches(c0, acts0, c) && Fits(c.dv)
    ensures Reaches(c0, acts, c') && c' == c.(disk := c'.disk, pending := map[])
    decreases |c.pending|
  {
    hide Reaches, Fits;
    if c.pending == map[] {
      acts, c' := acts0, c;
    } else {
      var a :| a in c.pending;
      var c1 := Act(c, Flush(a));
      Onward(c0, acts0, c, Flush(a));
      Fewer(c.pending, a);
      acts, c' := FlushAll(c0, acts0 + [Flush(a)], c1);
    }
  }

  lemma Fewer(m: map<nat, Tag>, a: nat)
    requires a in m
    ensures |m - {a}| < |m|
  {
    assert (m - {a}).Keys == m.Keys - {a};
    assert |(m - {a}).Keys| < |m.Keys|;
  }

  /** All sectors of a read are sampled, those from `k` on last. */
  lemma {:induction false} SampleAll(c0: Cache, acts0: seq<Action>, c: Cache, h: nat, k: nat)
    returns (acts: seq<Action>, c': Cache)
    requires Reaches(c0, acts0, c) && Fits(c.dv) && h in c.ops && c.ops[h].phase.Issued? && 0 < k <= c.ops[h].len
    requires forall j :: j in c.ops[h].seen <==> 0 <= j < k
    ensures Reaches(c0, acts, c') && h in c'.ops && c'.dv == c.dv && c'.ops[h] == c.ops[h].(seen := c'.ops[h].seen)
    ensures (forall j :: j in c'.ops[h].seen <==> 0 <= j < c.ops[h].len) && c'.ops[h].seen[0] == c.ops[h].seen[0]
    decreases c.ops[h].len - k
  {
    hide Reaches, Fits;
    if k == c.ops[h].len {
      acts, c' := acts0, c;
    } else {
      var c1 := Act(c, Sample(h, k));
      Onward(c0, acts0, c, Sample(h, k));
      acts, c' := SampleAll(c0, acts0 + [Sample(h, k)], c1, h, k + 1);
    }
  }

  /** The third feed of the failing run, with all its sectors written, and a reader of its one buffer. */
  lemma OverrunRead(c0: Cache, acts0: seq<Action>, c: Cache, d: nat, n: nat, dv1: State, dv2: State)
    returns (acts: seq<Action>, c': Cache)
    requires Reaches(c0, acts0, c) && Resting(c, c.dv) && 0 < d <= c.dv.cap && Do(c.dv, Evict(d)) == dv1
    requires dv1.ready && dv1.cap == d && Fits(dv1) && c.ops == map[] && 0 < n <= d && 4 !in Hdrs(dv1.dev.bufs)
    requires Do(dv1, Write([Cand(4, n, n)])) == dv2 && Fits(dv2) && !dv2.ready && |dv2.dev.bufs| == 2
    requires dv2.dev.bufs[1] == Entry(4, dv1.dev.hand, n)
    ensures Reaches(c0, acts, c') && Resting(c', dv2) && c'.ops.Keys == {4}
    ensures var r := c'.ops[4];
            r == Read(Issued, dv1.dev.hand, true, c'.epoch, n, map[], false)
  {
    hide Chosen, Placed, Sectors, Reaches, Do, Hdrs;
    var cs := [Cand(4, n, n)];
    OneCand(cs[0], d, dv1.dev.hand);
    assert CandHdrs(cs) == {4} by { assert cs[0].hdr == 4; }
    var c1, c2;
    acts, c1 := FeedTo(c0, acts0, c, d, cs, dv1, dv2);
    acts, c2 := FlushAll(c0, acts, c1);
    acts, c' := ReadBack(c0, acts, c2, n, dv2);
  }

  lemma ReadBack(c0: Cache, acts0: seq<Action>, c: Cache, n: nat, dv: State) returns (acts: seq<Action>, c': Cache)
    requires Reaches(c0, acts0, c) && c.dv == dv && Fits(dv) && !dv.ready && |dv.dev.bufs| == 2
    requires dv.dev.bufs[1].hdr == 4
    requires dv.dev.bufs[1].asize == n
    requires c.busy && c.unplaced == [] && c.pending == map[] && c.batch == {4} && c.ops == map[] && 4 in c.epochs
    requires c.epochs[4] == c.epoch
    ensures Reaches(c0, acts, c') && Resting(c', dv) && c'.ops.Keys == {4}
    ensures c'.ops[4] == Read(Issued, dv.dev.bufs[1].daddr, true, c'.epoch, n, map[], false)
  {
    hide Reaches, Fits;
    assert c.batch - {} == {4};
    var c1 := Act(c, WriteDone(true, {}));
    var c2 := Act(c1, Begin(4, 1));
    Onward(c0, acts0, c, WriteDone(true, {}));
    Onward(c0, acts0 + [WriteDone(true, {})], c1, Begin(4, 1));
    acts, c' := GetGoing(c0, acts0 + [WriteDone(true, {})] + [Begin(4, 1)], c2, 4, 1);
  }

  /** The fourth feed writes over the first sector, and the reader gets what it wrote. */
  lemma WrittenOver(c0: Cache, acts0: seq<Action>, c: Cache, d: nat, dv1: State, dv2: State)
    returns (acts: seq<Action>, c': Cache)
    requires Reaches(c0, acts0, c) && Resting(c, c.dv) && 0 < d <= c.dv.cap && Do(c.dv, Evict(d)) == dv1
    requires dv1.ready && dv1.cap == d && Fits(dv1) && 5 !in Hdrs(dv1.dev.bufs) && dv1.dev.bufs == c.dv.dev.bufs
    requires Do(dv1, Write([Cand(5, 1, 1)])) == dv2 && Fits(dv2) && c.ops.Keys == {4}
    requires var r := c.ops[4]; r.phase.Issued? && r.addr == dv1.dev.hand && r.len > 0 && r.seen == map[] && !r.evicted
    ensures Reaches(c0, acts, c') && Delivers(c', Done(4), 4) && c'.dv == dv2
    ensures c'.ops[4].addr == dv1.dev.hand && !SawOwnBytes(4, c'.ops[4])
  {
    hide Chosen, Placed, Sectors, Reaches, Do, Hdrs;
    var cs, a := [Cand(5, 1, 1)], dv1.dev.hand;
    OneCand(cs[0], d, a);
    OneSector(5, a, c.epoch + 1);
    assert CandHdrs(cs) == {5} by { assert cs[0].hdr == 5; }
    var c1;
    acts, c1 := FeedTo(c0, acts0, c, d, cs, dv1, dv2);
    assert Hdrs(c.dv.dev.bufs) - Hdrs(dv1.dev.bufs) == {};
    assert c1.ops == c.ops;
    acts, c' := Overwrite(c0, acts, c1, Tag(5, c.epoch + 1));
  }

  lemma Overwrite(c0: Cache, acts0: seq<Action>, c: Cache, tag: Tag) returns (acts: seq<Action>, c': Cache)
    requires Reaches(c0, acts0, c) && Fits(c.dv) && 4 in c.ops && tag.hdr != 4
    requires var r := c.ops[4];
               r.phase.Issued? && r.len > 0 && r.seen == map[] && !r.evicted && c.pending == map[r.addr := tag]
    ensures Reaches(c0, acts, c') && Delivers(c', Done(4), 4) && c'.dv == c.dv
    ensures c'.ops[4].addr == c.ops[4].addr && !SawOwnBytes(4, c'.ops[4])
  {
    hide Reaches;
    var a := c.ops[4].addr;
    var c2 := Act(c, Flush(a));
    var c3 := Act(c2, Sample(4, 0));
    Onward(c0, acts0, c, Flush(a));
    Onward(c0, acts0 + [Flush(a)], c2, Sample(4, 0));
    assert c3.ops[4].seen == map[0 := Written(tag)];
    acts, c' := SampleAll(c0, acts0 + [Flush(a)] + [Sample(4, 0)], c3, 4, 1);
  }

  /** The device between the feeds of the failing run. */
  function Swept(start: nat, end: nat, d: nat, feeds: nat): State
    requires d > 0 && start + d + 3 <= end
  {
    var e0, e1, e2, e3 := Entry(0, start, 1), Entry(1, start + 1, 1), Entry(2, start + 2, d - 1),
        Entry(3, start + d + 1, 1);
    if feeds == 1 then State(Dev(start, end, start + 2, true, [e0, e1]), d, false)
    else if feeds == 2 then State(Dev(start, end, start, false, [e0, e1, e2, e3]), d, false)
    else State(Dev(start, end, start, false, [e3, Entry(4, start, end - start - d)]), d, false)
  }

  lemma Sweeps(start: nat, end: nat, cap: nat, d: nat)
    requires start + d + 3 <= end && 2 * d > end && 2 * end <= WORD && 2 <= d <= cap && start + cap < end
    ensures var steps, s0 := Overrun(start, end, d), Init(start, end, cap);
            var s1, s2, s3 := Swept(start, end, d, 1), Swept(start, end, d, 2), Swept(start, end, d, 3);
            var s5 := State(Dev(start, end, start, false, [Entry(3, start + d + 1, 1)]), d, true);
            && Fits(s0) && Enabled(s0, Evict(d)) && Do(s0, Evict(d)) == s0.(cap := d, ready := true)
            && Fits(s0.(cap := d, ready := true)) && Do(s0.(cap := d, ready := true), steps[1]) == s1
            && Fits(s1) && Enabled(s1, Evict(d)) && Do(s1, Evict(d)) == s1.(ready := true)
            && Do(s1.(ready := true), steps[3]) == s2
            && Fits(s2) && Enabled(s2, Evict(d)) && Do(s2, Evict(d)) == s5 && Do(s5, steps[5]) == s3
            && Fits(s3) && Enabled(s3, Evict(d)) && Do(s3, Evict(d)) == s3.(ready := true)
            && Fits(Do(s3.(ready := true), steps[7]))
  {
    hide EvictDev, WriteDev;
    var e0, e1, e3 := Entry(0, start, 1), Entry(1, start + 1, 1), Entry(3, start + d + 1, 1);
    OverrunWrites(start, end, d, e0, e1, e3);
    OverrunEvicts(start, end, d);
    FirstEvict(Init(start, end, cap), d);
    FirstEvict(Swept(start, end, d, 1), d);
    WriteKeepsBounds(Swept(start, end, d, 3).(ready := true), [Cand(5, 1, 1)]);
  }

  /** The first two feeds of the failing run. */
  lemma FirstFeeds(start: nat, end: nat, cap: nat, d: nat) returns (acts: seq<Action>, c: Cache)
    requires start + d + 3 <= end && 2 * d > end && 2 * end <= WORD && 2 <= d <= cap && start + cap < end
    ensures Reaches(Start(start, end, cap), acts, c) && Resting(c, Swept(start, end, d, 2)) && c.ops == map[]
  {
    hide Reaches, Do, Chosen, Placed;
    Sweeps(start, end, cap, d);
    var c0, s0, s1 := Start(start, end, cap), Init(start, end, cap), Swept(start, end, d, 1);
    TwoCands(Cand(0, 1, 1), Cand(1, 1, 1), d, start);
    TwoCands(Cand(2, d - 1, d - 1), Cand(3, 1, 1), d, start + 2);
    Outset(c0);
    acts, c := Feed(c0, [], c0, d, [Cand(0, 1, 1), Cand(1, 1, 1)], s0.(cap := d, ready := true), s1);
    acts, c := Feed(c0, acts, c, d, [Cand(2, d - 1, d - 1), Cand(3, 1, 1)], s1.(ready := true),
        Swept(start, end, d, 2));
  }

  /** On every device that is not big enough, a read whose address is on the device is written over and delivered. */
  lemma PlacedReadFails(start: nat, end: nat, cap: nat) returns (acts: seq<Action>, c: Cache)
    requires 0 < start && 0 < cap && start + cap < end && 2 * end <= WORD && !BigEnough(start, end, cap)
    ensures Reaches(Start(start, end, cap), acts, c) && Delivers(c, Done(4), 4)
    ensures c.ops[4].addr >= c.dv.dev.start && !SawOwnBytes(4, c.ops[4])
  {
    hide Reaches, Do, SawOwnBytes, Delivers;
    var d := end / 2 + 1;
    var s3 := Swept(start, end, d, 3);
    var s5 := State(Dev(start, end, start, false, [Entry(3, start + d + 1, 1)]), d, true);
    Sweeps(start, end, cap, d);
    var c0 := Start(start, end, cap);
    acts, c := FirstFeeds(start, end, cap, d);
    acts, c := OverrunRead(c0, acts, c, d, end - start - d, s5, s3);
    acts, c := WrittenOver(c0, acts, c, d, s3.(ready := true), Do(s3.(ready := true), Write([Cand(5, 1, 1)])));
    WriteKeepsBounds(s3.(ready := true), [Cand(5, 1, 1)]);
  }

  lemma WriteKeepsBounds(s: State, cands: seq<Cand>)
    requires Fits(s) && Enabled(s, Write(cands))
    ensures Fits(Do(s, Write(cands))) && Do(s, Write(cands)).dev.start == s.dev.start
  {
  }

  // ----- all runs -----

  /** Every read delivered whose address is on the device saw its header's bytes. */
  ghost predicate PlacedReadsSaw(c: Cache, acts: seq<Action>)
    requires Run(c, acts)
    decreases |acts|
  {
    acts != [] ==>
      && (forall h :: Delivers(c, acts[0], h) && c.ops[h].addr >= c.dv.dev.start ==> SawOwnBytes(h, c.ops[h]))
      && PlacedReadsSaw(Act(c, acts[0]), acts[1..])
  }

  ghost predicate AllPlacedReadsSaw(start: nat, end: nat, cap: nat) {
    forall acts :: Run(Start(start, end, cap), acts) ==> PlacedReadsSaw(Start(start, end, cap), acts)
  }

  lemma {:induction false} ByAddress(c: Cache, acts: seq<Action>)
    requires Run(c, acts) && ReadsByAddress(c, acts)
    ensures PlacedReadsSaw(c, acts)
    decreases |acts|
  {
    if acts != [] {
      hide Act, Can, SawOwnBytes;
      ByAddress(Act(c, acts[0]), acts[1..]);
    }
  }

  lemma {:induction false} LastFails(c: Cache, acts: seq<Action>, c1: Cache, h: nat)
    requires Reaches(c, acts, c1) && Delivers(c1, Done(h), h) && c1.ops[h].addr >= c1.dv.dev.start
    requires !SawOwnBytes(h, c1.ops[h])
    ensures Run(c, acts + [Done(h)]) && !PlacedReadsSaw(c, acts + [Done(h)])
    decreases |acts|
  {
    hide Act, Can, SawOwnBytes, Fits;
    if acts == [] {
      assert acts + [Done(h)] == [Done(h)] && [Done(h)][1..] == [];
      Outset(Act(c, Done(h)));
    } else {
      assert (acts + [Done(h)])[1..] == acts[1..] + [Done(h)];
      LastFails(Act(c, acts[0]), acts[1..], c1, h);
    }
  }

  /** In every run all reads delivered with an address on the device saw their headers' bytes, exactly when the
      device is big enough for its write size. */
  lemma PlacedReadSafety(start: nat, end: nat, cap: nat)
    requires 0 < start && 0 < cap && start + cap < end && 2 * end <= WORD
    ensures AllPlacedReadsSaw(start, end, cap) <==> BigEnough(start, end, cap)
  {
    hide Run, Start, PlacedReadsSaw, ReadsByAddress, Reaches, Delivers, SawOwnBytes;
    if BigEnough(start, end, cap) {
      forall acts | Run(Start(start, end, cap), acts) ensures PlacedReadsSaw(Start(start, end, cap), acts) {
        L2ReadSafety(start, end, cap, acts);
        ByAddress(Start(start, end, cap), acts);
      }
    } else {
      var acts, c := PlacedReadFails(start, end, cap);
      LastFails(Start(start, end, cap), acts, c, 4);
    }
  }
}
