/** What the counters of oss/arc/arc.c stand for: sums over the headers of the cache. */
module ArcBooks {
  import opened ArcTargets

  datatype Ty = Data | Meta

  /** What ARC_IO_IN_PROGRESS is set for. */
  datatype Io = Idle | Reading | Writing

  /** arc_buf_hdr_t: state, type, b_size, b_refcnt, b_datacnt, whether it has an L2 header, and I/O in progress. */
  datatype Hdr = Hdr(st: St, ty: Ty, size: nat, refcnt: nat, datacnt: nat, l2: bool, io: Io)

  /** One of the two lists of a state. */
  datatype Slot = Slot(st: St, ty: Ty)

  function AllStates(): set<St> {
    {Anon, Mru, MruGhost, Mfu, MfuGhost, L2cOnly}
  }

  function AllSlots(): set<Slot> {
    set st, ty | st in AllStates() && ty in {Data, Meta} :: Slot(st, ty)
  }

  lemma Everything(slot: Slot)
    ensures slot.st in AllStates() && slot in AllSlots()
  {
    var st, ty := slot.st, slot.ty;
    assert st.Anon? || st.Mru? || st.MruGhost? || st.Mfu? || st.MfuGhost? || st.L2cOnly?;
    assert ty.Data? || ty.Meta?;
    assert st in AllStates() && ty in {Data, Meta} && slot == Slot(st, ty);
  }

  predicate Ghost(st: St) {
    st == MruGhost || st == MfuGhost || st == L2cOnly
  }

  predicate Resident(st: St) {
    !Ghost(st)
  }

  /** What a header counts for in its state: the size of all its buffers, or its own size as a ghost. */
  function Weight(h: Hdr): (w: int)
    ensures w >= 0
  {
    if Ghost(h.st) then h.size else h.size * h.datacnt
  }

  /** Only unreferenced headers are on lists, and none in the anonymous state. */
  predicate OnList(h: Hdr, slot: Slot) {
    h.st == slot.st && h.ty == slot.ty && h.st != Anon && h.refcnt == 0
  }

  /** Which sum: of a list, of a state, of all resident metadata, of the space taken for the L2 cache by headers of
      `hdr` bytes and L2 headers of `l2` bytes, or of the space of all other headers. */
  datatype Sel = ListOf(slot: Slot) | StateOf(st: St) | MetaData | L2Space(hdr: nat, l2: nat) | HdrsOf(hdr: nat)

  function Share(sel: Sel, h: Hdr): (w: int)
    ensures w >= 0
  {
    match sel
    case ListOf(slot) => if OnList(h, slot) then Weight(h) else 0
    case StateOf(st) => if h.st == st then Weight(h) else 0
    case MetaData => if Resident(h.st) && h.ty == Meta then Weight(h) else 0
    case L2Space(hdr, l2) => (if h.l2 then l2 else 0) + if h.st == L2cOnly then hdr else 0
    case HdrsOf(hdr) => if h.st == L2cOnly then 0 else hdr
  }

  ghost function Sum(m: map<nat, Hdr>, sel: Sel): (total: int)
    ensures total >= 0
    decreases |m|
  {
    if m == map[] then 0
    else
      var k :| k in m;
      Share(sel, m[k]) + Sum(m - {k}, sel)
  }

  lemma {:induction false} SumTake(m: map<nat, Hdr>, k: nat, sel: Sel)
    requires k in m
    ensures Sum(m, sel) == Share(sel, m[k]) + Sum(m - {k}, sel)
    decreases |m|
  {
    var j :| j in m && Sum(m, sel) == Share(sel, m[j]) + Sum(m - {j}, sel);
    if j != k {
      SumTake(m - {j}, k, sel);
      SumTake(m - {k}, j, sel);
      assert m - {j} - {k} == m - {k} - {j};
    }
  }

  lemma SumSet(m: map<nat, Hdr>, k: nat, h: Hdr, sel: Sel)
    ensures Sum(m[k := h], sel) == Sum(m - {k}, sel) + Share(sel, h)
    ensures k in m ==> Sum(m, sel) == Sum(m - {k}, sel) + Share(sel, m[k])
    ensures k !in m ==> m - {k} == m
  {
    var m' := m[k := h];
    SumTake(m', k, sel);
    assert m' - {k} == m - {k};
    if k in m { SumTake(m, k, sel); }
  }

  /** The lists and counters of the states. */
  datatype Tally = Tally(lists: map<Slot, set<nat>>, lsize: map<Slot, int>, size: map<St, int>)

  /** They agree with the headers: a header is on its list exactly when it is unreferenced, and every counter is
      the sum it stands for. */
  ghost predicate Tallied(m: map<nat, Hdr>, y: Tally) {
    && (forall slot: Slot :: slot in y.lists && slot in y.lsize)
    && (forall st: St :: st in y.size)
    && (forall slot: Slot, k :: k in y.lists[slot] <==> k in m && OnList(m[k], slot))
    && (forall slot: Slot :: y.lsize[slot] == Sum(m, ListOf(slot)))
    && (forall st: St :: y.size[st] == Sum(m, StateOf(st)))
  }

  /** How lists and counters must change when header `k` changes from `h` to `h'`. */
  ghost predicate Moved(y: Tally, y': Tally, k: nat, h: Hdr, h': Hdr) {
    && (forall slot: Slot :: slot in y.lists && slot in y'.lists && slot in y.lsize && slot in y'.lsize)
    && (forall st: St :: st in y.size && st in y'.size)
    && (forall slot: Slot :: y'.lists[slot] == if OnList(h', slot) then y.lists[slot] + {k} else y.lists[slot] - {k})
    && (forall slot: Slot :: y'.lsize[slot] == y.lsize[slot] - Share(ListOf(slot), h) + Share(ListOf(slot), h'))
    && (forall st: St :: y'.size[st] == y.size[st] - Share(StateOf(st), h) + Share(StateOf(st), h'))
  }

  lemma MovedTallied(m: map<nat, Hdr>, y: Tally, y': Tally, k: nat, h': Hdr)
    requires Tallied(m, y) && k in m && Moved(y, y', k, m[k], h')
    ensures Tallied(m[k := h'], y')
  {
    forall slot: Slot ensures y'.lsize[slot] == Sum(m[k := h'], ListOf(slot)) {
      SumSet(m, k, h', ListOf(slot));
    }
    forall st: St ensures y'.size[st] == Sum(m[k := h'], StateOf(st)) {
      SumSet(m, k, h', StateOf(st));
    }
  }

  /** A new header that counts for nothing yet but its own space, or one that counts for nothing else any more. */
  lemma AddedTallied(m: map<nat, Hdr>, y: Tally, k: nat, h: Hdr)
    requires Tallied(m, y) && k !in m && h.st == Anon && h.datacnt == 0 && !h.l2
    ensures Tallied(m[k := h], y)
    ensures forall sel: Sel :: Sum(m[k := h], sel) == Sum(m, sel) + if sel.HdrsOf? then sel.hdr else 0
  {
    forall sel: Sel ensures Sum(m[k := h], sel) == Sum(m, sel) + if sel.HdrsOf? then sel.hdr else 0 {
      SumSet(m, k, h, sel);
    }
  }

  lemma RemovedTallied(m: map<nat, Hdr>, y: Tally, k: nat)
    requires Tallied(m, y) && k in m && m[k].st == Anon && m[k].datacnt == 0 && !m[k].l2
    ensures Tallied(m - {k}, y)
    ensures forall sel: Sel :: Sum(m, sel) == Sum(m - {k}, sel) + if sel.HdrsOf? then sel.hdr else 0
  {
    forall sel: Sel ensures Sum(m, sel) == Sum(m - {k}, sel) + if sel.HdrsOf? then sel.hdr else 0 {
      SumTake(m, k, sel);
    }
  }

  /** No counter is smaller than what any one header counts for. */
  lemma AtLeast(m: map<nat, Hdr>, y: Tally, k: nat)
    requires Tallied(m, y) && k in m
    ensures forall slot: Slot :: y.lsize[slot] >= Share(ListOf(slot), m[k])
    ensures forall st: St :: y.size[st] >= Share(StateOf(st), m[k])
  {
    forall slot: Slot ensures y.lsize[slot] >= Share(ListOf(slot), m[k]) {
      SumTake(m, k, ListOf(slot));
    }
    forall st: St ensures y.size[st] >= Share(StateOf(st), m[k]) {
      SumTake(m, k, StateOf(st));
    }
  }

  // ----- the elementary changes -----

  ghost predicate Keyed(y: Tally) {
    && (forall slot: Slot :: slot in y.lists && slot in y.lsize)
    && (forall st: St :: st in y.size)
  }

  /** A header leaves a list, or joins one; a list or a state grows or shrinks. */
  function Unlink(y: Tally, slot: Slot, k: nat): Tally
    requires slot in y.lists
  {
    y.(lists := y.lists[slot := y.lists[slot] - {k}])
  }

  function Link(y: Tally, slot: Slot, k: nat): Tally
    requires slot in y.lists
  {
    y.(lists := y.lists[slot := y.lists[slot] + {k}])
  }

  function GrowList(y: Tally, slot: Slot, delta: int): Tally
    requires slot in y.lsize
  {
    y.(lsize := y.lsize[slot := y.lsize[slot] + delta])
  }

  function GrowState(y: Tally, st: St, delta: int): Tally
    requires st in y.size
  {
    y.(size := y.size[st := y.size[st] + delta])
  }

  function SlotOf(h: Hdr): Slot {
    Slot(h.st, h.ty)
  }

  predicate Listed(h: Hdr) {
    h.st != Anon && h.refcnt == 0
  }

  /** The lists after header `k` has changed from `h` to `h'`, and the counters. */
  function Relisted(y: Tally, k: nat, h: Hdr, h': Hdr): Tally
    requires SlotOf(h) in y.lists && SlotOf(h) in y.lsize && SlotOf(h') in y.lists && SlotOf(h') in y.lsize
  {
    var y1 := if Listed(h) then GrowList(Unlink(y, SlotOf(h), k), SlotOf(h), -Weight(h)) else y;
    if Listed(h') then GrowList(Link(y1, SlotOf(h'), k), SlotOf(h'), Weight(h')) else y1
  }

  function Transfer(y: Tally, k: nat, h: Hdr, h': Hdr): Tally
    requires Keyed(y)
  {
    GrowState(GrowState(Relisted(y, k, h, h'), h'.st, Weight(h')), h.st, -Weight(h))
  }

  lemma TransferTallied(m: map<nat, Hdr>, y: Tally, k: nat, h': Hdr)
    requires Tallied(m, y) && k in m
    ensures Tallied(m[k := h'], Transfer(y, k, m[k], h'))
  {
    TransferMoved(y, k, m[k], h');
    forall slot: Slot ensures k in y.lists[slot] <==> OnList(m[k], slot) {
    }
    hide Sum, Share, Weight, Transfer, OnList;
    MovedTallied(m, y, Transfer(y, k, m[k], h'), k, h');
  }

  lemma TransferMoved(y: Tally, k: nat, h: Hdr, h': Hdr)
    requires Keyed(y) && (forall slot: Slot :: k in y.lists[slot] <==> OnList(h, slot))
    ensures Moved(y, Transfer(y, k, h, h'), k, h, h')
  {
    var y' := Transfer(y, k, h, h');
    forall slot: Slot
      ensures slot in y'.lists && slot in y'.lsize
      ensures y'.lists[slot] == if OnList(h', slot) then y.lists[slot] + {k} else y.lists[slot] - {k}
      ensures y'.lsize[slot] == y.lsize[slot] - Share(ListOf(slot), h) + Share(ListOf(slot), h')
    {
      TransferSlot(y, k, h, h', slot);
    }
    forall st: St
      ensures st in y'.size && y'.size[st] == y.size[st] - Share(StateOf(st), h) + Share(StateOf(st), h')
    {
      TransferState(y, k, h, h', st);
    }
    hide Weight, Share, OnList, Transfer;
  }

  lemma TransferSlot(y: Tally, k: nat, h: Hdr, h': Hdr, slot: Slot)
    requires Keyed(y) && (k in y.lists[slot] <==> OnList(h, slot))
    ensures var y' := Transfer(y, k, h, h');
            && slot in y'.lists && slot in y'.lsize
            && y'.lists[slot] == (if OnList(h', slot) then y.lists[slot] + {k} else y.lists[slot] - {k})
            && y'.lsize[slot] == y.lsize[slot] - Share(ListOf(slot), h) + Share(ListOf(slot), h')
  {
    hide Weight;
  }

  lemma TransferState(y: Tally, k: nat, h: Hdr, h': Hdr, st: St)
    requires Keyed(y)
    ensures var y' := Transfer(y, k, h, h');
            st in y'.size && y'.size[st] == y.size[st] - Share(StateOf(st), h) + Share(StateOf(st), h')
  {
    hide Weight;
  }

  /** What Transfer comes to when only the reference count changes. */
  function RefMoved(y: Tally, k: nat, h: Hdr, h': Hdr): Tally
    requires SlotOf(h) in y.lists && SlotOf(h) in y.lsize
  {
    if Listed(h) && !Listed(h') then GrowList(Unlink(y, SlotOf(h), k), SlotOf(h), -Weight(h))
    else if !Listed(h) && Listed(h') then GrowList(Link(y, SlotOf(h), k), SlotOf(h), Weight(h))
    else y
  }

  lemma RefTransfer(y: Tally, k: nat, h: Hdr, h': Hdr)
    requires Keyed(y) && h' == h.(refcnt := h'.refcnt) && (Listed(h) <==> k in y.lists[SlotOf(h)])
    ensures Transfer(y, k, h, h') == RefMoved(y, k, h, h')
  {
    assert Weight(h') == Weight(h);
    hide Weight;
    var y' := Transfer(y, k, h, h');
    assert y'.size == y.size;
    if Listed(h) == Listed(h') {
      assert y.lists[SlotOf(h)] - {k} + {k} == y.lists[SlotOf(h)] || !Listed(h);
      assert y'.lists == y.lists && y'.lsize == y.lsize;
    }
  }

  lemma RefTallied(m: map<nat, Hdr>, y: Tally, k: nat, h': Hdr)
    requires Tallied(m, y) && k in m && h' == m[k].(refcnt := h'.refcnt)
    ensures SlotOf(m[k]) in y.lists && SlotOf(m[k]) in y.lsize && (Listed(m[k]) <==> k in y.lists[SlotOf(m[k])])
    ensures Listed(m[k]) ==> y.lsize[SlotOf(m[k])] >= Weight(m[k])
    ensures Tallied(m[k := h'], RefMoved(y, k, m[k], h')) && Sum(m[k := h'], MetaData) == Sum(m, MetaData)
  {
    AtLeast(m, y, k);
    hide Sum;
    RefTransfer(y, k, m[k], h');
    TransferTallied(m, y, k, h');
    SumSet(m, k, h', MetaData);
  }

  /** What Transfer comes to when only the number of buffers changes. */
  function CountMoved(y: Tally, h: Hdr, d: int): Tally
    requires SlotOf(h) in y.lsize && h.st in y.size
  {
    GrowState(if Listed(h) then GrowList(y, SlotOf(h), d) else y, h.st, d)
  }

  lemma CountTransfer(y: Tally, k: nat, h: Hdr, h': Hdr)
    requires Keyed(y) && h' == h.(datacnt := h'.datacnt) && (Listed(h) <==> k in y.lists[SlotOf(h)])
    ensures Transfer(y, k, h, h') == CountMoved(y, h, Weight(h') - Weight(h))
  {
    hide Weight;
    var y', d := Transfer(y, k, h, h'), Weight(h') - Weight(h);
    assert y'.size == y.size[h.st := y.size[h.st] + d];
    assert y.lists[SlotOf(h)] - {k} + {k} == y.lists[SlotOf(h)] || !Listed(h);
    assert y'.lists == y.lists;
    if Listed(h) { assert y'.lsize == y.lsize[SlotOf(h) := y.lsize[SlotOf(h)] + d]; }
  }

  lemma CountTallied(m: map<nat, Hdr>, y: Tally, k: nat, h': Hdr)
    requires Tallied(m, y) && k in m && h' == m[k].(datacnt := h'.datacnt) && Resident(h'.st)
    ensures Keyed(y) && (Listed(m[k]) <==> k in y.lists[SlotOf(m[k])])
    ensures y.size[m[k].st] >= Weight(m[k]) && (Listed(m[k]) ==> y.lsize[SlotOf(m[k])] >= Weight(m[k]))
    ensures var d := h'.size * h'.datacnt - m[k].size * m[k].datacnt;
            var y' := CountMoved(y, m[k], d);
            && Keyed(y') && Tallied(m[k := h'], y') && ResidentSize(y') == ResidentSize(y) + d
            && Sum(m[k := h'], MetaData) == Sum(m, MetaData) + if h'.ty == Meta then d else 0
  {
    hide Sum, Tallied, Transfer, Keyed, CountMoved;
    StateTallied(m, y, k, h');
    CountTransfer(y, k, m[k], h');
  }

  /** What a header counts for in the resident states, and what of it is metadata. */
  function Held(h: Hdr): (w: int)
    ensures w >= 0
  {
    if Resident(h.st) then Weight(h) else 0
  }

  function HeldMeta(h: Hdr): (w: int)
    ensures w >= 0
  {
    if h.ty == Meta then Held(h) else 0
  }

  ghost function ResidentSize(y: Tally): int
    requires Keyed(y)
  {
    y.size[Anon] + y.size[Mru] + y.size[Mfu]
  }

  lemma StateTallied(m: map<nat, Hdr>, y: Tally, k: nat, h': Hdr)
    requires Tallied(m, y) && k in m
    ensures Keyed(y) && (Listed(m[k]) <==> k in y.lists[SlotOf(m[k])])
    ensures y.size[m[k].st] >= Weight(m[k]) && (Listed(m[k]) ==> y.lsize[SlotOf(m[k])] >= Weight(m[k]))
    ensures var y' := Transfer(y, k, m[k], h');
            && Keyed(y') && Tallied(m[k := h'], y')
            && ResidentSize(y') == ResidentSize(y) - Held(m[k]) + Held(h')
            && Sum(m[k := h'], MetaData) == Sum(m, MetaData) - HeldMeta(m[k]) + HeldMeta(h')
  {
    hide Sum, Tallied, Transfer, Weight, Keyed;
    Entry(m, y, k);
    TransferTallied(m, y, k, h');
    SumSet(m, k, h', MetaData);
    TransferSizes(y, k, m[k], h');
  }

  lemma TransferSizes(y: Tally, k: nat, h: Hdr, h': Hdr)
    requires Keyed(y)
    ensures var y' := Transfer(y, k, h, h');
            Keyed(y') && ResidentSize(y') == ResidentSize(y) - Held(h) + Held(h')
  {
    hide Weight;
    TransferState(y, k, h, h', Anon);
    TransferState(y, k, h, h', Mru);
    TransferState(y, k, h, h', Mfu);
  }

  /** What lists and counters say about one header. */
  lemma Entry(m: map<nat, Hdr>, y: Tally, k: nat)
    requires Tallied(m, y) && k in m
    ensures Keyed(y) && (Listed(m[k]) <==> k in y.lists[SlotOf(m[k])])
    ensures y.size[m[k].st] >= Weight(m[k]) && (Listed(m[k]) ==> y.lsize[SlotOf(m[k])] >= Weight(m[k]))
  {
    AtLeast(m, y, k);
  }

  lemma SpaceMoved(m: map<nat, Hdr>, k: nat, h': Hdr, hdr: nat, l2: nat)
    requires k in m
    ensures Sum(m[k := h'], L2Space(hdr, l2)) ==
            Sum(m, L2Space(hdr, l2)) - (if m[k].l2 then l2 else 0) - (if m[k].st == L2cOnly then hdr else 0)
              + (if h'.l2 then l2 else 0) + (if h'.st == L2cOnly then hdr else 0)
    ensures Sum(m[k := h'], HdrsOf(hdr)) ==
            Sum(m, HdrsOf(hdr)) + (if m[k].st == L2cOnly then hdr else 0) - (if h'.st == L2cOnly then hdr else 0)
  {
    hide Sum;
    SumSet(m, k, h', L2Space(hdr, l2));
    SumSet(m, k, h', HdrsOf(hdr));
  }

  /** The L2 header does not count in lists and states. */
  lemma L2Tallied(m: map<nat, Hdr>, y: Tally, k: nat, l2: bool)
    requires Tallied(m, y) && k in m
    ensures Tallied(m[k := m[k].(l2 := l2)], y) && Sum(m[k := m[k].(l2 := l2)], MetaData) == Sum(m, MetaData)
  {
    forall sel: Sel ensures !sel.L2Space? ==> Sum(m[k := m[k].(l2 := l2)], sel) == Sum(m, sel) {
      SumSet(m, k, m[k].(l2 := l2), sel);
    }
  }

  /** Neither does the first buffer of a ghost, which counts for its size anyway. */
  lemma GhostTallied(m: map<nat, Hdr>, y: Tally, k: nat, datacnt: nat)
    requires Tallied(m, y) && k in m && Ghost(m[k].st)
    ensures Tallied(m[k := m[k].(datacnt := datacnt)], y)
    ensures forall sel: Sel :: Sum(m[k := m[k].(datacnt := datacnt)], sel) == Sum(m, sel)
  {
    forall sel: Sel ensures Sum(m[k := m[k].(datacnt := datacnt)], sel) == Sum(m, sel) {
      SumSet(m, k, m[k].(datacnt := datacnt), sel);
    }
  }

  /** Nor does I/O in progress. */
  lemma IoTallied(m: map<nat, Hdr>, y: Tally, k: nat, io: Io)
    requires Tallied(m, y) && k in m
    ensures Tallied(m[k := m[k].(io := io)], y)
    ensures forall sel: Sel :: Sum(m[k := m[k].(io := io)], sel) == Sum(m, sel)
  {
    forall sel: Sel ensures Sum(m[k := m[k].(io := io)], sel) == Sum(m, sel) {
      SumSet(m, k, m[k].(io := io), sel);
    }
  }

  /** What is counted covers every single block and L2 header. */
  lemma Covers(m: map<nat, Hdr>, y: Tally, k: nat, hdr: nat, l2: nat)
    requires Tallied(m, y) && k in m
    ensures Keyed(y) && ResidentSize(y) >= Held(m[k]) && Sum(m, MetaData) >= HeldMeta(m[k])
    ensures m[k].l2 ==> Sum(m, L2Space(hdr, l2)) >= l2
  {
    AtLeast(m, y, k);
    SumTake(m, k, MetaData);
    SumTake(m, k, L2Space(hdr, l2));
    assert forall st: St :: y.size[st] >= 0;
    hide Sum;
  }

  // ----- eviction -----

  /** A header the eviction scan comes to: how many of its buffers can be locked before one cannot, and whether
      it is being written to the L2 cache. */
  datatype Try = Try(k: nat, got: nat, writing: bool)

  /** A header left with `d` buffers; without any it is a ghost. */
  function LeftWith(h: Hdr, d: nat): Hdr {
    if d > 0 then h.(datacnt := d) else h.(datacnt := 0, st := if h.st == Mru then MruGhost else MfuGhost)
  }

  function Lost(h: Hdr, got: nat): nat {
    if got < h.datacnt then got else h.datacnt
  }

  predicate Evictable(m: map<nat, Hdr>, k: nat, slot: Slot) {
    k in m && SlotOf(m[k]) == slot && m[k].refcnt == 0 && m[k].io == Idle
  }

  predicate Stealable(h: Hdr, a: Try, bytes: int) {
    h.size == bytes && !a.writing && Lost(h, a.got) > 0
  }

  /** The headers after a scan of a list for `bytes`, when `total` bytes have been evicted before; and whether one
      data block of that size was kept for the caller. */
  function Scan(m: map<nat, Hdr>, slot: Slot, bytes: int, tries: seq<Try>, total: int, recycle: bool): (map<nat, Hdr>,
                bool)
    decreases |tries|
  {
    if tries == [] then (m, false)
    else
      var a := tries[0];
      if !Evictable(m, a.k, slot) then Scan(m, slot, bytes, tries[1..], total, recycle)
      else
        var h := m[a.k];
        var m1, total1 := m[a.k := LeftWith(h, h.datacnt - Lost(h, a.got))], total + h.size * Lost(h, a.got);
        var took := recycle && Stealable(h, a, bytes);
        if bytes >= 0 && total1 >= bytes then (m1, took)
        else var rest := Scan(m1, slot, bytes, tries[1..], total1, recycle && !took); (rest.0, took || rest.1)
  }

  /** Between `m` and `m'`, unreferenced headers of one type may have lost buffers; nothing else has changed. */
  ghost predicate Shed(m: map<nat, Hdr>, m': map<nat, Hdr>, ty: Ty) {
    && m'.Keys == m.Keys
    && forall j :: j in m ==>
         m'[j] == m[j] || (Listed(m[j]) && m[j].io == Idle && m[j].ty == ty && (m[j].st == Mru || m[j].st == Mfu) &&
             m'[j].datacnt < m[j].datacnt
                           && m'[j] == LeftWith(m[j], m'[j].datacnt))
  }

  lemma {:induction false} ScanSheds(m: map<nat, Hdr>, slot: Slot, bytes: int, tries: seq<Try>, total: int,
                                     recycle: bool)
    requires slot.st == Mru || slot.st == Mfu
    requires forall j :: j in m && SlotOf(m[j]) == slot ==> m[j].datacnt > 0
    ensures Shed(m, Scan(m, slot, bytes, tries, total, recycle).0, slot.ty)
    decreases |tries|
  {
    if tries != [] {
      var a := tries[0];
      if !Evictable(m, a.k, slot) {
        ScanSheds(m, slot, bytes, tries[1..], total, recycle);
      } else {
        hide Shed;
        var h := m[a.k];
        var m1, total1 := m[a.k := LeftWith(h, h.datacnt - Lost(h, a.got))], total + h.size * Lost(h, a.got);
        var took := recycle && Stealable(h, a, bytes);
        ScanSheds(m1, slot, bytes, tries[1..], total1, recycle && !took);
        ShedNothing(m1, slot.ty);
        ShedMore(m, m1, m1, slot, a.k, h.datacnt - Lost(h, a.got));
        ShedMore(m, m1, Scan(m1, slot, bytes, tries[1..], total1, recycle && !took).0, slot, a.k,
            h.datacnt - Lost(h, a.got));
      }
    } else {
      ShedNothing(m, slot.ty);
    }
  }

  lemma ShedNothing(m: map<nat, Hdr>, ty: Ty)
    ensures Shed(m, m, ty)
  {
  }

  lemma ShedMore(m: map<nat, Hdr>, m1: map<nat, Hdr>, m2: map<nat, Hdr>, slot: Slot, k: nat, d: nat)
    requires (slot.st == Mru || slot.st == Mfu) && Evictable(m, k, slot) && 0 < m[k].datacnt && d <= m[k].datacnt
    requires m1 == m[k := LeftWith(m[k], d)] && Shed(m1, m2, slot.ty)
    ensures Shed(m, m2, slot.ty)
  {
  }

  lemma ShedTwice(m: map<nat, Hdr>, m1: map<nat, Hdr>, m2: map<nat, Hdr>, ty: Ty)
    requires Shed(m, m1, ty) && Shed(m1, m2, ty)
    ensures Shed(m, m2, ty)
  {
  }
}
