/** How the operations of oss/arc/arc.c move headers between its states, and what they leave of I/O in progress: as
    rules on the headers before and after a step, and what follows from them for whole runs. */
module ArcMoves {
  import opened ArcTargets
  import opened ArcBooks

  /** A block that is neither being read nor being written, and cached. */
  predicate Cached(h: Hdr) {
    (h.st == Mru || h.st == Mfu) && h.io == Idle
  }

  datatype Op =
    | Allocated(k: nat, bytes: nat, ty: Ty, tries: seq<Try>)
    | Missed(k: nat, bytes: nat, ty: Ty, prefetch: bool, tries: seq<Try>)
    | Hit(k: nat, available: bool, prefetch: bool, later: bool, tries: seq<Try>)
    | Touched(k: nat, prefetch: bool, later: bool)
    | Joined(k: nat)
    | GhostHit(k: nat, prefetch: bool, tries: seq<Try>)
    | ReadOver(k: nat, ok: bool, each: seq<seq<Try>>)
    | WriteBegun(k: nat)
    | WriteOver(k: nat, cached: bool)
    | Overwritten(k: nat)
    | Freed(k: nat)
    | Dropped(k: nat, callback: bool)
    | Evicted(st: St, limit: int, ty: Ty, tries: seq<Try>)
    | Forgotten(k: nat)
    | BufferEvicted(k: nat)
    | Released(k: nat, n: nat)
    | L2Written(k: nat)
    | L2Evicted(k: nat)
    | L2Failed(k: nat)
    | Constructed(header: bool)
    | Destructed(header: bool)
    | Consumed(space: nat)
    | Returned(space: nat)

  /** An operation on a header. */
  predicate HasK(op: Op) {
    && !op.Allocated? && !op.Missed? && !op.Evicted?
    && !op.Constructed? && !op.Destructed? && !op.Consumed? && !op.Returned?
  }

  predicate At(op: Op, k: nat) {
    HasK(op) && op.k == k
  }

  /** Operations of readers, on I/O, on buffers that are given up, and on ghosts and the L2 cache. */
  predicate ForRead(op: Op) {
    op.Hit? || op.Touched? || op.Joined? || op.GhostHit?
  }

  predicate ForIo(op: Op) {
    op.ReadOver? || op.WriteBegun? || op.WriteOver? || op.Overwritten?
  }

  predicate ForBuf(op: Op) {
    op.Freed? || op.Dropped? || op.Released?
  }

  predicate ForRest(op: Op) {
    op.Forgotten? || op.BufferEvicted? || op.L2Written? || op.L2Evicted? || op.L2Failed?
  }

  // ----- I/O in progress -----

  /** How many of the operations wait for `k`. */
  function Waiting(ops: seq<Op>, k: nat): nat {
    if ops == [] then 0 else Waiting(ops[..|ops|-1], k) + if Awaits(ops[|ops|-1], k) then 1 else 0
  }

  /** An operation that ends such I/O. */
  predicate Over(op: Op, io: Io) {
    (io == Writing && op.WriteOver?) || (io == Reading && op.ReadOver?)
  }

  predicate Ends(op: Op, k: nat, io: Io) {
    Over(op, io) && op.k == k
  }

  /** An operation that gives up the buffer of `k`; one that waits for it. */
  predicate Lets(op: Op, k: nat) {
    (op.Freed? && op.k == k) || (op.Dropped? && op.k == k && !op.callback)
  }

  predicate Awaits(op: Op, k: nat) {
    op.Joined? && op.k == k
  }

  /** The references of header `k` after an operation during its I/O. */
  function Refs(h: Hdr, k: nat, op: Op): nat {
    if h.io == Reading && Awaits(op, k) then h.refcnt + 1
    else if h.io == Writing && Lets(op, k) && h.refcnt > 0 then h.refcnt - 1
    else h.refcnt
  }

  /** The I/O of header `k`, which was `h`, is still in progress. */
  ghost predicate Underway(h: Hdr, m': map<nat, Hdr>, k: nat, op: Op) {
    k in m' && m'[k].io == h.io && m'[k].st == h.st && m'[k].refcnt == Refs(h, k, op)
  }

  /** What an operation leaves of the headers with I/O in progress, unless it ends it. */
  ghost predicate Underways(m: map<nat, Hdr>, m': map<nat, Hdr>, op: Op) {
    forall k :: k in m && m[k].io != Idle && !Ends(op, k, m[k].io) ==> Underway(m[k], m', k, op)
  }

  // ----- states -----

  /** A header that eviction has come to: it was cached, and nobody referred to it. It has lost buffers, and if those
      were the last it is a ghost of the list it was on. */
  ghost predicate Evictee(h: Hdr, h': Hdr) {
    && Cached(h) && h.refcnt == 0 && h'.datacnt < h.datacnt && h' == h.(st := h'.st, datacnt := h'.datacnt)
    && (h'.datacnt > 0 ==> h'.st == h.st)
    && (h'.datacnt == 0 ==> (h.st == Mru ==> h'.st == MruGhost) && (h.st == Mfu ==> h'.st == MfuGhost))
  }

  /** All headers but `k` are as they were, or eviction has come to them. */
  ghost predicate Beside(m: map<nat, Hdr>, m': map<nat, Hdr>, k: int) {
    forall j :: j in m && j != k ==> j in m' && (m'[j] == m[j] || Evictee(m[j], m'[j]))
  }

  /** Headers that appear are anonymous. */
  ghost predicate Newcomers(m: map<nat, Hdr>, m': map<nat, Hdr>) {
    forall j :: j in m' && j !in m ==> m'[j].st == Anon
  }

  /** The operation is an access to the block of header `k`, cached or known as a ghost. */
  predicate Accesses(h: Hdr, k: nat, op: Op) {
    || (op.Hit? && op.k == k && Cached(h) && (op.available ==> h.refcnt < h.datacnt))
    || (op.Touched? && op.k == k && Cached(h))
    || (op.GhostHit? && op.k == k && Ghost(h.st))
  }

  predicate IsPrefetch(op: Op)
    requires op.Hit? || op.Touched? || op.GhostHit?
  {
    op.prefetch
  }

  /** The accesses that make a block frequently used: those on demand, to a cached block only after some time; and any
      to a block that is in the L2 cache only. */
  predicate Promotes(h: Hdr, k: nat, op: Op) {
    Accesses(h, k, op) && (h.st == L2cOnly || (!IsPrefetch(op) && (op.GhostHit? || op.later)))
  }

  /** The only buffer of header `k` is released. */
  predicate Releases(m: map<nat, Hdr>, k: nat, op: Op)
    requires k in m
  {
    var h := m[k];
    op.Released? && op.k == k && h.refcnt > 0 && h.io == Idle && h.datacnt == 1 && op.n !in m
  }

  /** What takes a block off the MFU list and its ghosts: release of its only buffer, a failed read, a prefetch that
      finds it as a ghost, and being forgotten. */
  predicate Demotes(m: map<nat, Hdr>, k: nat, op: Op)
    requires k in m
  {
    var h := m[k];
    || Releases(m, k, op)
    || (op.ReadOver? && op.k == k && h.io == Reading && !op.ok)
    || (op.GhostHit? && op.k == k && h.st == MfuGhost && op.prefetch)
    || (op.Forgotten? && op.k == k && h.st == MfuGhost && h.l2)
  }

  /** On the MFU list, or a ghost of it; and the same for the MRU list. */
  predicate Frequent(st: St) {
    st == Mfu || st == MfuGhost
  }

  predicate Recent(st: St) {
    st == Mru || st == MruGhost
  }

  /** The state of header `k`, which was `h`, after an operation on it. An access leaves it on the MFU list if it is one
      that promotes, or if it was there, and otherwise on the MRU list. Apart from that its state changes with the last
      buffer given up, to a ghost of its list; when it is forgotten by all but the L2 cache; when its only buffer is
      released; and at the end of I/O. */
  ghost predicate Follows(m: map<nat, Hdr>, h': Hdr, k: nat, op: Op)
    requires k in m
  {
    var h := m[k];
    if Accesses(h, k, op) then h'.st == if Promotes(h, k, op) || h.st == Mfu then Mfu else Mru
    else if op.ReadOver? && op.k == k && h.io == Reading then
      h'.st == if !op.ok then Anon else if h.st == Anon then Mru else h.st
    else if op.WriteOver? && op.k == k && h.io == Writing then h.st == Anon && h'.st == if op.cached then Mru else Anon
    else if op.Forgotten? && op.k == k && (h.st == MruGhost || h.st == MfuGhost) then h.l2 && h'.st == L2cOnly
    else if Releases(m, k, op) then h'.st == Anon
    else h'.st == h.st || Evictee(h, h')
  }

  /** Which operations make a header disappear: the last reference to an anonymous one, being forgotten, overwritten,
      read in vain, or evicted from the L2 cache when it is nowhere else. */
  predicate Vanishes(h: Hdr, k: nat, op: Op) {
    || (op.Freed? && op.k == k && h.st == Anon && h.refcnt == 1 && h.io == Idle)
    || (op.Dropped? && op.k == k && h.st == Anon && h.refcnt == 1 && h.io == Idle && !op.callback)
    || (op.Forgotten? && op.k == k && (h.st == MruGhost || h.st == MfuGhost) && !h.l2)
    || (op.Overwritten? && op.k == k && h.st != Anon && h.refcnt == 0 && h.io == Idle)
    || (op.ReadOver? && op.k == k && h.io == Reading && !op.ok && h.refcnt == 0)
    || (op.L2Evicted? && op.k == k && h.st == L2cOnly && h.l2)
  }

  /** What an operation does to the header it is on. */
  ghost predicate Own(m: map<nat, Hdr>, m': map<nat, Hdr>, k: nat, op: Op)
    requires k in m
  {
    var h := m[k];
    && (k in m' <==> !Vanishes(h, k, op)) && (k in m' ==> Follows(m, m'[k], k, op))
    && (h.io != Idle && !Over(op, h.io) ==> Underway(h, m', k, op))
  }

  /** What every operation does to all headers. */
  ghost predicate Lawful(m: map<nat, Hdr>, m': map<nat, Hdr>, op: Op) {
    && Newcomers(m, m')
    && forall k :: k in m ==> (k in m' <==> !Vanishes(m[k], k, op)) && (k in m' ==> Follows(m, m'[k], k, op))
  }

  /** A header the operation is not on. */
  lemma OneBeside(m: map<nat, Hdr>, m': map<nat, Hdr>, k: nat, op: Op)
    requires k in m && !At(op, k) && k in m' && (m'[k] == m[k] || Evictee(m[k], m'[k]))
    ensures !Vanishes(m[k], k, op) && Follows(m, m'[k], k, op) && !Ends(op, k, m[k].io)
    ensures m[k].io != Idle ==> Underway(m[k], m', k, op)
  {
  }

  lemma AllBeside(m: map<nat, Hdr>, m': map<nat, Hdr>, op: Op)
    requires Beside(m, m', -1) && Newcomers(m, m') && !HasK(op)
    ensures Lawful(m, m', op) && Underways(m, m', op)
  {
    hide Vanishes, Follows, Underway, Evictee, HasK, Newcomers, Ends;
    forall k | k in m
      ensures k in m' && !Vanishes(m[k], k, op) && Follows(m, m'[k], k, op)
      ensures m[k].io != Idle ==> Underway(m[k], m', k, op)
    {
      OneBeside(m, m', k, op);
    }
  }

  lemma OwnAndBeside(m: map<nat, Hdr>, m': map<nat, Hdr>, op: Op)
    requires HasK(op)
    requires op.k in m && Beside(m, m', op.k) && Newcomers(m, m') && Own(m, m', op.k, op)
    ensures Lawful(m, m', op) && Underways(m, m', op)
  {
    var k0 := op.k;
    hide Vanishes, Follows, Underway, Evictee, HasK, Newcomers, Ends;
    forall k | k in m
      ensures (k in m' <==> !Vanishes(m[k], k, op)) && (k in m' ==> Follows(m, m'[k], k, op))
      ensures m[k].io != Idle && !Ends(op, k, m[k].io) ==> Underway(m[k], m', k, op)
    {
      if k != k0 { OneBeside(m, m', k, op); }
    }
  }

  lemma NobodyThere(m: map<nat, Hdr>, op: Op)
    requires HasK(op)
    requires op.k !in m
    ensures Lawful(m, m, op) && Underways(m, m, op)
  {
    hide Vanishes, Follows, Underway, Evictee, HasK, Ends;
    forall k | k in m
      ensures !Vanishes(m[k], k, op) && Follows(m, m[k], k, op)
      ensures m[k].io != Idle ==> Underway(m[k], m, k, op)
    {
      OneBeside(m, m, k, op);
    }
  }

  /** Only one header has changed, or gone. */
  lemma JustOne(m: map<nat, Hdr>, m': map<nat, Hdr>, k: nat)
    requires k in m && (m' == m - {k} || (k in m' && m' == m[k := m'[k]]))
    ensures Beside(m, m', k) && Newcomers(m, m')
  {
  }

  lemma OneAndNew(m: map<nat, Hdr>, m': map<nat, Hdr>, k: nat, n: nat)
    requires k in m && k in m'
    requires m' == m[k := m'[k]] || (n !in m && n in m' && m' == m[k := m'[k]][n := m'[n]] && m'[n].st == Anon)
    ensures Beside(m, m', k) && Newcomers(m, m')
  {
  }

  /** A cached header that is left with a buffer less. */
  lemma OneBufferLess(h: Hdr)
    requires Cached(h) && h.refcnt < h.datacnt
    ensures var h' := LeftWith(h, h.datacnt - 1); h'.io == h.io && (h'.st == h.st || Evictee(h, h'))
  {
  }

  /** What a scan sheds, it evicts. */
  lemma ShedBeside(m: map<nat, Hdr>, m': map<nat, Hdr>, ty: Ty)
    requires Shed(m, m', ty)
    ensures Beside(m, m', -1) && Newcomers(m, m')
  {
  }

  lemma SwapBeside(m: map<nat, Hdr>, m': map<nat, Hdr>, ty: Ty, k: nat)
    requires k in m && k in m' && Shed(m, m'[k := m[k]], ty)
    ensures Beside(m, m', k) && Newcomers(m, m')
  {
    var m1 := m'[k := m[k]];
    assert forall j :: j in m' ==> j in m1;
    ShedBeside(m, m1, ty);
  }

  lemma RestBeside(m: map<nat, Hdr>, m': map<nat, Hdr>, ty: Ty, k: nat)
    requires k in m && Shed(m - {k}, m' - {k}, ty)
    ensures Beside(m, m', k) && Newcomers(m, m')
  {
    ShedBeside(m - {k}, m' - {k}, ty);
    forall j | j in m && j != k ensures j in m' && (m'[j] == m[j] || Evictee(m[j], m'[j])) {
      assert j in m - {k};
    }
    assert (m' - {k}).Keys == (m - {k}).Keys;
    assert forall j :: j in m' ==> j == k || j in (m' - {k}).Keys;
  }

  lemma NewBeside(m: map<nat, Hdr>, m': map<nat, Hdr>, ty: Ty, k: nat)
    requires k !in m && Shed(m, m' - {k}, ty) && (k in m' ==> m'[k].st == Anon)
    ensures Beside(m, m', -1) && Newcomers(m, m')
  {
    ShedBeside(m, m' - {k}, ty);
    forall j | j in m ensures j in m' && (m'[j] == m[j] || Evictee(m[j], m'[j])) {
      assert j in m' - {k};
    }
    forall j | j in m' && j !in m ensures m'[j].st == Anon {
      assert j != k ==> j in m' - {k};
    }
  }

  lemma ShedKeys(m: map<nat, Hdr>, m': map<nat, Hdr>, ty: Ty)
    requires Shed(m, m', ty)
    ensures m'.Keys == m.Keys
  {
  }

  // ----- whole runs -----

  /** The headers before and after each of the operations of a run. */
  ghost predicate Trace(ms: seq<map<nat, Hdr>>, ops: seq<Op>) {
    |ms| == |ops| + 1 && forall i :: 0 <= i < |ops| ==> Lawful(ms[i], ms[i + 1], ops[i])
  }

  /** Header `k` is there all the time. */
  ghost predicate Stays(ms: seq<map<nat, Hdr>>, k: nat) {
    forall i :: 0 <= i < |ms| ==> k in ms[i]
  }

  /** The block was on the MFU side to begin with, or has been promoted by operation `i - 1`. */
  ghost predicate PromotedAt(ms: seq<map<nat, Hdr>>, ops: seq<Op>, k: nat, i: nat)
    requires |ms| == |ops| + 1 && Stays(ms, k) && i <= |ops|
  {
    if i == 0 then Frequent(ms[0][k].st) else Promotes(ms[i - 1][k], k, ops[i - 1])
  }

  ghost predicate NeverDemoted(ms: seq<map<nat, Hdr>>, ops: seq<Op>, k: nat, i: nat)
    requires |ms| == |ops| + 1 && Stays(ms, k) && i <= |ops|
  {
    forall j :: i <= j < |ops| ==> !Demotes(ms[j], k, ops[j])
  }

  lemma StepSide(m: map<nat, Hdr>, m': map<nat, Hdr>, k: nat, op: Op)
    requires Lawful(m, m', op) && k in m && k in m'
    ensures Frequent(m'[k].st) <==> Promotes(m[k], k, op) || (Frequent(m[k].st) && !Demotes(m, k, op))
  {
    assert Follows(m, m'[k], k, op);
  }

  /** In every run, a block is on the MFU side exactly when it has been promoted, or was there to begin with, and
      nothing has demoted it since. */
  lemma {:induction false} FrequentSince(ms: seq<map<nat, Hdr>>, ops: seq<Op>, k: nat)
    requires Trace(ms, ops) && Stays(ms, k)
    ensures Frequent(ms[|ops|][k].st) <==>
            exists i :: 0 <= i <= |ops| && PromotedAt(ms, ops, k, i) && NeverDemoted(ms, ops, k, i)
    decreases |ops|
  {
    hide Promotes, Demotes, Lawful, Frequent;
    if ops == [] {
      assert PromotedAt(ms, ops, k, 0) <==> Frequent(ms[0][k].st);
      assert NeverDemoted(ms, ops, k, 0);
    } else {
      var n := |ops| - 1;
      var ms1, ops1 := ms[..n + 1], ops[..n];
      assert Trace(ms1, ops1) && Stays(ms1, k);
      FrequentSince(ms1, ops1, k);
      StepSide(ms[n], ms[n + 1], k, ops[n]);
      Longer(ms, ops, k, n);
      assert ms1[n] == ms[n];
      assert PromotedAt(ms, ops, k, n + 1) <==> Promotes(ms[n][k], k, ops[n]);
      assert NeverDemoted(ms, ops, k, n + 1);
      if i :| 0 <= i <= |ops| && PromotedAt(ms, ops, k, i) && NeverDemoted(ms, ops, k, i) {
        assert i <= n ==> PromotedAt(ms1, ops1, k, i) && NeverDemoted(ms1, ops1, k, i);
      } else if Frequent(ms[n][k].st) && !Demotes(ms[n], k, ops[n]) {
        var i :| 0 <= i <= n && PromotedAt(ms1, ops1, k, i) && NeverDemoted(ms1, ops1, k, i);
        assert PromotedAt(ms, ops, k, i) && NeverDemoted(ms, ops, k, i);
      }
    }
  }

  /** One operation more. */
  lemma Longer(ms: seq<map<nat, Hdr>>, ops: seq<Op>, k: nat, n: nat)
    requires |ms| == |ops| + 1 && Stays(ms, k) && |ops| == n + 1 && Stays(ms[..n + 1], k)
    ensures forall i :: 0 <= i <= n ==>
              && (PromotedAt(ms, ops, k, i) <==> PromotedAt(ms[..n + 1], ops[..n], k, i))
              && (NeverDemoted(ms, ops, k, i) <==>
                  NeverDemoted(ms[..n + 1], ops[..n], k, i) && !Demotes(ms[n], k, ops[n]))
  {
    hide Promotes, Demotes, Frequent;
    var ms1, ops1 := ms[..n + 1], ops[..n];
    assert forall j :: 0 <= j < n ==> ops1[j] == ops[j] && ms1[j] == ms[j];
    forall i | 0 <= i <= n
      ensures PromotedAt(ms, ops, k, i) <==> PromotedAt(ms1, ops1, k, i)
      ensures NeverDemoted(ms, ops, k, i) <==> NeverDemoted(ms1, ops1, k, i) && !Demotes(ms[n], k, ops[n])
    {
      if NeverDemoted(ms1, ops1, k, i) && !Demotes(ms[n], k, ops[n]) {
        forall j | i <= j < |ops| ensures !Demotes(ms[j], k, ops[j]) {
          assert j < n ==> !Demotes(ms1[j], k, ops1[j]);
        }
      }
      if NeverDemoted(ms, ops, k, i) {
        forall j | i <= j < |ops1| ensures !Demotes(ms1[j], k, ops1[j]) {
          assert !Demotes(ms[j], k, ops[j]);
        }
      }
    }
  }

  /** A header nobody operates on stays, and on its side: eviction by others makes it a ghost of the list it is on, and
      nothing else happens to it. */
  lemma {:induction false} LeftAlone(ms: seq<map<nat, Hdr>>, ops: seq<Op>, k: nat)
    requires Trace(ms, ops) && k in ms[0] && forall i :: 0 <= i < |ops| ==> !At(ops[i], k)
    ensures k in ms[|ops|]
    ensures var st, st' := ms[0][k].st, ms[|ops|][k].st;
            st' == st || (st == Mru && st' == MruGhost) || (st == Mfu && st' == MfuGhost)
    decreases |ops|
  {
    if ops != [] {
      var n := |ops| - 1;
      assert Trace(ms[..n + 1], ops[..n]);
      LeftAlone(ms[..n + 1], ops[..n], k);
      assert Lawful(ms[n], ms[n + 1], ops[n]) && !At(ops[n], k);
      assert ms[..n + 1][n] == ms[n];
    }
  }
}
