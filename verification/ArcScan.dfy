/** What the scan of arc_evict in oss/arc/arc.c comes to: which headers lose how many buffers, when it stops, and when
    it keeps a block for its caller. */
module ArcScan {
  import opened ArcTargets
  import opened ArcBooks

  /** How many buffers of header `k` can be locked when the scan comes to it, all in all. */
  function Gots(tries: seq<Try>, k: nat): nat {
    if tries == [] then 0 else (if tries[0].k == k then tries[0].got else 0) + Gots(tries[1..], k)
  }

  /** A header on the list that nobody refers to, with no I/O in progress, loses as many buffers as could be locked;
      with the last of them it becomes a ghost of its state. All others stay as they are. */
  predicate Robbed(h: Hdr, h': Hdr, slot: Slot, got: nat) {
    if h.st == slot.st && h.ty == slot.ty && h.refcnt == 0 && h.io == Idle then
      if got < h.datacnt then h' == h.(datacnt := h.datacnt - got)
      else if slot.st == Mru then h' == h.(datacnt := 0, st := MruGhost)
      else h' == h.(datacnt := 0, st := MfuGhost)
    else h' == h
  }

  ghost predicate AllRobbed(m: map<nat, Hdr>, m': map<nat, Hdr>, slot: Slot, tries: seq<Try>) {
    m'.Keys == m.Keys && forall j :: j in m ==> Robbed(m[j], m'[j], slot, Gots(tries, j))
  }

  /** Headers on the list have buffers. */
  ghost predicate Stocked(m: map<nat, Hdr>, slot: Slot) {
    (slot.st == Mru || slot.st == Mfu) && forall j :: j in m && m[j].st == slot.st ==> m[j].datacnt > 0
  }

  /** The scan without a limit. */
  ghost function All(m: map<nat, Hdr>, slot: Slot, tries: seq<Try>): map<nat, Hdr> {
    Scan(m, slot, -1, tries, 0, false).0
  }

  lemma {:induction false} NoLimit(m: map<nat, Hdr>, slot: Slot, tries: seq<Try>, total: int, recycle: bool)
    ensures Scan(m, slot, -1, tries, total, recycle).0 == All(m, slot, tries)
    decreases |tries|
  {
    if tries != [] {
      var a := tries[0];
      if Evictable(m, a.k, slot) {
        var h := m[a.k];
        var m1, total1 := m[a.k := LeftWith(h, h.datacnt - Lost(h, a.got))], total + h.size * Lost(h, a.got);
        NoLimit(m1, slot, tries[1..], total1, recycle && !Stealable(h, a, -1));
        NoLimit(m1, slot, tries[1..], 0 + h.size * Lost(h, a.got), false);
      } else {
        NoLimit(m, slot, tries[1..], total, recycle);
      }
    }
  }

  /** The headers when the scan has come to one of them. */
  function Next(m: map<nat, Hdr>, slot: Slot, a: Try): map<nat, Hdr> {
    if Evictable(m, a.k, slot) then m[a.k := LeftWith(m[a.k], m[a.k].datacnt - Lost(m[a.k], a.got))] else m
  }

  lemma AllStep(m: map<nat, Hdr>, slot: Slot, tries: seq<Try>)
    requires tries != []
    ensures All(m, slot, tries) == All(Next(m, slot, tries[0]), slot, tries[1..])
  {
    var a := tries[0];
    if Evictable(m, a.k, slot) {
      NoLimit(Next(m, slot, a), slot, tries[1..], 0 + m[a.k].size * Lost(m[a.k], a.got), false);
    }
  }

  lemma NextStocked(m: map<nat, Hdr>, slot: Slot, a: Try)
    requires Stocked(m, slot)
    ensures Stocked(Next(m, slot, a), slot) && Next(m, slot, a).Keys == m.Keys
  {
  }

  /** Without a limit, exactly what can be locked goes. */
  lemma {:induction false} RobsAll(m: map<nat, Hdr>, slot: Slot, tries: seq<Try>)
    requires Stocked(m, slot)
    ensures AllRobbed(m, All(m, slot, tries), slot, tries)
    decreases |tries|
  {
    if tries == [] {
      assert All(m, slot, tries) == m;
    } else {
      var m1 := Next(m, slot, tries[0]);
      AllStep(m, slot, tries);
      NextStocked(m, slot, tries[0]);
      RobsAll(m1, slot, tries[1..]);
      hide All;
    }
  }

  /** The bytes the state has lost. */
  ghost function Loss(m: map<nat, Hdr>, m': map<nat, Hdr>, st: St): int {
    Sum(m, StateOf(st)) - Sum(m', StateOf(st))
  }

  lemma NextLoss(m: map<nat, Hdr>, slot: Slot, a: Try)
    requires Stocked(m, slot)
    ensures Loss(m, Next(m, slot, a), slot.st) ==
            if Evictable(m, a.k, slot) then m[a.k].size * Lost(m[a.k], a.got) else 0
  {
    if Evictable(m, a.k, slot) {
      var h := m[a.k];
      SumSet(m, a.k, Next(m, slot, a)[a.k], StateOf(slot.st));
      Difference(h.size, h.datacnt, Lost(h, a.got));
      hide Sum;
    }
  }

  lemma Difference(x: int, y: int, z: int)
    ensures x * y - x * (y - z) == x * z
  {
  }

  /** The scan comes to a header on the list from which it can keep a block of the size asked for. */
  ghost predicate Offers(m: map<nat, Hdr>, slot: Slot, bytes: int, tries: seq<Try>, i: nat)
    requires i < |tries|
  {
    var m', a := All(m, slot, tries[..i]), tries[i];
    Evictable(m', a.k, slot) && m'[a.k].size == bytes && !a.writing && a.got > 0
  }

  /** The scan of arc_evict for `bytes`, when `total` bytes have gone before, treats the first `n` headers it comes
      to as if there were no limit, and stops when the state has lost that much; not earlier, and unless there is
      nothing left to try, not later. It keeps a block for its caller, if that is wanted, exactly when one of them
      offers it. */
  lemma {:induction false} Stops(m: map<nat, Hdr>, slot: Slot, bytes: int, tries: seq<Try>, total: int, recycle: bool)
    returns (n: nat)
    requires Stocked(m, slot)
    ensures n <= |tries| && Scan(m, slot, bytes, tries, total, recycle).0 == All(m, slot, tries[..n])
    ensures n < |tries| ==> bytes >= 0 && total + Loss(m, All(m, slot, tries[..n]), slot.st) >= bytes
    ensures 0 <= total < bytes ==>
              forall i :: 0 <= i < n ==> total + Loss(m, All(m, slot, tries[..i]), slot.st) < bytes
    ensures Scan(m, slot, bytes, tries, total, recycle).1 <==>
            recycle && exists i :: 0 <= i < n && Offers(m, slot, bytes, tries, i)
    decreases |tries|
  {
    if tries == [] {
      n := 0;
    } else {
      hide Scan, All, Loss, Next, Offers;
      var rest, m1 := tries[1..], Next(m, slot, tries[0]);
      var took, done := ScanOnce(m, slot, bytes, tries, total, recycle);
      var total1 := total + Loss(m, m1, slot.st);
      NextStocked(m, slot, tries[0]);
      Nothing(m, slot);
      assert tries[..0] == [] && rest[..0] == [];
      forall i | 1 <= i <= |tries| ensures All(m, slot, tries[..i]) == All(m1, slot, rest[..i - 1]) {
        Shift(m, slot, tries, i);
      }
      if done {
        n := 1;
        Nothing(m1, slot);
      } else {
        n := Stops(m1, slot, bytes, rest, total1, recycle && !took);
        OffersShift(m, slot, bytes, tries, n, m1);
        forall i | 0 <= i <= n
          ensures Loss(m, All(m, slot, tries[..i + 1]), slot.st) ==
                  Loss(m, m1, slot.st) + Loss(m1, All(m1, slot, rest[..i]), slot.st)
        {
          Adds(m, m1, All(m1, slot, rest[..i]), slot.st);
        }
        n := n + 1;
      }
    }
  }

  /** One header of the scan. */
  lemma ScanOnce(m: map<nat, Hdr>, slot: Slot, bytes: int, tries: seq<Try>, total: int, recycle: bool)
    returns (took: bool, done: bool)
    requires Stocked(m, slot) && tries != []
    ensures took <==> recycle && Offers(m, slot, bytes, tries, 0)
    ensures var m1 := Next(m, slot, tries[0]);
            var total1 := total + Loss(m, m1, slot.st);
            && total1 >= total && Loss(m, m, slot.st) == 0
            && (done ==> bytes >= 0 && total1 >= bytes) && (!done && 0 <= total < bytes ==> total1 < bytes)
            && (done ==> Scan(m, slot, bytes, tries, total, recycle) == (m1, took))
            && (!done ==>
                  var rest := Scan(m1, slot, bytes, tries[1..], total1, recycle && !took);
                  Scan(m, slot, bytes, tries, total, recycle) == (rest.0, took || rest.1))
  {
    var a := tries[0];
    NextLoss(m, slot, a);
    assert tries[..0] == [] && All(m, slot, []) == m;
    took := recycle && Evictable(m, a.k, slot) && Stealable(m[a.k], a, bytes);
    done := Evictable(m, a.k, slot) && bytes >= 0 && total + m[a.k].size * Lost(m[a.k], a.got) >= bytes;
  }

  lemma Nothing(m: map<nat, Hdr>, slot: Slot)
    ensures All(m, slot, []) == m
  {
  }

  lemma Adds(m: map<nat, Hdr>, m1: map<nat, Hdr>, m2: map<nat, Hdr>, st: St)
    ensures Loss(m, m2, st) == Loss(m, m1, st) + Loss(m1, m2, st)
  {
  }

  lemma Shift(m: map<nat, Hdr>, slot: Slot, tries: seq<Try>, i: nat)
    requires 1 <= i <= |tries|
    ensures All(m, slot, tries[..i]) == All(Next(m, slot, tries[0]), slot, tries[1..][..i - 1])
  {
    AllStep(m, slot, tries[..i]);
    assert tries[..i][1..] == tries[1..][..i - 1];
  }

  lemma OffersShift(m: map<nat, Hdr>, slot: Slot, bytes: int, tries: seq<Try>, n: nat, m1: map<nat, Hdr>)
    requires tries != [] && m1 == Next(m, slot, tries[0]) && n < |tries|
    ensures (exists i :: 0 <= i < n + 1 && Offers(m, slot, bytes, tries, i)) <==>
            Offers(m, slot, bytes, tries, 0) || exists i :: 0 <= i < n && Offers(m1, slot, bytes, tries[1..], i)
  {
    forall i | 0 <= i < n ensures Offers(m, slot, bytes, tries, i + 1) <==> Offers(m1, slot, bytes, tries[1..], i) {
      Shift(m, slot, tries, i + 1);
    }
    hide Offers;
    if i :| 0 <= i < n + 1 && Offers(m, slot, bytes, tries, i) {
      assert i > 0 ==> Offers(m1, slot, bytes, tries[1..], i - 1);
    }
  }
}
