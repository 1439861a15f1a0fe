/** The cache of oss/arc/arc.c: headers, the lists and byte counters of the six states, and the space totals. Every
    method is a stretch of code that runs under the header's hash lock. */
module ArcCache {
  import opened ArcTargets
  import opened ArcBooks
  import opened ArcMoves
  import opened ArcScan

  /** What holds of a header between operations. Ghosts have neither buffers nor references, all others have
      buffers. While the block is read or written there is one buffer, and those who wait for a read have their
      references already. Otherwise there are at least as many buffers as references, and just as many once an
      anonymous header has more than one. */
  predicate Sound(h: Hdr) {
    && 0 < h.size < 0x8000_0000
    && (if Ghost(h.st) then h.refcnt == 0 && h.datacnt == 0 && h.io == Idle else h.datacnt > 0)
    && (h.io == Idle ==> h.refcnt <= h.datacnt && (h.st == Anon && h.datacnt > 1 ==> h.refcnt == h.datacnt))
    && (h.io != Idle ==> h.datacnt == 1)
    && (h.io == Writing ==> h.st == Anon && h.refcnt <= 1)
  }

  datatype Space = DataSpace | HdrSpace | L2HdrSpace | OtherSpace

  class Cache {
    const hdrBytes: nat
    const bufBytes: nat
    const l2HdrBytes: nat
    var hdrs: map<nat, Hdr>
    var lists: map<Slot, set<nat>>
    var lsize: map<Slot, int>
    var size: map<St, int>
    var dataSize: int
    var hdrSize: int
    var l2HdrSize: int
    var otherSize: int
    var metaUsed: int
    var arcSize: int
    var t: Targets
    var noGrow: bool
    var metaLimit: int
    /** Header space that is constructed: of headers that are free, and of buffers. */
    var spare: int
    var bufSpace: int

    /** An empty cache with targets in bounds. */
    constructor (hdrBytes: nat, bufBytes: nat, l2HdrBytes: nat, t: Targets, metaLimit: int)
      requires InBounds(t)
      ensures Valid() && hdrs == map[] && this.t == t && otherSize == spare == bufSpace == 0
    {
      this.hdrBytes, this.bufBytes, this.l2HdrBytes, this.t, this.metaLimit := hdrBytes, bufBytes, l2HdrBytes, t,
          metaLimit;
      noGrow, spare, bufSpace := false, 0, 0;
      hdrs := map[];
      lists := map slot | slot in AllSlots() :: {};
      lsize := map slot | slot in AllSlots() :: 0;
      size := map st | st in AllStates() :: 0;
      dataSize, hdrSize, l2HdrSize, otherSize, metaUsed, arcSize := 0, 0, 0, 0, 0, 0;
      new;
      forall slot: Slot ensures slot in lists && slot in lsize {
        Everything(slot);
      }
      forall st: St ensures st in size {
        Everything(Slot(st, Data));
      }
    }

    ghost function Y(): Tally
      reads this
    {
      Tally(lists, lsize, size)
    }

    ghost predicate Books()
      reads this
      ensures Books() ==> Keyed(Y())
    {
      Tallied(hdrs, Y()) && arcSize == dataSize + hdrSize + l2HdrSize + otherSize
    }

    /** Data blocks that are allocated but not, or no longer, counted in a state; and those of them that are
        metadata. Between operations there are none. */
    ghost function Owed(): int
      requires Keyed(Y())
      reads this
    {
      dataSize - ResidentSize(Y())
    }

    ghost function OwedMeta(): int
      reads this
    {
      metaUsed - (hdrSize + l2HdrSize + otherSize) - Sum(hdrs, MetaData)
    }

    /** Space beyond what the headers account for: of the L2 cache, of headers and buffers, and all other. */
    ghost function Beyond(): (b: (int, int, int))
      reads this
      ensures b.2 == otherSize
    {
      (l2HdrSize - Sum(hdrs, L2Space(hdrBytes, l2HdrBytes)), hdrSize - Sum(hdrs, HdrsOf(hdrBytes)), otherSize)
    }

    /** No total is short of what it stands for. */
    ghost predicate Covered()
      requires Keyed(Y())
      reads this
    {
      Owed() >= 0 && OwedMeta() >= 0 && Beyond().0 >= 0 && Beyond().1 >= 0 && Beyond().2 >= 0
    }

    /** So that a block or an L2 header can be given back. */
    lemma Enough(k: nat)
      requires Books() && Covered() && k in hdrs
      ensures arcSize >= Held(hdrs[k]) && (hdrs[k].ty == Meta ==> metaUsed >= Held(hdrs[k]))
      ensures hdrs[k].l2 ==> arcSize >= l2HdrBytes && metaUsed >= l2HdrBytes
    {
      hide Tallied, Sum, Keyed, ResidentSize, Held;
      Covers(hdrs, Y(), k, hdrBytes, l2HdrBytes);
      Positive(hdrs, Y());
    }

    /** add_reference. */
    method AddReference(k: nat)
      requires Books() && k in hdrs && (Ghost(hdrs[k].st) ==> hdrs[k].datacnt == 0)
      requires Listed(hdrs[k]) ==> hdrs[k].size > 0 && (Ghost(hdrs[k].st) || hdrs[k].datacnt > 0)
      modifies this`hdrs, this`lists, this`lsize
      ensures Books() && hdrs == old(hdrs)[k := old(hdrs[k]).(refcnt := old(hdrs[k]).refcnt + 1)]
      ensures Owed() == old(Owed()) && OwedMeta() == old(OwedMeta()) && Beyond() == old(Beyond())
    {
      hide Tallied, Sum, Share, Keyed;
      var ab := hdrs[k];
      RefTallied(hdrs, Y(), k, ab.(refcnt := ab.refcnt + 1));
      SpaceMoved(hdrs, k, ab.(refcnt := ab.refcnt + 1), hdrBytes, l2HdrBytes);
      hdrs := hdrs[k := ab.(refcnt := ab.refcnt + 1)];
      if ab.refcnt + 1 == 1 && ab.st != Anon {
        var delta, slot := ab.size * ab.datacnt, SlotOf(ab);
        assert k in lists[slot];
        lists := lists[slot := lists[slot] - {k}];
        if Ghost(ab.st) { delta := ab.size; }
        assert delta > 0 && lsize[slot] >= delta;
        lsize := lsize[slot := lsize[slot] - delta];
      }
    }

    /** remove_reference. */
    method RemoveReference(k: nat) returns (cnt: nat)
      requires Books() && k in hdrs && !Ghost(hdrs[k].st) && hdrs[k].refcnt > 0 && hdrs[k].datacnt > 0
      modifies this`hdrs, this`lists, this`lsize
      ensures Books() && cnt == old(hdrs[k]).refcnt - 1 && hdrs == old(hdrs)[k := old(hdrs[k]).(refcnt := cnt)]
      ensures Owed() == old(Owed()) && OwedMeta() == old(OwedMeta()) && Beyond() == old(Beyond())
    {
      hide Tallied, Sum, Share, Keyed;
      var ab := hdrs[k];
      cnt := ab.refcnt - 1;
      RefTallied(hdrs, Y(), k, ab.(refcnt := cnt));
      SpaceMoved(hdrs, k, ab.(refcnt := cnt), hdrBytes, l2HdrBytes);
      hdrs := hdrs[k := ab.(refcnt := cnt)];
      if cnt == 0 && ab.st != Anon {
        var slot := SlotOf(ab);
        assert k !in lists[slot];
        lists := lists[slot := lists[slot] + {k}];
        assert ab.datacnt > 0;
        lsize := lsize[slot := lsize[slot] + ab.size * ab.datacnt];
      }
    }

    /** arc_change_state. */
    method ChangeState(to: St, k: nat)
      requires Books() && k in hdrs && to != hdrs[k].st
      requires hdrs[k].refcnt == 0 || hdrs[k].datacnt > 0
      requires hdrs[k].datacnt == 0 || !Ghost(to)
      requires hdrs[k].datacnt <= 1 || hdrs[k].st != Anon
      requires Ghost(hdrs[k].st) ==> hdrs[k].datacnt <= 1
      modifies this`hdrs, this`lists, this`lsize, this`size, this`hdrSize, this`l2HdrSize
      ensures Books() && hdrs == old(hdrs)[k := old(hdrs[k]).(st := to)]
      ensures hdrSize + l2HdrSize == old(hdrSize + l2HdrSize)
      ensures Owed() == old(Owed()) + Held(old(hdrs[k])) - Held(hdrs[k])
      ensures OwedMeta() == old(OwedMeta()) + HeldMeta(old(hdrs[k])) - HeldMeta(hdrs[k]) && Beyond() == old(Beyond())
    {
      hide Tallied, Sum, Keyed, ResidentSize, Transfer, Share, Weight, Held, HeldMeta;
      var ab := hdrs[k];
      var from := ab.st;
      StateTallied(hdrs, Y(), k, ab.(st := to));
      SpaceMoved(hdrs, k, ab.(st := to), hdrBytes, l2HdrBytes);
      Restate(to, k, ab);
      hdrs := hdrs[k := ab.(st := to)];
      if to == L2cOnly {
        l2HdrSize := l2HdrSize + hdrBytes;
        hdrSize := hdrSize - hdrBytes;
      } else if from == L2cOnly {
        l2HdrSize := l2HdrSize - hdrBytes;
        hdrSize := hdrSize + hdrBytes;
      }
    }

    /** The lists and the sizes of both states. */
    method Restate(to: St, k: nat, ab: Hdr)
      requires Keyed(Y()) && (Listed(ab) <==> k in lists[SlotOf(ab)])
      requires (Listed(ab) ==> lsize[SlotOf(ab)] >= Weight(ab))
      requires size[ab.st] >= Weight(ab) && to != ab.st
      requires (ab.refcnt == 0 || ab.datacnt > 0) && (ab.datacnt == 0 || !Ghost(to))
      requires (Ghost(ab.st) ==> ab.datacnt <= 1)
      modifies this`lists, this`lsize, this`size
      ensures Y() == Transfer(old(Y()), k, ab, ab.(st := to))
    {
      hide Keyed, Relisted, Weight;
      KeyedAt(Y(), SlotOf(ab));
      KeyedAt(Y(), Slot(to, ab.ty));
      var from := ab.st;
      var fromDelta, toDelta := Relist(to, k, ab);
      size := size[to := size[to] + toDelta];
      assert size[from] >= fromDelta;
      size := size[from := size[from] - fromDelta];
    }

    /** The first half of arc_change_state: an unreferenced header moves from list to list. */
    method Relist(to: St, k: nat, ab: Hdr) returns (fromDelta: int, toDelta: int)
      requires SlotOf(ab) in lists && SlotOf(ab) in lsize && Slot(to, ab.ty) in lists && Slot(to, ab.ty) in lsize
      requires (Listed(ab) <==> k in lists[SlotOf(ab)]) && (Listed(ab) ==> lsize[SlotOf(ab)] >= Weight(ab))
      requires to != ab.st && (ab.refcnt == 0 || ab.datacnt > 0) && (ab.datacnt == 0 || !Ghost(to))
      requires (Ghost(ab.st) ==> ab.datacnt <= 1)
      modifies this`lists, this`lsize
      ensures Y() == Relisted(old(Y()), k, ab, ab.(st := to)) && fromDelta == Weight(ab)
      ensures toDelta == Weight(ab.(st := to))
    {
      var from := ab.st;
      fromDelta, toDelta := ab.datacnt * ab.size, ab.datacnt * ab.size;
      if ab.refcnt == 0 {
        if from != Anon {
          var slot := Slot(from, ab.ty);
          assert k in lists[slot];
          lists := lists[slot := lists[slot] - {k}];
          if Ghost(from) && ab.datacnt == 0 { fromDelta := ab.size; }
          assert lsize[slot] >= fromDelta;
          lsize := lsize[slot := lsize[slot] - fromDelta];
        }
        if to != Anon {
          var slot := Slot(to, ab.ty);
          lists := lists[slot := lists[slot] + {k}];
          if Ghost(to) { toDelta := ab.size; }
          lsize := lsize[slot := lsize[slot] + toDelta];
        }
      }
    }

    /** arc_space_consume and arc_space_return. */
    method SpaceConsume(space: nat, kind: Space)
      requires Books()
      modifies this`dataSize, this`hdrSize, this`l2HdrSize, this`otherSize, this`metaUsed, this`arcSize
      ensures Books() && Owed() == old(Owed()) + (if kind.DataSpace? then space else 0)
      ensures OwedMeta() == old(OwedMeta()) + (if kind.DataSpace? then space else 0)
      ensures Beyond().0 == old(Beyond()).0 + if kind.L2HdrSpace? then space else 0
      ensures Beyond().1 == old(Beyond()).1 + if kind.HdrSpace? then space else 0
      ensures Beyond().2 == old(Beyond()).2 + if kind.OtherSpace? then space else 0
    {
      hide Tallied, Sum, Keyed, ResidentSize;
      match kind {
        case DataSpace => dataSize := dataSize + space;
        case HdrSpace => hdrSize := hdrSize + space;
        case L2HdrSpace => l2HdrSize := l2HdrSize + space;
        case OtherSpace => otherSize := otherSize + space;
      }
      metaUsed := metaUsed + space;
      arcSize := arcSize + space;
    }

    method SpaceReturn(space: nat, kind: Space)
      requires Books() && metaUsed >= space && arcSize >= space
      modifies this`dataSize, this`hdrSize, this`l2HdrSize, this`otherSize, this`metaUsed, this`arcSize
      ensures Books() && Owed() == old(Owed()) - (if kind.DataSpace? then space else 0)
      ensures OwedMeta() == old(OwedMeta()) - (if kind.DataSpace? then space else 0)
      ensures Beyond().0 == old(Beyond()).0 - if kind.L2HdrSpace? then space else 0
      ensures Beyond().1 == old(Beyond()).1 - if kind.HdrSpace? then space else 0
      ensures Beyond().2 == old(Beyond()).2 - if kind.OtherSpace? then space else 0
    {
      hide Tallied, Sum, Keyed, ResidentSize;
      match kind {
        case DataSpace => dataSize := dataSize - space;
        case HdrSpace => hdrSize := hdrSize - space;
        case L2HdrSpace => l2HdrSize := l2HdrSize - space;
        case OtherSpace => otherSize := otherSize - space;
      }
      assert metaUsed >= space;
      metaUsed := metaUsed - space;
      assert arcSize >= space;
      arcSize := arcSize - space;
    }

    /** The constructors and destructors of headers and buffers, which are called when the kmem caches grow and when
        they are reaped. */
    method Construct(header: bool)
      requires Valid()
      modifies this`dataSize, this`hdrSize, this`l2HdrSize, this`otherSize
      modifies this`metaUsed, this`arcSize, this`spare, this`bufSpace
      ensures Valid() && spare == old(spare) + (if header then hdrBytes else 0)
      ensures bufSpace == old(bufSpace) + (if header then 0 else bufBytes) && otherSize == old(otherSize)
    {
      hide Tallied, Sum, Keyed, ResidentSize, InBounds;
      SpaceConsume(if header then hdrBytes else bufBytes, HdrSpace);
      if header { spare := spare + hdrBytes; } else { bufSpace := bufSpace + bufBytes; }
    }

    method Destruct(header: bool)
      requires Valid() && (if header then spare >= hdrBytes else bufSpace >= bufBytes)
      modifies this`dataSize, this`hdrSize, this`l2HdrSize, this`otherSize
      modifies this`metaUsed, this`arcSize, this`spare, this`bufSpace
      ensures Valid() && spare == old(spare) - (if header then hdrBytes else 0)
      ensures bufSpace == old(bufSpace) - (if header then 0 else bufBytes) && otherSize == old(otherSize)
    {
      hide Tallied, Sum, Keyed, ResidentSize, InBounds;
      Positive(hdrs, Y());
      SpaceReturn(if header then hdrBytes else bufBytes, HdrSpace);
      if header { spare := spare - hdrBytes; } else { bufSpace := bufSpace - bufBytes; }
    }

    /** Space of others that counts as metadata. */
    method Consume(space: nat)
      requires Valid()
      modifies this`dataSize, this`hdrSize, this`l2HdrSize, this`otherSize, this`metaUsed, this`arcSize
      ensures Valid() && otherSize == old(otherSize) + space
    {
      hide Tallied, Sum, Keyed, ResidentSize, InBounds;
      SpaceConsume(space, OtherSpace);
    }

    method Return(space: nat)
      requires Valid() && otherSize >= space
      modifies this`dataSize, this`hdrSize, this`l2HdrSize, this`otherSize, this`metaUsed, this`arcSize
      ensures Valid() && otherSize == old(otherSize) - space
    {
      hide Tallied, Sum, Keyed, ResidentSize, InBounds;
      Positive(hdrs, Y());
      SpaceReturn(space, OtherSpace);
    }

    /** A header comes from the kmem cache, which constructs one if it has none, or goes back there. */
    method NewHdr(k: nat, ty: Ty, bytes: nat)
      requires Books() && k !in hdrs
      modifies this`hdrs, this`dataSize, this`hdrSize, this`l2HdrSize
      modifies this`otherSize, this`metaUsed, this`arcSize, this`spare
      ensures Books() && hdrs == old(hdrs)[k := Hdr(Anon, ty, bytes, 0, 0, false, Idle)]
      ensures Owed() == old(Owed()) && OwedMeta() == old(OwedMeta())
      ensures Beyond().0 == old(Beyond()).0 && Beyond().2 == old(Beyond()).2
      ensures Beyond().1 - spare == old(Beyond().1 - spare) && (old(spare) >= 0 ==> spare >= 0)
    {
      hide Tallied, Sum, Keyed, ResidentSize;
      if spare < hdrBytes {
        SpaceConsume(hdrBytes, HdrSpace);
        spare := spare + hdrBytes;
      }
      AddedTallied(hdrs, Y(), k, Hdr(Anon, ty, bytes, 0, 0, false, Idle));
      hdrs := hdrs[k := Hdr(Anon, ty, bytes, 0, 0, false, Idle)];
      spare := spare - hdrBytes;
    }

    method OldHdr(k: nat)
      requires Books() && k in hdrs && hdrs[k].st == Anon && hdrs[k].datacnt == 0 && !hdrs[k].l2
      modifies this`hdrs, this`spare
      ensures Books() && hdrs == old(hdrs) - {k} && spare == old(spare) + hdrBytes
      ensures Owed() == old(Owed()) && OwedMeta() == old(OwedMeta())
      ensures Beyond() == (old(Beyond()).0, old(Beyond()).1 + hdrBytes, old(Beyond()).2)
    {
      hide Tallied, Sum, Keyed, ResidentSize;
      RemovedTallied(hdrs, Y(), k);
      hdrs := hdrs - {k};
      spare := spare + hdrBytes;
    }

    /** arc_buf_destroy of one buffer of the header that has data; a recycled data block stays allocated. */
    method BufDestroy(k: nat, recycle: bool)
      requires Books() && Covered() && k in hdrs && Resident(hdrs[k].st) && hdrs[k].datacnt > 0
      modifies this`hdrs, this`lsize, this`size, this`dataSize
      modifies this`metaUsed, this`arcSize, this`hdrSize, this`l2HdrSize, this`otherSize
      ensures Books() && hdrs == old(hdrs)[k := old(hdrs[k]).(datacnt := old(hdrs[k]).datacnt - 1)]
      ensures Owed() == old(Owed()) + (if recycle then hdrs[k].size else 0)
      ensures OwedMeta() == old(OwedMeta()) + (if recycle && hdrs[k].ty == Meta then hdrs[k].size else 0)
      ensures Beyond() == old(Beyond())
    {
      hide Tallied, Sum, Keyed, ResidentSize, Weight;
      var ab := hdrs[k];
      Enough(k);
      OneLess(ab);
      if !recycle { FreeData(ab.size, ab.ty); }
      Uncount(k, ab);
    }

    /** A data block is allocated or given back. */
    method AllocData(space: nat, ty: Ty)
      requires Books()
      modifies this`dataSize, this`hdrSize, this`l2HdrSize, this`otherSize, this`metaUsed, this`arcSize
      ensures Books() && Owed() == old(Owed()) + space
      ensures OwedMeta() == old(OwedMeta()) + (if ty == Meta then space else 0)
      ensures Beyond() == old(Beyond())
    {
      hide Tallied, Sum, Keyed, ResidentSize;
      if ty == Meta {
        SpaceConsume(space, DataSpace);
      } else {
        dataSize := dataSize + space;
        arcSize := arcSize + space;
      }
    }

    method FreeData(space: nat, ty: Ty)
      requires Books() && arcSize >= space && (ty == Meta ==> metaUsed >= space)
      modifies this`dataSize, this`hdrSize, this`l2HdrSize, this`otherSize, this`metaUsed, this`arcSize
      ensures Books() && Owed() == old(Owed()) - space
      ensures OwedMeta() == old(OwedMeta()) - (if ty == Meta then space else 0)
      ensures Beyond() == old(Beyond())
    {
      hide Tallied, Sum, Keyed, ResidentSize;
      if ty == Meta {
        SpaceReturn(space, DataSpace);
      } else {
        dataSize := dataSize - space;
        arcSize := arcSize - space;
      }
    }

    /** The state's counters lose one buffer of the header. */
    method Uncount(k: nat, ab: Hdr)
      requires Books() && k in hdrs && ab == hdrs[k] && Resident(ab.st) && ab.datacnt > 0
      modifies this`hdrs, this`lsize, this`size
      ensures Books() && hdrs == old(hdrs)[k := ab.(datacnt := ab.datacnt - 1)]
      ensures Owed() == old(Owed()) + ab.size && OwedMeta() == old(OwedMeta()) + (if ab.ty == Meta then ab.size else 0)
      ensures Beyond() == old(Beyond())
    {
      hide Tallied, Sum, Keyed, ResidentSize;
      CountTallied(hdrs, Y(), k, ab.(datacnt := ab.datacnt - 1));
      SpaceMoved(hdrs, k, ab.(datacnt := ab.datacnt - 1), hdrBytes, l2HdrBytes);
      KeyedAt(Y(), SlotOf(ab));
      OneLess(ab);
      if k in lists[SlotOf(ab)] {
        assert ab.refcnt == 0 && ab.st != Anon;
        assert lsize[SlotOf(ab)] >= ab.size;
        lsize := lsize[SlotOf(ab) := lsize[SlotOf(ab)] - ab.size];
      }
      assert size[ab.st] >= ab.size;
      size := size[ab.st := size[ab.st] - ab.size];
      hdrs := hdrs[k := ab.(datacnt := ab.datacnt - 1)];
    }

    /** The end of arc_get_data_buf, with the increment of b_datacnt that follows it: the state's counters gain
        one buffer of a resident header. */
    method Count(k: nat, ab: Hdr)
      requires Books() && k in hdrs && ab == hdrs[k] && Resident(ab.st)
      modifies this`hdrs, this`lsize, this`size
      ensures Books() && hdrs == old(hdrs)[k := ab.(datacnt := ab.datacnt + 1)]
      ensures Owed() == old(Owed()) - ab.size && OwedMeta() == old(OwedMeta()) - (if ab.ty == Meta then ab.size else 0)
      ensures Beyond() == old(Beyond())
    {
      hide Tallied, Sum, Keyed, ResidentSize;
      CountTallied(hdrs, Y(), k, ab.(datacnt := ab.datacnt + 1));
      SpaceMoved(hdrs, k, ab.(datacnt := ab.datacnt + 1), hdrBytes, l2HdrBytes);
      KeyedAt(Y(), SlotOf(ab));
      size := size[ab.st := size[ab.st] + ab.size];
      if k in lists[SlotOf(ab)] {
        assert ab.refcnt == 0;
        lsize := lsize[SlotOf(ab) := lsize[SlotOf(ab)] + ab.size];
      }
      hdrs := hdrs[k := ab.(datacnt := ab.datacnt + 1)];
    }

    ghost predicate SoundBut(k: int)
      reads this
    {
      forall j :: j in hdrs && j != k ==> Sound(hdrs[j])
    }

    /** The state between operations. */
    ghost predicate Valid()
      reads this
    {
      && Books() && Owed() == 0 && OwedMeta() == 0 && Beyond().0 == 0 && Beyond().1 == spare + bufSpace
      && spare >= 0 && bufSpace >= 0 && otherSize >= 0 && SoundBut(-1) && InBounds(t)
    }

    // ----- eviction -----

    /** arc_evict of one header: as many buffers as can be locked go, and with the last one the header becomes a
        ghost. A block of the size asked for may be kept for the caller. */
    method EvictHdr(k: nat, got: nat, steal: bool) returns (evicted: int, stolen: bool)
      requires Books() && Covered() && k in hdrs && hdrs[k].refcnt == 0 && (hdrs[k].st == Mru || hdrs[k].st == Mfu)
      requires Sound(hdrs[k])
      modifies this`hdrs, this`lists, this`lsize, this`size, this`dataSize
      modifies this`metaUsed, this`arcSize, this`hdrSize, this`l2HdrSize, this`otherSize
      ensures Books() && hdrs == old(hdrs)[k := var h := old(hdrs[k]); LeftWith(h, h.datacnt - Lost(h, got))]
      ensures evicted == old(hdrs[k]).size * Lost(old(hdrs[k]), got) && stolen == (steal && Lost(old(hdrs[k]), got) > 0)
      ensures Owed() == old(Owed()) + (if stolen then hdrs[k].size else 0)
      ensures OwedMeta() == old(OwedMeta()) + (if stolen && hdrs[k].ty == Meta then hdrs[k].size else 0)
      ensures Beyond() == old(Beyond())
    {
      hide Tallied, Sum, Keyed, ResidentSize, Share, Weight;
      ghost var h := hdrs[k];
      var i := 0;
      evicted, stolen := 0, false;
      while i < got && hdrs[k].datacnt > 0
        invariant 0 <= i <= Lost(h, got) && Books() && k in hdrs && hdrs == old(hdrs)[k := h.(datacnt := h.datacnt - i)]
        invariant evicted == h.size * i && stolen == (steal && i > 0)
        invariant Owed() == old(Owed()) + (if stolen then hdrs[k].size else 0)
        invariant OwedMeta() == old(OwedMeta()) + (if stolen && hdrs[k].ty == Meta then hdrs[k].size else 0)
        invariant Beyond() == old(Beyond())
        decreases got - i
      {
        OneMore(h.size, i);
        evicted := evicted + hdrs[k].size;
        var take := steal && !stolen;
        BufDestroy(k, take);
        stolen := stolen || take;
        i := i + 1;
      }
      if hdrs[k].datacnt == 0 {
        NoBuffers(hdrs[k]);
        ChangeState(if hdrs[k].st == Mru then MruGhost else MfuGhost, k);
      }
    }

    /** arc_evict: go through the headers on a list until enough has been evicted. */
    method Evict(st: St, bytes: int, recycle: bool, ty: Ty, tries: seq<Try>, ghost keep: int) returns (stolen: bool)
      requires Books() && Covered() && SoundBut(keep) && (st == Mru || st == Mfu)
      requires (keep in hdrs ==> !Listed(hdrs[keep]) || Ghost(hdrs[keep].st))
      modifies this`hdrs, this`lists, this`lsize, this`size, this`dataSize
      modifies this`metaUsed, this`arcSize, this`hdrSize, this`l2HdrSize, this`otherSize
      ensures Books() && SoundBut(keep) && hdrs.Keys == old(hdrs).Keys
      ensures (keep in hdrs ==> hdrs[keep] == old(hdrs)[keep])
      ensures (hdrs, stolen) == Scan(old(hdrs), Slot(st, ty), bytes, tries, 0, recycle)
      ensures Owed() == old(Owed()) + (if stolen then bytes else 0)
      ensures OwedMeta() == old(OwedMeta()) + (if stolen && ty == Meta then bytes else 0) && Beyond() == old(Beyond())
    {
      hide Scan, Books, Owed, OwedMeta, Beyond, SoundBut, Evictable;
      var i, total, done := 0, 0, false;
      stolen := false;
      assert tries[0..] == tries;
      while i < |tries| && !done
        invariant 0 <= i <= |tries| && Books() && SoundBut(keep) && hdrs.Keys == old(hdrs).Keys
        invariant (keep in hdrs ==> hdrs[keep] == old(hdrs)[keep])
        invariant Ahead(Slot(st, ty), bytes, tries[i..], total, recycle, stolen, done) ==
                  Scan(old(hdrs), Slot(st, ty), bytes, tries, 0, recycle)
        invariant Owed() == old(Owed()) + (if stolen then bytes else 0) && (stolen ==> bytes >= 0)
        invariant OwedMeta() == old(OwedMeta()) + (if stolen && ty == Meta then bytes else 0)
        invariant Beyond() == old(Beyond())
        decreases |tries| - i
      {
        assert tries[i..][0] == tries[i] && tries[i..][1..] == tries[i + 1..];
        ScanStep(hdrs, Slot(st, ty), bytes, tries[i..], total, recycle && !stolen);
        var took;
        took, total, done := TryHdr(tries[i], st, ty, bytes, total, recycle && !stolen, keep);
        stolen := stolen || took;
        i := i + 1;
      }
      ScanEnd(hdrs, Slot(st, ty), bytes, total, recycle && !stolen);
    }

    /** One header of the scan; those that are not on the list are passed over. */
    method TryHdr(a: Try, st: St, ty: Ty, bytes: int, total0: int, recycle: bool, ghost keep: int)
      returns (took: bool, total: int, done: bool)
      requires Books() && Covered() && SoundBut(keep) && (st == Mru || st == Mfu)
      requires (keep in hdrs ==> !Listed(hdrs[keep]) || Ghost(hdrs[keep].st))
      modifies this`hdrs, this`lists, this`lsize, this`size, this`dataSize
      modifies this`metaUsed, this`arcSize, this`hdrSize, this`l2HdrSize, this`otherSize
      ensures Books() && SoundBut(keep) && hdrs.Keys == old(hdrs).Keys
      ensures (keep in hdrs ==> hdrs[keep] == old(hdrs)[keep])
      ensures !Evictable(old(hdrs), a.k, Slot(st, ty)) ==> hdrs == old(hdrs) && !took && total == total0 && !done
      ensures Evictable(old(hdrs), a.k, Slot(st, ty)) ==>
                var h := old(hdrs)[a.k];
                && hdrs == old(hdrs)[a.k := LeftWith(h, h.datacnt - Lost(h, a.got))]
                && total == total0 + h.size * Lost(h, a.got)
                && took == (recycle && Stealable(h, a, bytes)) && done == (bytes >= 0 && total >= bytes)
                && (took ==> bytes >= 0)
      ensures Owed() == old(Owed()) + (if took then bytes else 0)
      ensures OwedMeta() == old(OwedMeta()) + (if took && ty == Meta then bytes else 0) && Beyond() == old(Beyond())
    {
      hide Tallied, Sum, Keyed, ResidentSize, Share, Weight, Books, Owed, OwedMeta, Beyond;
      took, total, done := false, total0, false;
      if a.k in hdrs && SlotOf(hdrs[a.k]) == Slot(st, ty) && hdrs[a.k].refcnt == 0 && hdrs[a.k].io == Idle {
        var evicted;
        evicted, took := EvictHdr(a.k, a.got, recycle && hdrs[a.k].size == bytes && !a.writing);
        total := total + evicted;
        done := bytes >= 0 && total >= bytes;
      }
    }

    /** What the scan comes to from here. */
    ghost function Ahead(slot: Slot, bytes: int, tries: seq<Try>, total: int, recycle: bool, stolen: bool, done: bool)
      : (map<nat, Hdr>, bool)
      reads this
    {
      if done then (hdrs, stolen)
      else
        var rest := Scan(hdrs, slot, bytes, tries, total, recycle && !stolen);
        (rest.0, stolen || rest.1)
    }

    // ----- data blocks -----

    /** arc_evict_needed, with the targets `g`. */
    predicate EvictNeeded(g: Targets, ty: Ty)
      reads this
    {
      (ty == Meta && metaUsed >= metaLimit) || noGrow || arcSize > g.c
    }

    /** Which list arc_get_data_buf takes from. */
    function Victim(g: Targets, h: Hdr, prefetch: bool): (st: St)
      requires Keyed(Y())
      reads this
      ensures st == Mru || st == Mfu
    {
      var st := if h.st == MfuGhost then (if prefetch then Mru else Mfu) else if h.st == MruGhost then Mru else h.st;
      if st == Mru || st == Anon then
        if lsize[Slot(Mfu, h.ty)] >= h.size && g.p > size[Anon] + size[Mru] then Mfu else Mru
      else
        if lsize[Slot(Mru, h.ty)] >= h.size && g.c - g.p > size[Mfu] then Mru else Mfu
    }

    /** The headers after room has been made for one block of `h`, and whether a block was kept for it. */
    ghost function Room(h: Hdr, prefetch: bool, tries: seq<Try>): (map<nat, Hdr>, bool)
      requires Keyed(Y())
      reads this
    {
      var g := Goal(h);
      if !EvictNeeded(g, h.ty) then (hdrs, false)
      else Scan(hdrs, Slot(Victim(g, h, prefetch), h.ty), h.size, tries, 0, true)
    }

    /** The four cases of arc_get_data_buf. What goes to the MRU list takes from the MFU list when the recently used
        blocks have not used up their share and there is enough on that list, and otherwise from its own; what goes to
        the MFU list takes from the MRU list when the frequently used ones have not used up theirs, and otherwise from
        its own. */
    lemma Victims(g: Targets, h: Hdr, prefetch: bool)
      requires Keyed(Y())
      ensures var v, recent := Victim(g, h, prefetch), h.st == Anon || Recent(h.st) || (h.st == MfuGhost && prefetch);
              && (recent ==> (v == Mfu <==> g.p > size[Anon] + size[Mru] && lsize[Slot(Mfu, h.ty)] >= h.size))
              && (!recent ==> (v == Mru <==> g.c - g.p > size[Mfu] && lsize[Slot(Mru, h.ty)] >= h.size))
    {
    }

    /** Room is made only when the cache may not grow, is above its target or holds too much metadata. Then the
        headers on the list chosen lose what can be locked, until the state has lost the size of a block or there is
        nothing left to try; `n` of the tries are made. */
    lemma Rooms(h: Hdr, prefetch: bool, tries: seq<Try>) returns (n: nat)
      requires Keyed(Y()) && Stocked(hdrs, Slot(Mru, h.ty)) && Stocked(hdrs, Slot(Mfu, h.ty)) && h.size > 0
      ensures n <= |tries|
      ensures var g, room := Goal(h), Room(h, prefetch, tries);
              var slot := Slot(Victim(g, h, prefetch), h.ty);
              if noGrow || arcSize > g.c || (h.ty == Meta && metaUsed >= metaLimit) then
                && AllRobbed(hdrs, room.0, slot, tries[..n])
                && (n < |tries| ==> Loss(hdrs, room.0, slot.st) >= h.size)
                && (forall i :: 0 <= i < n ==> Loss(hdrs, All(hdrs, slot, tries[..i]), slot.st) < h.size)
                && (room.1 <==> exists i :: 0 <= i < n && Offers(hdrs, slot, h.size, tries, i))
              else room == (hdrs, false)
    {
      hide Scan, All, Loss, AllRobbed, Offers, Stocked, Goal;
      var slot := Slot(Victim(Goal(h), h, prefetch), h.ty);
      n := Stops(hdrs, slot, h.size, tries, 0, true);
      RobsAll(hdrs, slot, tries[..n]);
    }

    /** The targets arc_adapt sets, from the ghost sizes, arc_size and arc_no_grow as they are. */
    lemma Goals(k: nat)
      requires Books() && k in hdrs && 0 < hdrs[k].size < 0x8000_0000 && InBounds(t) && 0 <= arcSize < LIMIT
      ensures size[MruGhost] >= 0 && size[MfuGhost] >= 0
      ensures var h, g, mru, mfu := hdrs[k], Goal(hdrs[k]), size[MruGhost], size[MfuGhost];
              && g.cMin == t.cMin && g.cMax == t.cMax && (h.st == L2cOnly ==> g == t)
              && (h.st != L2cOnly ==> g.c == if Tight(t, arcSize, noGrow) then Min(t.c + h.size, t.cMax) else t.c)
              && (h.st == Mru || h.st == Mfu ==> g.p == t.p)
              && (h.st == Anon ==> g.p - t.p == if g.c - t.c == h.size then h.size else 0)
              && (h.st == MruGhost && Fits(h.size, mru, mfu) ==>
                    g.p == Min(t.p + h.size * Strength(mru, mfu), t.c - t.c / 16))
              && (h.st == MfuGhost && Fits(h.size, mfu, mru) ==>
                    g.p == Max(t.p - h.size * Strength(mfu, mru), t.c / 16))
    {
      hide Tallied, Sum, Share, Adapt, Fits, Strength, Tight;
      var h := hdrs[k];
      Entry(hdrs, Y(), k);
      GhostSizes(hdrs, Y());
      assert U64(arcSize) == arcSize;
      Adapts(t, h.size, h.st, size[MruGhost], size[MfuGhost], arcSize, noGrow);
    }

    /** arc_get_data_buf, for a header that is not on a list of its own state. A resident header gets one more
        buffer; a ghost gets the block only, which it will bring along when it changes state. */
    method GetDataBuf(k: nat, prefetch: bool, tries: seq<Try>)
      requires Books() && Covered() && SoundBut(k) && k in hdrs && 0 < hdrs[k].size < 0x8000_0000 && InBounds(t)
      requires (!Listed(hdrs[k]) || Ghost(hdrs[k].st))
      requires (hdrs[k].st == Mru || hdrs[k].st == Mfu ==> hdrs[k].datacnt > 0)
      modifies this`hdrs, this`lists, this`lsize, this`size, this`t
      modifies this`dataSize, this`metaUsed, this`arcSize, this`hdrSize, this`l2HdrSize, this`otherSize
      ensures Books() && SoundBut(k) && InBounds(t) && k in hdrs && Shed(old(hdrs), hdrs[k := old(hdrs)[k]], hdrs[k].ty)
      ensures var h, room := old(hdrs[k]), old(Room(hdrs[k], prefetch, tries)).0;
              hdrs == room[k := if Ghost(h.st) then h else h.(datacnt := h.datacnt + 1)]
      ensures var goal := old(Goal(hdrs[k]));
              t == if hdrs[k].st == Anon && arcSize < goal.c && size[Anon] + size[Mru] > goal.p
                  then Outgrow(goal, hdrs[k].size) else goal
      ensures Owed() == old(Owed()) + (if Ghost(hdrs[k].st) then hdrs[k].size else 0)
      ensures OwedMeta() == old(OwedMeta()) + (if Ghost(hdrs[k].st) && hdrs[k].ty == Meta then hdrs[k].size else 0)
      ensures Beyond() == old(Beyond())
    {
      hide Tallied, Sum, Keyed, ResidentSize, Share, Weight, InBounds, Outgrow, Books, Owed, OwedMeta, Beyond, Shed;
      hide Goal, Room, Sound;
      var ab := hdrs[k];
      var stolen := MakeRoom(k, prefetch, tries);
      assert hdrs[k := ab] == hdrs;
      if !stolen { AllocData(ab.size, ab.ty); }
      if !Ghost(ab.st) {
        ghost var m := hdrs;
        Count(k, ab);
        assert hdrs[k := ab] == m;
        Outgrown(ab);
      }
    }

    /** The first half of arc_get_data_buf: adjust the targets, then evict, if necessary, hoping to steal a block. */
    method MakeRoom(k: nat, prefetch: bool, tries: seq<Try>) returns (stolen: bool)
      requires Books() && Covered() && SoundBut(k) && k in hdrs && 0 < hdrs[k].size < 0x8000_0000 && InBounds(t)
      requires (!Listed(hdrs[k]) || Ghost(hdrs[k].st))
      requires (hdrs[k].st == Mru || hdrs[k].st == Mfu ==> hdrs[k].datacnt > 0)
      modifies this`hdrs, this`lists, this`lsize, this`size, this`t
      modifies this`dataSize, this`metaUsed, this`arcSize, this`hdrSize, this`l2HdrSize, this`otherSize
      ensures Books() && SoundBut(k) && InBounds(t) && k in hdrs && hdrs[k] == old(hdrs)[k]
      ensures Shed(old(hdrs), hdrs, hdrs[k].ty)
      ensures t == old(Goal(hdrs[k]))
      ensures (hdrs, stolen) == old(Room(hdrs[k], prefetch, tries))
      ensures var h := hdrs[k];
              && Owed() == old(Owed()) + (if stolen then h.size else 0)
              && OwedMeta() == old(OwedMeta()) + (if stolen && h.ty == Meta then h.size else 0)
              && Beyond() == old(Beyond())
    {
      hide Tallied, Sum, Keyed, ResidentSize, Share, Weight, InBounds, Adapt, Books, Owed, OwedMeta, Beyond, Scan;
      hide Shed, Goal;
      var ab := hdrs[k];
      Retarget(k);
      stolen := false;
      ShedNothing(hdrs, ab.ty);
      if EvictNeeded(t, ab.ty) {
        var st := Victim(t, ab, prefetch);
        ScanSheds(hdrs, Slot(st, ab.ty), ab.size, tries, 0, true);
        stolen := Evict(st, ab.size, true, ab.ty, tries, k);
      }
    }

    /** The targets arc_adapt sets for a header; its ghost list, if it comes from one, is never empty. */
    ghost function Goal(h: Hdr): Targets
      requires Keyed(Y())
      reads this
    {
      var mru, mfu := size[MruGhost], size[MfuGhost];
      if mru < 0 || mfu < 0 || t.p > t.c || (h.st == MruGhost && mru == 0) || (h.st == MfuGhost && mfu == 0) then t
      else Adapt(t, h.size, h.st, mru, mfu, U64(arcSize), noGrow)
    }

    /** arc_adapt. */
    method Retarget(k: nat)
      requires Books() && k in hdrs && 0 < hdrs[k].size < 0x8000_0000 && InBounds(t)
      modifies this`t
      ensures InBounds(t) && t == old(Goal(hdrs[k]))
      ensures Books() && Owed() == old(Owed()) && OwedMeta() == old(OwedMeta()) && Beyond() == old(Beyond())
    {
      hide Tallied, Sum, Share, Adapt;
      var ab := hdrs[k];
      Entry(hdrs, Y(), k);
      GhostSizes(hdrs, Y());
      AdaptBounds(t, ab.size, ab.st, size[MruGhost], size[MfuGhost], U64(arcSize), noGrow);
      t := Adapt(t, ab.size, ab.st, size[MruGhost], size[MfuGhost], U64(arcSize), noGrow);
    }

    method Outgrown(ab: Hdr)
      requires Books() && InBounds(t) && ab.size < 0x8000_0000
      modifies this`t
      ensures InBounds(t)
      ensures t == if arcSize < old(t).c && ab.st == Anon && size[Anon] + size[Mru] > old(t).p
              then Outgrow(old(t), ab.size) else old(t)
      ensures Books() && Owed() == old(Owed()) && OwedMeta() == old(OwedMeta()) && Beyond() == old(Beyond())
    {
      hide Tallied, Sum, Share;
      if arcSize < t.c && ab.st == Anon && size[Anon] + size[Mru] > t.p {
        t := Outgrow(t, ab.size);
      }
    }

    // ----- operations -----

    /** arc_buf_alloc. */
    method BufAlloc(k: nat, bytes: nat, ty: Ty, tries: seq<Try>)
      requires Valid() && k !in hdrs && 0 < bytes < 0x8000_0000
      modifies this
      ensures Valid() && k in hdrs && hdrs[k] == Hdr(Anon, ty, bytes, 1, 1, false, Idle)
      ensures Shed(old(hdrs), hdrs - {k}, ty)
      ensures otherSize == old(otherSize)
    {
      hide Tallied, Sum, Keyed, ResidentSize, Share, Weight, InBounds, Shed, Books, Owed, OwedMeta, Beyond;
      Furnish(k, bytes, ty, tries);
    }

    method Furnish(k: nat, bytes: nat, ty: Ty, tries: seq<Try>)
      requires Books() && Covered() && SoundBut(k) && InBounds(t) && k !in hdrs && 0 < bytes < 0x8000_0000 && spare >= 0
      requires Beyond().1 >= spare
      modifies this
      ensures Books() && SoundBut(k) && InBounds(t) && k in hdrs && hdrs[k] == Hdr(Anon, ty, bytes, 1, 1, false, Idle)
      ensures Shed(old(hdrs), hdrs - {k}, ty) && Owed() == old(Owed()) && OwedMeta() == old(OwedMeta())
      ensures bufSpace == old(bufSpace)
      ensures Beyond().0 == old(Beyond()).0 && Beyond().2 == old(Beyond()).2
      ensures Beyond().1 - spare == old(Beyond().1 - spare) && spare >= 0
    {
      hide Tallied, Sum, Keyed, ResidentSize, Share, Weight, InBounds, Shed, Goal, Outgrow, Room, Books, Owed;
      hide OwedMeta, Beyond, Sound;
      NewHdr(k, ty, bytes);
      ghost var m := hdrs;
      GetDataBuf(k, false, tries);
      ShedWithout(m, hdrs[k := m[k]], k, ty);
      assert m - {k} == old(hdrs) && hdrs[k := m[k]] - {k} == hdrs - {k};
      ghost var m1 := hdrs;
      AddReference(k);
      assert hdrs - {k} == m1 - {k};
    }

    method SetIo(k: nat, io: Io)
      requires Books() && k in hdrs
      modifies this`hdrs
      ensures Books() && hdrs == old(hdrs)[k := old(hdrs[k]).(io := io)]
      ensures Owed() == old(Owed()) && OwedMeta() == old(OwedMeta()) && Beyond() == old(Beyond())
    {
      hide Tallied, Sum, Keyed, ResidentSize, Share, Weight;
      IoTallied(hdrs, Y(), k, io);
      hdrs := hdrs[k := hdrs[k].(io := io)];
    }

    /** arc_read of a block that is not cached: a new header waits for it, which a prefetch does not refer to. */
    method ReadMiss(k: nat, bytes: nat, ty: Ty, prefetch: bool, tries: seq<Try>)
      requires Valid() && k !in hdrs && 0 < bytes < 0x8000_0000
      modifies this
      ensures Valid() && k in hdrs && hdrs[k] == Hdr(Anon, ty, bytes, if prefetch then 0 else 1, 1, false, Reading)
      ensures Shed(old(hdrs), hdrs - {k}, ty) && otherSize == old(otherSize)
    {
      hide Tallied, Sum, Keyed, ResidentSize, Share, Weight, InBounds, Shed, Books, Owed, OwedMeta, Beyond;
      BufAlloc(k, bytes, ty, tries);
      ghost var m := hdrs;
      if prefetch { var _ := RemoveReference(k); }
      SetIo(k, Reading);
      assert hdrs - {k} == m - {k};
    }

    /** The state arc_access moves a header to: prefetched headers stay in or return to the MRU list, and a
        header becomes frequently used when it is accessed again after some time or as a ghost. */
    function Accessed(st: St, prefetch: bool, later: bool): St {
      match st
      case Anon => Mru
      case Mru => if !prefetch && later then Mfu else Mru
      case MruGhost => if prefetch then Mru else Mfu
      case Mfu => Mfu
      case MfuGhost => if prefetch then Mru else Mfu
      case L2cOnly => Mfu
    }

    /** arc_access. A ghost that is hit has just been given its data block. */
    method Access(k: nat, prefetch: bool, later: bool)
      requires Books() && k in hdrs
      requires (if Ghost(hdrs[k].st) || hdrs[k].st == Anon then hdrs[k].datacnt == 1 else hdrs[k].datacnt > 0)
      modifies this`hdrs, this`lists, this`lsize, this`size, this`hdrSize, this`l2HdrSize
      ensures Books() && hdrs == old(hdrs)[k := old(hdrs[k]).(st := Accessed(old(hdrs[k]).st, prefetch, later))]
      ensures Owed() == old(Owed()) - (if Ghost(old(hdrs[k]).st) then hdrs[k].size else 0)
      ensures OwedMeta() == old(OwedMeta()) - (if Ghost(old(hdrs[k]).st) && hdrs[k].ty == Meta then hdrs[k].size else 0)
      ensures Beyond() == old(Beyond()) && hdrSize + l2HdrSize == old(hdrSize + l2HdrSize)
    {
      hide Tallied, Sum, Keyed, ResidentSize, Share;
      var to := Accessed(hdrs[k].st, prefetch, later);
      if to != hdrs[k].st { ChangeState(to, k); }
    }

    /** arc_read when the block is cached: the reader gets the buffer nobody holds, or a copy. arc_buf_add_ref is
        the former with the reader's own buffer. */
    method ReadHit(k: nat, available: bool, prefetch: bool, later: bool, tries: seq<Try>)
      requires Valid() && k in hdrs && Cached(hdrs[k]) && (available ==> hdrs[k].refcnt < hdrs[k].datacnt)
      modifies this`hdrs, this`lists, this`lsize, this`size, this`t
      modifies this`dataSize, this`metaUsed, this`arcSize, this`hdrSize, this`l2HdrSize, this`otherSize
      ensures Valid() && k in hdrs && Shed(old(hdrs), hdrs[k := old(hdrs)[k]], hdrs[k].ty)
      ensures var h := old(hdrs[k]);
              hdrs[k] == h.(st := Accessed(h.st, prefetch, later), refcnt := h.refcnt + 1,
                            datacnt := h.datacnt + if available then 0 else 1)
    {
      hide Tallied, Sum, Keyed, ResidentSize, Share, Weight, InBounds, Books, Owed, OwedMeta, Beyond, Shed;
      ghost var h := hdrs[k];
      Hold(k, available, prefetch, tries);
      ghost var m := hdrs;
      Access(k, prefetch, later);
      assert hdrs[k := h] == m[k := h];
    }

    method Hold(k: nat, available: bool, prefetch: bool, tries: seq<Try>)
      requires Books() && Covered() && SoundBut(k) && InBounds(t) && k in hdrs && 0 < hdrs[k].size < 0x8000_0000
      requires (hdrs[k].st == Mru || hdrs[k].st == Mfu) && hdrs[k].datacnt > 0
      modifies this`hdrs, this`lists, this`lsize, this`size, this`t
      modifies this`dataSize, this`metaUsed, this`arcSize, this`hdrSize, this`l2HdrSize, this`otherSize
      ensures Books() && SoundBut(k) && InBounds(t) && k in hdrs && Shed(old(hdrs), hdrs[k := old(hdrs)[k]], hdrs[k].ty)
      ensures var h := old(hdrs[k]); hdrs[k] == h.(refcnt := h.refcnt + 1, datacnt := h.datacnt + if available then 0
              else 1)
      ensures Owed() == old(Owed()) && OwedMeta() == old(OwedMeta()) && Beyond() == old(Beyond())
    {
      hide Tallied, Sum, Keyed, ResidentSize, Share, Weight, InBounds, Books, Owed, OwedMeta, Beyond, Shed, Goal;
      hide Outgrow, Room, Sound;
      ghost var m, h := hdrs, hdrs[k];
      AddReference(k);
      ShedNothing(m, h.ty);
      assert hdrs[k := h] == m;
      if !available {
        ghost var m1 := hdrs;
        GetDataBuf(k, prefetch, tries);
        ShedSwap(m1, hdrs[k := m1[k]], k, h, h.ty);
        assert m1[k := h] == m && hdrs[k := m1[k]][k := h] == hdrs[k := h];
      }
    }

    /** arc_read of a cached block by nobody in particular: the access counts, and that is all. */
    method Touch(k: nat, prefetch: bool, later: bool)
      requires Valid() && k in hdrs && Cached(hdrs[k])
      modifies this`hdrs, this`lists, this`lsize, this`size, this`hdrSize, this`l2HdrSize
      ensures Valid() && hdrs == old(hdrs)[k := old(hdrs[k]).(st := Accessed(old(hdrs[k]).st, prefetch, later))]
    {
      hide Tallied, Sum, Keyed, ResidentSize, Share, Weight, InBounds, Books, Owed, OwedMeta, Beyond;
      Access(k, prefetch, later);
    }

    /** arc_read of a block that is being read already: the reader joins those that wait for it. Also what arc_freed
        does first with a buffer nobody holds. */
    method Join(k: nat)
      requires Valid() && k in hdrs && !Ghost(hdrs[k].st) && hdrs[k].io != Writing
      requires hdrs[k].io == Idle ==> hdrs[k].refcnt < hdrs[k].datacnt && hdrs[k].st != Anon
      modifies this`hdrs, this`lists, this`lsize
      ensures Valid() && hdrs == old(hdrs)[k := old(hdrs[k]).(refcnt := old(hdrs[k]).refcnt + 1)]
    {
      hide Tallied, Sum, Keyed, ResidentSize, Share, Weight, InBounds, Books, Owed, OwedMeta, Beyond;
      AddReference(k);
    }

    /** arc_read when the block is known as a ghost: it gets a data block and becomes resident again, waiting for
        the data. */
    method ReadGhost(k: nat, prefetch: bool, tries: seq<Try>)
      requires Valid() && k in hdrs && Ghost(hdrs[k].st)
      modifies this`hdrs, this`lists, this`lsize, this`size, this`t
      modifies this`dataSize, this`metaUsed, this`arcSize, this`hdrSize, this`l2HdrSize, this`otherSize
      ensures Valid() && k in hdrs && Shed(old(hdrs), hdrs[k := old(hdrs)[k]], hdrs[k].ty)
      ensures var h := old(hdrs[k]);
              hdrs[k] == h.(st := Accessed(h.st, prefetch, true), refcnt := if prefetch then 0 else 1, datacnt := 1,
                  io := Reading)
    {
      hide Tallied, Sum, Keyed, ResidentSize, Share, Weight, InBounds, Books, Owed, OwedMeta, Beyond, Shed, Goal;
      hide Outgrow, Room;
      ghost var h := hdrs[k];
      Revive(k, prefetch, tries);
      ghost var m := hdrs;
      SetIo(k, Reading);
      assert hdrs[k := h] == m[k := h];
      assert SoundBut(k);
    }

    method Revive(k: nat, prefetch: bool, tries: seq<Try>)
      requires Books() && Covered() && SoundBut(k) && InBounds(t) && k in hdrs && Ghost(hdrs[k].st) && Sound(hdrs[k])
      modifies this`hdrs, this`lists, this`lsize, this`size, this`t
      modifies this`dataSize, this`metaUsed, this`arcSize, this`hdrSize, this`l2HdrSize, this`otherSize
      ensures Books() && SoundBut(k) && InBounds(t) && k in hdrs && Shed(old(hdrs), hdrs[k := old(hdrs)[k]], hdrs[k].ty)
      ensures var h := old(hdrs[k]); hdrs[k] == h.(st := Accessed(h.st, prefetch, true), refcnt := if prefetch then 0
              else 1, datacnt := 1)
      ensures Owed() == old(Owed()) && OwedMeta() == old(OwedMeta()) && Beyond() == old(Beyond())
    {
      hide Tallied, Sum, Keyed, ResidentSize, Share, Weight, InBounds, Books, Owed, OwedMeta, Beyond, Shed, Goal;
      hide Outgrow, Room;
      ghost var m, h := hdrs, hdrs[k];
      if !prefetch { AddReference(k); }
      FirstBuffer(k);
      ghost var m1 := hdrs;
      GetDataBuf(k, prefetch, tries);
      ShedSwap(m1, hdrs[k := m1[k]], k, h, h.ty);
      assert m1[k := h] == m && hdrs[k := m1[k]][k := h] == hdrs[k := h];
      ghost var m2 := hdrs;
      Access(k, prefetch, true);
      assert hdrs[k := h] == m2[k := h];
    }

    method FirstBuffer(k: nat)
      requires Books() && k in hdrs && Ghost(hdrs[k].st)
      modifies this`hdrs
      ensures Books() && hdrs == old(hdrs)[k := old(hdrs[k]).(datacnt := 1)]
      ensures Owed() == old(Owed()) && OwedMeta() == old(OwedMeta()) && Beyond() == old(Beyond())
    {
      hide Tallied, Sum, Keyed, ResidentSize, Share, Weight;
      GhostTallied(hdrs, Y(), k, 1);
      hdrs := hdrs[k := hdrs[k].(datacnt := 1)];
    }

    /** arc_read_done: the header joins the cache, or leaves it if there was an error, and everybody who waits gets a
        buffer, all but one of them a copy. `failed` tells whether an assertion of arc_buf_clone failed. */
    method ReadDone(k: nat, ok: bool, tries: seq<seq<Try>>) returns (failed: bool)
      requires Valid() && k in hdrs && hdrs[k].io == Reading
      modifies this
      ensures Valid() && Shed(old(hdrs) - {k}, hdrs - {k}, old(hdrs[k]).ty)
      ensures var h := old(hdrs[k]);
              && (k in hdrs <==> ok || h.refcnt > 0) && (failed <==> !ok && h.st == Anon && h.refcnt > 1)
              && (k in hdrs ==>
                    hdrs[k] == h.(st := if !ok then Anon else if h.st == Anon then Mru else h.st, datacnt :=
                        Max(1, h.refcnt), io := Idle))
    {
      hide Tallied, Sum, Keyed, ResidentSize, Share, Weight, InBounds, Books, Owed, OwedMeta, Beyond, Shed;
      failed := Deliver(k, ok, tries);
      EndRead(k, ok);
    }

    method Deliver(k: nat, ok: bool, tries: seq<seq<Try>>) returns (failed: bool)
      requires Books() && Covered() && SoundBut(k) && InBounds(t) && k in hdrs && !Ghost(hdrs[k].st)
      requires hdrs[k].io == Reading && hdrs[k].datacnt == 1 && 0 < hdrs[k].size < 0x8000_0000
      modifies this`hdrs, this`lists, this`lsize, this`size, this`t
      modifies this`dataSize, this`metaUsed, this`arcSize, this`hdrSize, this`l2HdrSize, this`otherSize
      ensures Books() && SoundBut(k) && InBounds(t) && k in hdrs && Shed(old(hdrs) - {k}, hdrs - {k}, hdrs[k].ty)
      ensures var h := old(hdrs[k]);
              && (failed <==> !ok && h.st == Anon && h.refcnt > 1)
              && hdrs[k] == h.(st := if ok && h.st == Anon then Mru else h.st, datacnt := Max(1, h.refcnt))
      ensures Owed() == old(Owed()) && OwedMeta() == old(OwedMeta()) && Beyond() == old(Beyond())
    {
      hide Tallied, Sum, Keyed, ResidentSize, Share, Weight, InBounds, Books, Owed, OwedMeta, Beyond, Shed, Sound;
      ghost var h, m := hdrs[k], hdrs - {k};
      if ok && hdrs[k].st == Anon { Access(k, false, false); }
      ghost var m1 := hdrs;
      assert hdrs - {k} == m;
      failed := CopyAll(k, tries);
      ShedWithout(m1, hdrs[k := m1[k]], k, h.ty);
      assert hdrs[k := m1[k]] - {k} == hdrs - {k};
    }

    /** The copies: one for everybody who waits but the first. */
    method CopyAll(k: nat, tries: seq<seq<Try>>) returns (failed: bool)
      requires Books() && Covered() && SoundBut(k) && InBounds(t) && k in hdrs && !Ghost(hdrs[k].st)
      requires hdrs[k].io == Reading && hdrs[k].datacnt == 1 && 0 < hdrs[k].size < 0x8000_0000
      modifies this`hdrs, this`lists, this`lsize, this`size, this`t
      modifies this`dataSize, this`metaUsed, this`arcSize, this`hdrSize, this`l2HdrSize, this`otherSize
      ensures Books() && SoundBut(k) && InBounds(t) && k in hdrs && Shed(old(hdrs), hdrs[k := old(hdrs)[k]], hdrs[k].ty)
      ensures var h := old(hdrs[k]);
                hdrs[k] == h.(datacnt := Max(1, h.refcnt)) && (failed <==> h.st == Anon && h.refcnt > 1)
      ensures Owed() == old(Owed()) && OwedMeta() == old(OwedMeta()) && Beyond() == old(Beyond())
    {
      hide Tallied, Sum, Keyed, ResidentSize, Share, Weight, InBounds, Books, Owed, OwedMeta, Beyond, Shed, Goal;
      hide Outgrow, Room;
      ghost var m, h := hdrs, hdrs[k];
      var done := 1;
      failed := false;
      ShedNothing(m, h.ty);
      assert hdrs[k := h] == m;
      while done < hdrs[k].refcnt
        invariant 1 <= done <= Max(1, h.refcnt) && Books() && SoundBut(k) && InBounds(t) && k in hdrs
        invariant hdrs[k] == h.(datacnt := done) && (failed <==> h.st == Anon && done > 1)
        invariant Shed(m, hdrs[k := h], h.ty)
        invariant Owed() == old(Owed()) && OwedMeta() == old(OwedMeta()) && Beyond() == old(Beyond())
        decreases hdrs[k].refcnt - done
      {
        ghost var m1 := hdrs;
        if hdrs[k].st == Anon { failed := true; }
        GetDataBuf(k, false, if done < |tries| then tries[done] else []);
        ShedSwap(m1, hdrs[k := m1[k]], k, h, h.ty);
        assert hdrs[k := m1[k]][k := h] == hdrs[k := h];
        ShedTwice(m, m1[k := h], hdrs[k := h], h.ty);
        done := done + 1;
      }
    }

    method EndRead(k: nat, ok: bool)
      requires Books() && Covered() && SoundBut(k) && InBounds(t) && k in hdrs && !Ghost(hdrs[k].st)
      requires hdrs[k].io == Reading && hdrs[k].datacnt == Max(1, hdrs[k].refcnt) && (ok ==> hdrs[k].st != Anon)
      requires 0 < hdrs[k].size < 0x8000_0000
      modifies this
      ensures Books() && SoundBut(-1) && InBounds(t) && hdrs - {k} == old(hdrs) - {k}
      ensures (k in hdrs <==> ok || old(hdrs[k]).refcnt > 0)
      ensures k in hdrs ==> hdrs[k] == old(hdrs[k]).(st := if ok then old(hdrs[k]).st else Anon, io := Idle)
      ensures Owed() == old(Owed()) && OwedMeta() == old(OwedMeta()) && bufSpace == old(bufSpace)
      ensures Beyond().0 == old(Beyond()).0 && Beyond().2 == old(Beyond()).2
      ensures Beyond().1 - spare == old(Beyond().1 - spare)
      ensures spare >= old(spare)
    {
      hide Tallied, Sum, Keyed, ResidentSize, Share, Weight, InBounds, Books, Owed, OwedMeta, Beyond;
      ghost var m := hdrs;
      SetIo(k, Idle);
      assert hdrs - {k} == m - {k};
      if !ok {
        SameHeld(hdrs[k], Anon);
        if hdrs[k].st != Anon { ChangeState(Anon, k); }
        assert hdrs - {k} == m - {k};
        if hdrs[k].refcnt == 0 { HdrDestroy(k); }
      }
    }

    /** arc_write_ready, of the only buffer of an anonymous header. */
    method WriteBegin(k: nat)
      requires Valid() && k in hdrs && hdrs[k].st == Anon && hdrs[k].io == Idle && hdrs[k].datacnt == 1
      requires hdrs[k].refcnt > 0
      modifies this`hdrs
      ensures Valid() && hdrs == old(hdrs)[k := old(hdrs[k]).(io := Writing)]
    {
      hide Tallied, Sum, Keyed, ResidentSize, Share, Weight, InBounds, Books, Owed, OwedMeta, Beyond;
      SetIo(k, Writing);
    }

    /** arc_write_done: the header joins the cache, unless there is nothing to cache or the block is there already.
        `failed` tells whether the assertion at its end failed. */
    method WriteDone(k: nat, cached: bool) returns (failed: bool)
      requires Valid() && k in hdrs && hdrs[k].io == Writing
      modifies this`hdrs, this`lists, this`lsize, this`size, this`hdrSize, this`l2HdrSize
      ensures Valid() && hdrs == old(hdrs)[k := old(hdrs[k]).(st := if cached then Mru else Anon, io := Idle)]
      ensures failed <==> old(hdrs[k]).refcnt == 0
    {
      hide Tallied, Sum, Keyed, ResidentSize, Share, Weight, InBounds, Books, Owed, OwedMeta, Beyond;
      SetIo(k, Idle);
      if cached { Access(k, false, false); }
      failed := hdrs[k].refcnt == 0;
    }

    /** arc_write_done, when the block that was overwritten is cached: its header dies. */
    method Discard(k: nat)
      requires Valid() && k in hdrs && hdrs[k].st != Anon && hdrs[k].refcnt == 0 && hdrs[k].io == Idle
      modifies this
      ensures Valid() && hdrs == old(hdrs) - {k}
    {
      hide Tallied, Sum, Keyed, ResidentSize, Share, Weight, InBounds, Books, Owed, OwedMeta, Beyond;
      if Ghost(hdrs[k].st) {
        NoBuffers(hdrs[k]);
        NoBuffers(hdrs[k].(st := Anon));
      } else {
        SameHeld(hdrs[k], Anon);
      }
      ChangeState(Anon, k);
      HdrDestroy(k);
      assert hdrs == old(hdrs) - {k};
    }

    /** arc_hdr_destroy. */
    method HdrDestroy(k: nat)
      requires Books() && Covered() && k in hdrs && SoundBut(k) && hdrs[k].st == Anon && hdrs[k].refcnt == 0
      requires hdrs[k].io == Idle
      modifies this
      ensures Books() && hdrs == old(hdrs) - {k} && SoundBut(-1) && t == old(t) && spare == old(spare) + hdrBytes
      ensures bufSpace == old(bufSpace)
      ensures Owed() == old(Owed()) && OwedMeta() == old(OwedMeta())
      ensures Beyond() == (old(Beyond()).0, old(Beyond()).1 + hdrBytes, old(Beyond()).2)
    {
      hide Tallied, Sum, Keyed, ResidentSize, Share, Weight, InBounds, Books, Owed, OwedMeta, Beyond;
      if hdrs[k].l2 { DropL2(k); }
      while hdrs[k].datacnt > 0
        invariant Books() && k in hdrs && hdrs == old(hdrs)[k := hdrs[k]] && hdrs[k].st == Anon && hdrs[k].refcnt == 0
        invariant !hdrs[k].l2
        invariant t == old(t) && spare == old(spare) && bufSpace == old(bufSpace)
        invariant Owed() == old(Owed()) && OwedMeta() == old(OwedMeta()) && Beyond() == old(Beyond())
        decreases hdrs[k].datacnt
      {
        BufDestroy(k, false);
      }
      assert hdrs - {k} == old(hdrs) - {k};
      OldHdr(k);
    }

    /** A header gets or loses its L2 header. */
    method AddL2(k: nat)
      requires Valid() && k in hdrs && !hdrs[k].l2 && !Ghost(hdrs[k].st)
      modifies this
      ensures Valid() && hdrs == old(hdrs)[k := old(hdrs[k]).(l2 := true)]
    {
      hide Tallied, Sum, Keyed, ResidentSize, Share, Weight, InBounds;
      L2Tallied(hdrs, Y(), k, true);
      SpaceMoved(hdrs, k, hdrs[k].(l2 := true), hdrBytes, l2HdrBytes);
      hdrs := hdrs[k := hdrs[k].(l2 := true)];
      SpaceConsume(l2HdrBytes, L2HdrSpace);
    }

    method DropL2(k: nat)
      requires Books() && Covered() && k in hdrs && hdrs[k].l2
      modifies this`hdrs, this`dataSize, this`hdrSize, this`l2HdrSize, this`otherSize, this`metaUsed, this`arcSize
      ensures Books() && hdrs == old(hdrs)[k := old(hdrs[k]).(l2 := false)]
      ensures Owed() == old(Owed()) && OwedMeta() == old(OwedMeta()) && Beyond() == old(Beyond())
    {
      hide Tallied, Sum, Keyed, ResidentSize, Share, Weight;
      Enough(k);
      L2Tallied(hdrs, Y(), k, false);
      SpaceMoved(hdrs, k, hdrs[k].(l2 := false), hdrBytes, l2HdrBytes);
      hdrs := hdrs[k := hdrs[k].(l2 := false)];
      SpaceReturn(l2HdrBytes, L2HdrSpace);
    }

    /** l2arc_evict of one header: one that is only in the L2 cache dies with its L2 header. */
    method L2Evict(k: nat)
      requires Valid() && k in hdrs && hdrs[k].l2
      modifies this
      ensures Valid()
      ensures hdrs == if old(hdrs[k]).st == L2cOnly then old(hdrs) - {k} else old(hdrs)[k := old(hdrs[k]).(l2 := false)]
    {
      hide Tallied, Sum, Keyed, ResidentSize, Share, Weight, InBounds;
      if hdrs[k].st == L2cOnly {
        NoBuffers(hdrs[k]);
        NoBuffers(hdrs[k].(st := Anon));
        ChangeState(Anon, k);
        HdrDestroy(k);
        assert hdrs == old(hdrs) - {k};
      } else {
        DropL2(k);
      }
    }

    /** l2arc_write_done after an error: the header loses its L2 header, whatever its state. */
    method L2Fail(k: nat)
      requires Valid() && k in hdrs && hdrs[k].l2
      modifies this`hdrs, this`dataSize, this`hdrSize, this`l2HdrSize, this`otherSize, this`metaUsed, this`arcSize
      ensures Valid() && hdrs == old(hdrs)[k := old(hdrs[k]).(l2 := false)]
    {
      hide Tallied, Sum, Keyed, ResidentSize, Share, Weight, InBounds, Books, Owed, OwedMeta, Beyond;
      DropL2(k);
    }

    /** arc_buf_free: a reference is dropped with its buffer, unless it is the last buffer of a cached header or it is
        being written; otherwise an anonymous header dies with its last reference. */
    method BufFree(k: nat)
      requires Valid() && k in hdrs && hdrs[k].refcnt > 0 && hdrs[k].io != Reading
      modifies this
      ensures Valid()
      ensures var h := old(hdrs[k]);
              hdrs == if h.st == Anon && h.refcnt == 1 && h.io == Idle then old(hdrs) - {k}
                      else old(hdrs)[k := h.(refcnt := h.refcnt - 1, datacnt := if h.datacnt > 1 then h.datacnt - 1
                          else h.datacnt)]
    {
      hide Tallied, Sum, Keyed, ResidentSize, Share, Weight, InBounds, Books, Owed, OwedMeta, Beyond;
      var cnt := RemoveReference(k);
      if hdrs[k].st != Anon {
        if hdrs[k].datacnt > 1 { BufDestroy(k, false); }
      } else if hdrs[k].io == Writing {
        assert cnt == 0;
      } else if cnt > 0 {
        BufDestroy(k, false);
      } else {
        ghost var m := hdrs;
        HdrDestroy(k);
        assert m - {k} == old(hdrs) - {k};
      }
    }

    /** arc_buf_remove_ref: the same, but a buffer with a callback stays. `failed` tells whether the assertion for
        anonymous headers failed. */
    method BufRemoveRef(k: nat, callback: bool) returns (failed: bool)
      requires Valid() && k in hdrs && hdrs[k].refcnt > 0 && hdrs[k].io != Reading && (callback ==> hdrs[k].st != Anon)
      modifies this
      ensures Valid() && (failed <==> old(hdrs[k]).st == Anon && old(hdrs[k]).refcnt > 1)
      ensures var h := old(hdrs[k]);
              hdrs == if h.st == Anon && h.refcnt == 1 && h.io == Idle then old(hdrs) - {k}
                      else old(hdrs)[k := h.(refcnt := h.refcnt - 1,
                                             datacnt := if h.datacnt > 1 && !callback then h.datacnt - 1
                                                 else h.datacnt)]
    {
      hide Tallied, Sum, Keyed, ResidentSize, Share, Weight, InBounds, Books, Owed, OwedMeta, Beyond;
      failed := false;
      if hdrs[k].st == Anon {
        failed := hdrs[k].datacnt != 1;
        BufFree(k);
      } else {
        var cnt := RemoveReference(k);
        if hdrs[k].datacnt > 1 && !callback { BufDestroy(k, false); }
        assert !callback || hdrs[k].datacnt > 1 || cnt == 0;
      }
    }

    /** arc_evict for its own sake, from the list of a state. */
    method EvictList(st: St, bytes: int, ty: Ty, tries: seq<Try>)
      requires Valid() && (st == Mru || st == Mfu)
      modifies this
      ensures Valid() && hdrs == Scan(old(hdrs), Slot(st, ty), bytes, tries, 0, false).0 && Shed(old(hdrs), hdrs, ty)
    {
      hide Tallied, Sum, Keyed, ResidentSize, Share, Weight, InBounds, Scan, Shed, Books, Owed, OwedMeta, Beyond;
      ScanSheds(hdrs, Slot(st, ty), bytes, tries, 0, false);
      var _ := Evict(st, bytes, false, ty, tries, -1);
      NotStolen(old(hdrs), Slot(st, ty), bytes, tries, 0);
    }

    /** arc_evict_ghost of one header: it is forgotten, unless it is in the L2 cache. */
    method EvictGhost(k: nat)
      requires Valid() && k in hdrs && (hdrs[k].st == MruGhost || hdrs[k].st == MfuGhost)
      modifies this
      ensures Valid()
      ensures hdrs == if old(hdrs[k]).l2 then old(hdrs)[k := old(hdrs[k]).(st := L2cOnly)] else old(hdrs) - {k}
    {
      hide Tallied, Sum, Keyed, ResidentSize, Share, Weight, InBounds;
      NoBuffers(hdrs[k]);
      if hdrs[k].l2 {
        NoBuffers(hdrs[k].(st := L2cOnly));
        ChangeState(L2cOnly, k);
      } else {
        NoBuffers(hdrs[k].(st := Anon));
        ChangeState(Anon, k);
        HdrDestroy(k);
        assert hdrs == old(hdrs) - {k};
      }
    }

    /** arc_buf_evict: the user gives up a buffer nobody refers to. */
    method BufEvict(k: nat)
      requires Valid() && k in hdrs && Cached(hdrs[k]) && hdrs[k].refcnt < hdrs[k].datacnt
      modifies this
      ensures Valid() && hdrs == old(hdrs)[k := LeftWith(old(hdrs[k]), old(hdrs[k]).datacnt - 1)]
    {
      hide Tallied, Sum, Keyed, ResidentSize, Share, Weight, InBounds;
      BufDestroy(k, false);
      if hdrs[k].datacnt == 0 {
        NoBuffers(hdrs[k]);
        ChangeState(if hdrs[k].st == Mru then MruGhost else MfuGhost, k);
      }
    }

    /** arc_release: the buffer becomes anonymous, with a header of its own if it has to share. `failed` tells whether
        it gives back a lock that it does not have. */
    method Release(k: nat, n: nat) returns (failed: bool)
      requires Valid() && k in hdrs && hdrs[k].refcnt > 0 && hdrs[k].io == Idle && n !in hdrs
      modifies this
      ensures Valid() && (failed <==> old(hdrs[k]).st == Anon && old(hdrs[k]).refcnt > 1)
      ensures var h := old(hdrs[k]);
              if h.datacnt > 1 then
                hdrs == old(hdrs)[k := h.(refcnt := h.refcnt - 1, datacnt := h.datacnt - 1, l2 := false)]
                                 [n := Hdr(Anon, h.ty, h.size, 1, 1, false, Idle)]
              else hdrs == old(hdrs)[k := h.(st := Anon, l2 := false)]
    {
      hide Tallied, Sum, Keyed, ResidentSize, Share, Weight, InBounds, Books, Owed, OwedMeta, Beyond;
      var ab := hdrs[k];
      var locked := ab.st != Anon;
      failed := false;
      if ab.l2 { DropL2(k); }
      if ab.datacnt > 1 {
        Detach(k, n);
        failed := !locked;
      } else {
        assert ab.refcnt == 1 && !Listed(ab);
        SameHeld(hdrs[k], Anon);
        if ab.st != Anon { ChangeState(Anon, k); }
      }
    }

    /** A buffer leaves its header for a new anonymous one. */
    method Detach(k: nat, n: nat)
      requires Valid() && k in hdrs && hdrs[k].refcnt > 0 && hdrs[k].io == Idle && hdrs[k].datacnt > 1 && n !in hdrs
      modifies this
      ensures Valid()
      ensures var h := old(hdrs[k]);
              hdrs == old(hdrs)[k := h.(refcnt := h.refcnt - 1, datacnt := h.datacnt - 1)][n :=
                  Hdr(Anon, h.ty, h.size, 1, 1, false, Idle)]
    {
      hide Tallied, Sum, Keyed, ResidentSize, Share, Weight, InBounds, Books, Owed, OwedMeta, Beyond;
      var ab := hdrs[k];
      var cnt := RemoveReference(k);
      TakeAway(k, hdrs[k]);
      NewAnon(n, ab.ty, ab.size);
    }

    /** The counters after the reference is gone, which tells whether the header is on a list now. */
    method TakeAway(k: nat, ab: Hdr)
      requires Books() && k in hdrs && ab == hdrs[k] && Resident(ab.st) && ab.datacnt > 0
      requires (ab.refcnt == 0 ==> ab.st != Anon)
      modifies this`hdrs, this`lsize, this`size
      ensures Books() && hdrs == old(hdrs)[k := ab.(datacnt := ab.datacnt - 1)]
      ensures Owed() == old(Owed()) + ab.size && OwedMeta() == old(OwedMeta()) + (if ab.ty == Meta then ab.size else 0)
      ensures Beyond() == old(Beyond())
    {
      hide Tallied, Sum, Keyed, ResidentSize;
      CountTallied(hdrs, Y(), k, ab.(datacnt := ab.datacnt - 1));
      SpaceMoved(hdrs, k, ab.(datacnt := ab.datacnt - 1), hdrBytes, l2HdrBytes);
      KeyedAt(Y(), SlotOf(ab));
      OneLess(ab);
      assert size[ab.st] >= ab.size;
      size := size[ab.st := size[ab.st] - ab.size];
      if ab.refcnt == 0 {
        assert lsize[SlotOf(ab)] >= ab.size;
        lsize := lsize[SlotOf(ab) := lsize[SlotOf(ab)] - ab.size];
      }
      hdrs := hdrs[k := ab.(datacnt := ab.datacnt - 1)];
    }

    method NewAnon(n: nat, ty: Ty, bytes: nat)
      requires Books() && n !in hdrs
      modifies this
      ensures Books() && hdrs == old(hdrs)[n := Hdr(Anon, ty, bytes, 1, 1, false, Idle)] && t == old(t)
      ensures bufSpace == old(bufSpace)
      ensures Owed() == old(Owed()) - bytes && OwedMeta() == old(OwedMeta()) - (if ty == Meta then bytes else 0)
      ensures Beyond().0 == old(Beyond()).0 && Beyond().2 == old(Beyond()).2
      ensures Beyond().1 - spare == old(Beyond().1 - spare) && (old(spare) >= 0 ==> spare >= 0)
    {
      hide Tallied, Sum, Keyed, ResidentSize, Share, Weight, InBounds, Books, Owed, OwedMeta, Beyond;
      NewHdr(n, ty, bytes);
      Count(n, hdrs[n]);
      AddReference(n);
    }

    // ----- whole runs -----

    /** What every reachable state satisfies, spelled out. */
    lemma Audit(slot: Slot, k: nat)
      requires Valid()
      ensures Keyed(Y())
      ensures k in lists[slot] <==>
                k in hdrs && hdrs[k].st == slot.st && hdrs[k].ty == slot.ty && slot.st != Anon && hdrs[k].refcnt == 0
      ensures lsize[slot] == Sum(hdrs, ListOf(slot)) >= 0
      ensures size[slot.st] == Sum(hdrs, StateOf(slot.st)) >= 0
      ensures dataSize == size[Anon] + size[Mru] + size[Mfu] && dataSize >= 0
      ensures hdrSize == Sum(hdrs, HdrsOf(hdrBytes)) + spare + bufSpace && hdrSize >= 0
      ensures l2HdrSize == Sum(hdrs, L2Space(hdrBytes, l2HdrBytes)) >= 0
      ensures arcSize == dataSize + hdrSize + l2HdrSize + otherSize && arcSize >= 0
      ensures metaUsed == hdrSize + l2HdrSize + otherSize + Sum(hdrs, MetaData) && metaUsed >= 0
    {
      hide Sum, Share;
      assert size[Anon] == Sum(hdrs, StateOf(Anon)) && size[Mru] == Sum(hdrs, StateOf(Mru));
      assert size[Mfu] == Sum(hdrs, StateOf(Mfu));
    }

    /** One operation, if it can be applied; headers being written are left to those who write them. */
    method Step(op: Op)
      requires Valid()
      modifies this
      ensures Valid() && Lawful(old(hdrs), hdrs, op) && Underways(old(hdrs), hdrs, op)
    {
      hide Valid, Underways, Lawful, Beside, Newcomers;
      if HasK(op) {
        StepAt(op);
      } else {
        if op.Allocated? || op.Missed? {
          StepNew(op, op.k, op.bytes, op.ty);
        } else if op.Evicted? {
          StepList(op.st, op.limit, op.ty, op.tries);
        } else {
          StepSpace(op);
        }
        AllBeside(old(hdrs), hdrs, op);
      }
    }

    method StepAt(op: Op)
      requires Valid() && HasK(op)
      modifies this
      ensures Valid() && Lawful(old(hdrs), hdrs, op) && Underways(old(hdrs), hdrs, op)
    {
      hide Valid, Underways, Lawful, Beside, Newcomers, Own;
      if op.k in hdrs {
        if ForRead(op) {
          StepRead(op, op.k, hdrs[op.k]);
        } else if ForIo(op) {
          StepIo(op, op.k, hdrs[op.k]);
        } else if ForBuf(op) {
          StepBuf(op, op.k, hdrs[op.k]);
        } else {
          StepRest(op, op.k, hdrs[op.k]);
        }
        OwnAndBeside(old(hdrs), hdrs, op);
      } else {
        NobodyThere(hdrs, op);
      }
    }

    method StepNew(op: Op, k: nat, bytes: nat, ty: Ty)
      requires Valid() && (op.Allocated? || op.Missed?)
      modifies this
      ensures Valid() && Beside(old(hdrs), hdrs, -1) && Newcomers(old(hdrs), hdrs)
    {
      hide Tallied, Sum, Keyed, ResidentSize, Share, Weight, InBounds, Books, Owed, OwedMeta, Beyond, Sound, Shed;
      if k !in hdrs && 0 < bytes < 0x8000_0000 {
        if op.Allocated? {
          BufAlloc(k, bytes, ty, op.tries);
        } else {
          ReadMiss(k, bytes, ty, op.prefetch, op.tries);
        }
        NewBeside(old(hdrs), hdrs, ty, k);
      }
    }

    method StepList(st: St, limit: int, ty: Ty, tries: seq<Try>)
      requires Valid()
      modifies this
      ensures Valid() && Beside(old(hdrs), hdrs, -1) && Newcomers(old(hdrs), hdrs)
    {
      hide Tallied, Sum, Keyed, ResidentSize, Share, Weight, InBounds, Books, Owed, OwedMeta, Beyond, Sound, Shed, Scan;
      if st == Mru || st == Mfu {
        EvictList(st, limit, ty, tries);
        ShedBeside(old(hdrs), hdrs, ty);
      }
    }

    method StepSpace(op: Op)
      requires Valid()
      modifies this
      ensures Valid() && Beside(old(hdrs), hdrs, -1) && Newcomers(old(hdrs), hdrs)
    {
      hide Tallied, Sum, Keyed, ResidentSize, Share, Weight, InBounds, Books, Owed, OwedMeta, Beyond, Sound;
      match op {
        case Constructed(header) => Construct(header);
        case Destructed(header) => if if header then spare >= hdrBytes else bufSpace >= bufBytes { Destruct(header); }
        case Consumed(space) => Consume(space);
        case Returned(space) => if otherSize >= space { Return(space); }
        case _ =>
      }
    }

    lemma WriterAnon(k: nat)
      requires Valid()
      ensures k in hdrs && hdrs[k].io == Writing ==> hdrs[k].st == Anon && hdrs[k].datacnt == 1 && hdrs[k].refcnt <= 1
      ensures k in hdrs && hdrs[k].io == Reading ==> !Ghost(hdrs[k].st)
      ensures k in hdrs && hdrs[k].refcnt > 0 ==> hdrs[k].datacnt > 0
    {
      hide Books, Owed, OwedMeta, Beyond, InBounds;
    }

    /** One operation on a header. */
    method StepRead(op: Op, k: nat, h: Hdr)
      requires Valid() && k in hdrs && h == hdrs[k] && ForRead(op) && op.k == k
      modifies this
      ensures Valid() && Beside(old(hdrs), hdrs, k) && Newcomers(old(hdrs), hdrs) && Own(old(hdrs), hdrs, k, op)
    {
      hide Tallied, Sum, Keyed, ResidentSize, Share, Weight, InBounds, Books, Owed, OwedMeta, Beyond, Sound, Shed;
      hide Evictee, Beside, Newcomers;
      ghost var m := hdrs;
      WriterAnon(k);
      JustOne(m, hdrs, k);
      match op {
        case Hit(_, available, prefetch, later, tries) =>
          if Cached(h) && (available ==> h.refcnt < h.datacnt) {
            ReadHit(k, available, prefetch, later, tries);
            SwapBeside(m, hdrs, h.ty, k);
          }
        case Touched(_, prefetch, later) =>
          if Cached(h) {
            Touch(k, prefetch, later);
            JustOne(m, hdrs, k);
          }
        case Joined(_) =>
          if h.io == Reading || (Cached(h) && h.refcnt < h.datacnt) {
            Join(k);
            JustOne(m, hdrs, k);
          }
        case GhostHit(_, prefetch, tries) =>
          if Ghost(h.st) {
            ReadGhost(k, prefetch, tries);
            SwapBeside(m, hdrs, h.ty, k);
          }
        case _ =>
      }
    }

    method StepIo(op: Op, k: nat, h: Hdr)
      requires Valid() && k in hdrs && h == hdrs[k] && ForIo(op) && op.k == k
      modifies this
      ensures Valid() && Beside(old(hdrs), hdrs, k) && Newcomers(old(hdrs), hdrs) && Own(old(hdrs), hdrs, k, op)
    {
      hide Tallied, Sum, Keyed, ResidentSize, Share, Weight, InBounds, Books, Owed, OwedMeta, Beyond, Sound, Shed;
      hide Evictee, Beside, Newcomers;
      ghost var m := hdrs;
      WriterAnon(k);
      JustOne(m, hdrs, k);
      match op {
        case ReadOver(_, ok, tries) =>
          if h.io == Reading {
            var _ := ReadDone(k, ok, tries);
            RestBeside(m, hdrs, h.ty, k);
          }
        case WriteBegun(_) =>
          if h.st == Anon && h.io == Idle && h.datacnt == 1 && h.refcnt > 0 {
            WriteBegin(k);
            JustOne(m, hdrs, k);
          }
        case WriteOver(_, cached) =>
          if h.io == Writing {
            var _ := WriteDone(k, cached);
            JustOne(m, hdrs, k);
          }
        case Overwritten(_) =>
          if h.st != Anon && h.refcnt == 0 && h.io == Idle {
            Discard(k);
            JustOne(m, hdrs, k);
          }
        case _ =>
      }
    }

    method StepBuf(op: Op, k: nat, h: Hdr)
      requires Valid() && k in hdrs && h == hdrs[k] && ForBuf(op) && op.k == k
      modifies this
      ensures Valid() && Beside(old(hdrs), hdrs, k) && Newcomers(old(hdrs), hdrs) && Own(old(hdrs), hdrs, k, op)
    {
      hide Tallied, Sum, Keyed, ResidentSize, Share, Weight, InBounds, Books, Owed, OwedMeta, Beyond, Sound, Shed;
      hide Evictee, Beside, Newcomers, LeftWith;
      ghost var m := hdrs;
      WriterAnon(k);
      JustOne(m, hdrs, k);
      match op {
        case Freed(_) =>
          if h.refcnt > 0 && h.io != Reading {
            BufFree(k);
            JustOne(m, hdrs, k);
          }
        case Dropped(_, callback) =>
          if h.refcnt > 0 && h.io != Reading && (callback ==> h.st != Anon) {
            var _ := BufRemoveRef(k, callback);
            JustOne(m, hdrs, k);
          }
        case Released(_, n) =>
          if h.refcnt > 0 && h.io == Idle && n !in hdrs {
            var _ := Release(k, n);
            OneAndNew(m, hdrs, k, n);
          }
        case _ =>
      }
    }

    method StepRest(op: Op, k: nat, h: Hdr)
      requires Valid() && k in hdrs && h == hdrs[k] && ForRest(op) && op.k == k
      modifies this
      ensures Valid() && Beside(old(hdrs), hdrs, k) && Newcomers(old(hdrs), hdrs) && Own(old(hdrs), hdrs, k, op)
    {
      hide Tallied, Sum, Keyed, ResidentSize, Share, Weight, InBounds, Books, Owed, OwedMeta, Beyond, Sound, Shed;
      hide Evictee, Beside, Newcomers, LeftWith;
      ghost var m := hdrs;
      WriterAnon(k);
      JustOne(m, hdrs, k);
      match op {
        case Forgotten(_) =>
          if h.st == MruGhost || h.st == MfuGhost {
            EvictGhost(k);
            JustOne(m, hdrs, k);
          }
        case BufferEvicted(_) =>
          if Cached(h) && h.refcnt < h.datacnt {
            OneBufferLess(h);
            BufEvict(k);
            JustOne(m, hdrs, k);
          }
        case L2Written(_) =>
          if !h.l2 && !Ghost(h.st) {
            AddL2(k);
            JustOne(m, hdrs, k);
          }
        case L2Evicted(_) =>
          if h.l2 {
            L2Evict(k);
            JustOne(m, hdrs, k);
          }
        case L2Failed(_) =>
          if h.l2 {
            L2Fail(k);
            JustOne(m, hdrs, k);
          }
        case _ =>
      }
    }

    /** Every run of operations keeps the books, and moves headers by the rules. */
    method Run(ops: seq<Op>) returns (ghost ms: seq<map<nat, Hdr>>)
      requires Valid()
      modifies this
      ensures Valid() && Trace(ms, ops) && ms[0] == old(hdrs) && ms[|ops|] == hdrs
    {
      hide Valid, Lawful, Underways;
      ms := [hdrs];
      for i := 0 to |ops|
        invariant Valid() && |ms| == i + 1 && ms[0] == old(hdrs) && ms[i] == hdrs
        invariant forall j :: 0 <= j < i ==> Lawful(ms[j], ms[j + 1], ops[j])
      {
        Step(ops[i]);
        ms := ms + [hdrs];
      }
    }

    /** The read of a block that is not cached from its beginning to its end, with whatever operations in between: the
        assertion of arc_buf_clone fails exactly when the read does and two or more wait for it. */
    method ReadThrough(k: nat, bytes: nat, ty: Ty, prefetch: bool, tries: seq<Try>, ops: seq<Op>, ok: bool,
                       each: seq<seq<Try>>)
      returns (failed: bool)
      requires Valid() && k !in hdrs && 0 < bytes < 0x8000_0000
      requires forall i :: 0 <= i < |ops| ==> !Ends(ops[i], k, Reading)
      modifies this
      ensures Valid() && (failed <==> !ok && (if prefetch then 0 else 1) + Waiting(ops, k) > 1)
    {
      hide Books, Owed, OwedMeta, Beyond, InBounds, Sound, Shed;
      ReadMiss(k, bytes, ty, prefetch, tries);
      assert ops[..|ops|] == ops;
      for i := 0 to |ops|
        invariant Valid() && k in hdrs && hdrs[k].io == Reading && hdrs[k].st == Anon
        invariant hdrs[k].refcnt == (if prefetch then 0 else 1) + Waiting(ops[..i], k)
      {
        assert ops[..i + 1][..i] == ops[..i];
        Step(ops[i]);
      }
      failed := ReadDone(k, ok, each);
    }

    /** A write from its beginning to its end, with whatever operations in between: the assertion of arc_write_done
        fails exactly when one of them frees the buffer, or drops its reference. */
    method WriteThrough(k: nat, ops: seq<Op>, cached: bool) returns (failed: bool)
      requires Valid() && k in hdrs && hdrs[k].st == Anon && hdrs[k].io == Idle && hdrs[k].datacnt == 1
      requires hdrs[k].refcnt > 0
      requires forall i :: 0 <= i < |ops| ==> !Ends(ops[i], k, Writing)
      modifies this
      ensures Valid() && (failed <==> exists i :: 0 <= i < |ops| && Lets(ops[i], k))
    {
      hide Books, Owed, OwedMeta, Beyond, InBounds, Sound;
      WriteBegin(k);
      WriterAnon(k);
      for i := 0 to |ops|
        invariant Valid() && k in hdrs && hdrs[k].io == Writing
        invariant hdrs[k].refcnt == if exists j :: 0 <= j < i && Lets(ops[j], k) then 0 else 1
      {
        Step(ops[i]);
      }
      failed := WriteDone(k, cached);
    }
  }

  /** In every cache: when the read of a new block fails while two wait for it, the copy for the second is made in
      the anonymous state, which arc_buf_clone rules out, and the first of them cannot drop its reference, as
      arc_buf_remove_ref expects one buffer in that state. */
  method SharedReadFails(c: Cache, k: nat, bytes: nat, ty: Ty) returns (copy: bool, drop: bool)
    requires c.Valid() && k !in c.hdrs && 0 < bytes < 0x8000_0000
    modifies c
    ensures c.Valid() && copy && drop
  {
    c.ReadMiss(k, bytes, ty, false, []);
    c.Join(k);
    copy := c.ReadDone(k, false, []);
    drop := c.BufRemoveRef(k, false);
  }

  /** And if the first of them releases its buffer instead, arc_release gives back a lock it did not take. */
  method SharedReleaseFails(c: Cache, k: nat, n: nat, bytes: nat, ty: Ty) returns (lock: bool)
    requires c.Valid() && k !in c.hdrs && n !in c.hdrs && n != k && 0 < bytes < 0x8000_0000
    modifies c
    ensures c.Valid() && lock
  {
    hide Sound, Shed;
    ghost var m := c.hdrs;
    c.ReadMiss(k, bytes, ty, false, []);
    ShedKeys(m, c.hdrs - {k}, ty);
    c.Join(k);
    m := c.hdrs - {k};
    var _ := c.ReadDone(k, false, []);
    ShedKeys(m, c.hdrs - {k}, ty);
    assert n !in (c.hdrs - {k}).Keys;
    lock := c.Release(k, n);
  }

  /** And when a buffer is freed while it is being written, arc_write_done finds no reference. */
  method FreedWriteFails(c: Cache, k: nat, bytes: nat, ty: Ty, cached: bool) returns (failed: bool)
    requires c.Valid() && k !in c.hdrs && 0 < bytes < 0x8000_0000
    modifies c
    ensures c.Valid() && failed
  {
    c.BufAlloc(k, bytes, ty, []);
    c.WriteBegin(k);
    c.BufFree(k);
    failed := c.WriteDone(k, cached);
  }

  lemma SameHeld(h: Hdr, st: St)
    requires Resident(h.st) && Resident(st)
    ensures Held(h.(st := st)) == Held(h) && HeldMeta(h.(st := st)) == HeldMeta(h)
  {
  }

  lemma GhostSizes(m: map<nat, Hdr>, y: Tally)
    requires Tallied(m, y)
    ensures y.size[MruGhost] >= 0 && y.size[MfuGhost] >= 0
  {
  }

  lemma Positive(m: map<nat, Hdr>, y: Tally)
    requires Tallied(m, y)
    ensures Keyed(y) && ResidentSize(y) >= 0
  {
    assert y.size[Anon] >= 0 && y.size[Mru] >= 0 && y.size[Mfu] >= 0;
  }

  lemma ShedWithout(m: map<nat, Hdr>, m': map<nat, Hdr>, k: nat, ty: Ty)
    requires Shed(m, m', ty) && k in m
    ensures Shed(m - {k}, m' - {k}, ty)
  {
    assert (m' - {k}).Keys == (m - {k}).Keys;
  }

  lemma ShedSwap(m: map<nat, Hdr>, m': map<nat, Hdr>, k: nat, h: Hdr, ty: Ty)
    requires Shed(m, m', ty) && k in m
    ensures Shed(m[k := h], m'[k := h], ty)
  {
    assert m'[k := h].Keys == m[k := h].Keys;
  }

  lemma OneMore(x: int, i: int)
    ensures x * (i + 1) == x * i + x
  {
  }

  /** One header of the scan. */
  lemma ScanStep(m: map<nat, Hdr>, slot: Slot, bytes: int, tries: seq<Try>, total: int, recycle: bool)
    requires tries != []
    ensures var a := tries[0];
            Scan(m, slot, bytes, tries, total, recycle) ==
            if !Evictable(m, a.k, slot) then Scan(m, slot, bytes, tries[1..], total, recycle)
            else
              var h := m[a.k];
              var m1, total1 := m[a.k := LeftWith(h, h.datacnt - Lost(h, a.got))], total + h.size * Lost(h, a.got);
              var took := recycle && Stealable(h, a, bytes);
              if bytes >= 0 && total1 >= bytes then (m1, took)
              else var rest := Scan(m1, slot, bytes, tries[1..], total1, recycle && !took); (rest.0, took || rest.1)
  {
  }

  lemma {:induction false} NotStolen(m: map<nat, Hdr>, slot: Slot, bytes: int, tries: seq<Try>, total: int)
    ensures !Scan(m, slot, bytes, tries, total, false).1
    decreases |tries|
  {
    if tries != [] {
      var a := tries[0];
      NotStolen(m, slot, bytes, tries[1..], total);
      if Evictable(m, a.k, slot) {
        var h := m[a.k];
        NotStolen(m[a.k := LeftWith(h, h.datacnt - Lost(h, a.got))], slot, bytes, tries[1..], total +
            h.size * Lost(h, a.got));
      }
    }
  }

  lemma ScanEnd(m: map<nat, Hdr>, slot: Slot, bytes: int, total: int, recycle: bool)
    ensures Scan(m, slot, bytes, [], total, recycle) == (m, false)
  {
  }

  lemma NoBuffers(h: Hdr)
    requires h.datacnt == 0
    ensures Held(h) == 0 && HeldMeta(h) == 0
  {
  }

  lemma OneLess(h: Hdr)
    requires h.datacnt > 0 && Resident(h.st)
    ensures Weight(h) >= h.size && h.size * (h.datacnt - 1) - h.size * h.datacnt + h.size == 0
  {
  }

  lemma KeyedAt(y: Tally, slot: Slot)
    requires Keyed(y)
    ensures slot in y.lists && slot in y.lsize && slot.st in y.size
  {
  }
}
