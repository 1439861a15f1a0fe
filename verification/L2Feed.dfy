/** l2arc_evict and l2arc_write_buffers as loops over a device object. */
module L2Feed {
  import opened L2Device

  lemma {:induction false} PlacedAppend(cs: seq<Cand>, c: Cand, hand: nat)
    ensures Placed(cs + [c], hand) == Placed(cs, hand) + [Entry(c.hdr, hand + Advance(cs), c.asize)]
    ensures Advance(cs + [c]) == Advance(cs) + c.asize
  {
    if cs == [] {
      assert cs + [c] == [c] && [c][1..] == [];
    } else {
      assert (cs + [c])[1..] == cs[1..] + [c];
      PlacedAppend(cs[1..], c, hand + cs[0].asize);
    }
  }

  /** The selection loop stops where the running total would exceed the target. */
  lemma {:induction false} ChosenPrefix(cands: seq<Cand>, i: nat, total: nat, room: nat)
    requires i <= |cands| && Total(cands[..i]) == total <= room
    requires i == |cands| || total + cands[i].size > room
    ensures Chosen(cands, room) == cands[..i]
    decreases i
  {
    if i > 0 {
      assert cands[..i][1..] == cands[1..][..i - 1];
      ChosenPrefix(cands[1..], i - 1, total - cands[0].size, room - cands[0].size);
    }
  }

  ghost function Total(cs: seq<Cand>): nat {
    if cs == [] then 0 else cs[0].size + Total(cs[1..])
  }

  lemma {:induction false} TotalAppend(cs: seq<Cand>, c: Cand)
    ensures Total(cs + [c]) == Total(cs) + c.size
  {
    if cs == [] {
      assert cs + [c] == [c] && [c][1..] == [];
    } else {
      assert (cs + [c])[1..] == cs[1..] + [c];
      TotalAppend(cs[1..], c);
    }
  }

  class L2ArcDev {
    const start: nat
    const end: nat
    var hand: nat
    var first: bool
    var bufs: seq<Entry>

    ghost function View(): Dev
      reads this
    {
      Dev(start, end, hand, first, bufs)
    }

    constructor (start: nat, end: nat)
      ensures View() == Init(start, end, 0).dev
    {
      this.start := start;
      this.end := end;
      hand := start;
      first := true;
      bufs := [];
    }

    /** Takes buffers off the tail of the list until the write hand has `distance` sectors before it. */
    method Evict(distance: nat)
      requires end < WORD && 2 * distance < WORD
      modifies this
      ensures View() == EvictDev(old(View()), distance)
    {
      if first {
        return;
      }
      var taddr := hand + distance;
      if hand >= Sub(end, 2 * distance) {
        taddr := end;
      }
      while bufs != []
        invariant EvictFrom(bufs, hand, taddr) == EvictFrom(old(bufs), hand, taddr)
        invariant hand == old(hand) && first == old(first)
        decreases |bufs|
      {
        if bufs[0].daddr > taddr || bufs[0].daddr < hand {
          break;
        }
        bufs := bufs[1..];
      }
    }

    /** Selects buffers up to `target` sectors, then gives them addresses from the hand on. */
    method WriteBuffers(target: nat, cands: seq<Cand>)
      requires end < WORD && target < WORD
      modifies this
      ensures View() == WriteDev(old(View()), target, cands)
    {
      var head := |bufs|;
      var n := Select(target, cands);
      if n == 0 {
        return;
      }
      var j := 0;
      ghost var bufs0, hand0 := old(bufs), old(hand);
      while j < n
        invariant 0 <= j <= n && |bufs| == head + n && first == old(first)
        invariant hand == hand0 + Advance(cands[..j])
        invariant bufs[..head + j] == bufs0 + Placed(cands[..j], hand0)
      {
        PlacedAppend(cands[..j], cands[j], hand0);
        assert cands[..j + 1] == cands[..j] + [cands[j]];
        ghost var before := bufs[..head + j];
        bufs := bufs[head + j := Entry(cands[j].hdr, hand, cands[j].asize)];
        assert bufs[..head + j + 1] == before + [Entry(cands[j].hdr, hand, cands[j].asize)];
        hand := hand + cands[j].asize;
        j := j + 1;
      }
      assert bufs == bufs[..head + n];
      if hand >= Sub(end, target) {
        hand := start;
        first := false;
      }
    }

    /** The selection loop: puts the headers on the list, without an address yet. */
    method Select(target: nat, cands: seq<Cand>) returns (n: nat)
      modifies this`bufs
      ensures n <= |cands| && Chosen(cands, target) == cands[..n]
      ensures |bufs| == |old(bufs)| + n && bufs[..|old(bufs)|] == old(bufs)
    {
      n := 0;
      var size := 0;
      while n < |cands| && size + cands[n].size <= target
        invariant 0 <= n <= |cands| && size == Total(cands[..n]) <= target
        invariant |bufs| == |old(bufs)| + n && bufs[..|old(bufs)|] == old(bufs)
      {
        TotalAppend(cands[..n], cands[n]);
        assert cands[..n + 1] == cands[..n] + [cands[n]];
        bufs := bufs + [Entry(cands[n].hdr, 0, cands[n].size)];
        size := size + cands[n].size;
        n := n + 1;
      }
      ChosenPrefix(cands, n, size, target);
    }
  }
}
