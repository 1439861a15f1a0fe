/** The hash table of oss/arc/arc.c: headers chained through b_hash_next, found by pool, device address and birth. */
module ArcHash {
  import opened Sequences

  datatype Id = Id(spa: nat, dva0: nat, dva1: nat, birth: nat)

  class Header {
    const id: Id
    var next: Header?
    var inTable: bool

    constructor (id: Id)
      ensures this.id == id && next == null && !inTable
    {
      this.id := id;
      next, inTable := null, false;
    }
  }

  // ----- chains as sequences -----

  ghost function Idx(hash: Id -> nat, n: nat, id: Id): nat
    requires n > 0
  {
    hash(id) % n
  }

  /** The chains are the map, cut up by hash value; no header is in twice, and no identity is. */
  ghost predicate Refines(hash: Id -> nat, cs: seq<seq<Header>>, m: map<Id, Header>) {
    && |cs| > 0
    && (forall i :: 0 <= i < |cs| ==> NoDup(cs[i]))
    && (forall i, j :: 0 <= i < |cs| && 0 <= j < |cs[i]| ==>
          Idx(hash, |cs|, cs[i][j].id) == i && cs[i][j].id in m && m[cs[i][j].id] == cs[i][j])
    && (forall id :: id in m ==> m[id].id == id && m[id] in cs[Idx(hash, |cs|, id)])
  }

  lemma RefinesInsert(hash: Id -> nat, cs: seq<seq<Header>>, m: map<Id, Header>, b: Header)
    requires Refines(hash, cs, m) && b.id !in m
    ensures var idx := Idx(hash, |cs|, b.id);
            Refines(hash, cs[idx := [b] + cs[idx]], m[b.id := b])
  {
    var idx := Idx(hash, |cs|, b.id);
    var cs', m' := cs[idx := [b] + cs[idx]], m[b.id := b];
    forall id | id in m' ensures m'[id].id == id && m'[id] in cs'[Idx(hash, |cs|, id)] {
      if id == b.id {
        assert cs'[idx][0] == b;
      } else if Idx(hash, |cs|, id) == idx {
        var j :| 0 <= j < |cs[idx]| && cs[idx][j] == m[id];
        assert cs'[idx][j + 1] == m[id];
      }
    }
  }

  ghost function Cut(c: seq<Header>, k: nat): seq<Header>
    requires k < |c|
  {
    c[..k] + c[k + 1..]
  }

  lemma RefinesRemove(hash: Id -> nat, cs: seq<seq<Header>>, m: map<Id, Header>, idx: nat, k: nat)
    requires Refines(hash, cs, m) && idx < |cs| && k < |cs[idx]|
    ensures Refines(hash, cs[idx := Cut(cs[idx], k)], m - {cs[idx][k].id})
  {
    var c, b := cs[idx], cs[idx][k];
    var c' := Cut(c, k);
    var cs', m' := cs[idx := c'], m - {b.id};
    assert NoDup(c);
    forall j | 0 <= j < |c'| ensures c'[j] == c[if j < k then j else j + 1] && c'[j] != b {
    }
    forall id | id in m' ensures m'[id].id == id && m'[id] in cs'[Idx(hash, |cs|, id)] {
      if Idx(hash, |cs|, id) == idx {
        var j :| 0 <= j < |c| && c[j] == m[id];
        assert c'[if j < k then j else j - 1] == m[id];
      }
    }
  }

  /** How many chains have two or more headers. */
  ghost function Long(cs: seq<seq<Header>>): nat {
    if cs == [] then 0 else Long(cs[1..]) + if |cs[0]| >= 2 then 1 else 0
  }

  lemma {:induction false} LongUpdate(cs: seq<seq<Header>>, i: nat, c: seq<Header>)
    requires i < |cs|
    ensures Long(cs[i := c]) == Long(cs) - (if |cs[i]| >= 2 then 1 else 0) + (if |c| >= 2 then 1 else 0)
  {
    if i == 0 {
      assert cs[i := c][1..] == cs[1..];
    } else {
      assert cs[i := c][1..] == cs[1..][i - 1 := c];
      LongUpdate(cs[1..], i - 1, c);
    }
  }

  ghost function NoChains(n: nat): (cs: seq<seq<Header>>)
    ensures |cs| == n && (forall i :: 0 <= i < n ==> cs[i] == []) && Long(cs) == 0
  {
    if n == 0 then [] else [[]] + NoChains(n - 1)
  }

  // ----- chains in the heap -----

  ghost function At(c: seq<Header>, j: nat): Header? {
    if j < |c| then c[j] else null
  }

  ghost predicate Linked(c: seq<Header>, head: Header?)
    reads c
  {
    head == At(c, 0) && forall j :: 0 <= j < |c| ==> c[j].next == At(c, j + 1) && c[j].inTable
  }

  class HashTable {
    const table: array<Header?>
    const hash: Id -> nat
    var elements: int
    var chains: int
    ghost var cs: seq<seq<Header>>
    ghost var m: map<Id, Header>
    ghost var headers: set<Header>

    /** A header is flagged as being in the table exactly when it is linked there. */
    ghost predicate Shaped()
      reads `cs, `m, `headers, table, headers
    {
      && table.Length == |cs| && Refines(hash, cs, m)
      && (forall i, j :: 0 <= i < |cs| && 0 <= j < |cs[i]| ==> cs[i][j] in headers)
      && (forall i :: 0 <= i < |cs| ==> Linked(cs[i], table[i]))
      && (forall b :: b in headers && b.inTable ==> b.id in m && m[b.id] == b)
    }

    ghost predicate Valid()
      reads this, table, headers
    {
      Shaped() && elements == |m| && chains == Long(cs)
    }

    lemma Sized()
      requires Shaped()
      ensures 0 < table.Length == |cs|
    {
    }

    /** An empty table. */
    constructor (n: nat, hash: Id -> nat)
      requires n > 0
      ensures Valid() && m == map[] && headers == {} && fresh(table) && table.Length == n && this.hash == hash
    {
      table := new Header?[n](_ => null);
      this.hash := hash;
      elements, chains := 0, 0;
      cs := NoChains(n);
      m := map[];
      headers := {};
    }

    /** The loop shared by buf_hash_find and buf_hash_insert: the header with this identity, or the length of the
        chain it is missing from. */
    method Scan(id: Id) returns (r: Header?, i: nat)
      requires Valid()
      ensures r == if id in m then m[id] else null
      ensures r == null ==> i == |cs[Idx(hash, |cs|, id)]|
    {
      var idx := hash(id) % table.Length;
      ghost var c := cs[idx];
      assert Linked(c, table[idx]);
      r, i := table[idx], 0;
      while r != null && r.id != id
        invariant i <= |c| && r == At(c, i)
        invariant forall k :: 0 <= k < i ==> c[k].id != id
        decreases |c| - i
      {
        r, i := r.next, i + 1;
      }
    }

    /** buf_hash_find. */
    method Find(id: Id) returns (r: Header?)
      requires Valid()
      ensures r == if id in m then m[id] else null
    {
      var found, _ := Scan(id);
      r := found;
    }

    /** buf_hash_insert: the header that is already there, or null once the new one has been linked. */
    method Insert(buf: Header) returns (r: Header?)
      requires Valid() && !buf.inTable
      modifies this, table, buf
      ensures Valid()
      ensures buf.id in old(m) ==> r == old(m)[buf.id] && m == old(m) && !buf.inTable
      ensures buf.id !in old(m) ==>
                r == null && m == old(m)[buf.id := buf] && buf.inTable && headers == old(headers) + {buf}
    {
      hide Shaped, Long;
      Sized();
      var i;
      r, i := Scan(buf.id);
      if r != null { return; }
      var idx := hash(buf.id) % table.Length;
      LongUpdate(cs, idx, [buf] + cs[idx]);
      LinkFront(buf, idx);
      if i == 1 { chains := chains + 1; }
      elements := elements + 1;
    }

    method LinkFront(buf: Header, idx: nat)
      requires Shaped() && !buf.inTable && buf.id !in m && idx == Idx(hash, |cs|, buf.id)
      modifies this`cs, this`m, this`headers, table, buf
      ensures Shaped() && m == old(m)[buf.id := buf] && buf.inTable && headers == old(headers) + {buf}
      ensures cs == old(cs)[idx := [buf] + old(cs)[idx]]
    {
      hide Refines, Linked;
      Sized();
      RefinesInsert(hash, cs, m, buf);
      NotLinked(buf);
      ghost var c, all := cs[idx], cs;
      Front(buf, idx, c);
      cs := cs[idx := [buf] + c];
      m := m[buf.id := buf];
      headers := headers + {buf};
      forall i | 0 <= i < |cs| ensures Linked(cs[i], table[i]) {
        assert i != idx ==> old(Linked(all[i], table[i]));
      }
    }

    lemma NotLinked(buf: Header)
      requires Shaped() && !buf.inTable
      ensures forall i, j :: 0 <= i < |cs| && 0 <= j < |cs[i]| ==> cs[i][j] != buf
    {
      forall i, j | 0 <= i < |cs| && 0 <= j < |cs[i]| ensures cs[i][j] != buf {
        assert Linked(cs[i], table[i]);
      }
    }

    method Front(buf: Header, idx: nat, ghost c: seq<Header>)
      requires idx < table.Length && Linked(c, table[idx]) && buf !in c
      modifies table, buf
      ensures Linked([buf] + c, table[idx]) && buf.inTable
      ensures forall i :: 0 <= i < table.Length && i != idx ==> table[i] == old(table[i])
    {
      buf.next := table[idx];
      table[idx] := buf;
      buf.inTable := true;
      forall j | 0 <= j < |c| ensures ([buf] + c)[j + 1] == c[j] && c[j].next == At([buf] + c, j + 2) && c[j].inTable {
      }
    }

    /** buf_hash_remove. */
    method Remove(buf: Header)
      requires Valid() && buf in headers && buf.inTable
      modifies this, table, headers
      ensures Valid() && buf.id in old(m) && old(m)[buf.id] == buf && m == old(m) - {buf.id}
      ensures !buf.inTable && buf.next == null && headers == old(headers)
    {
      hide Shaped, Long;
      Sized();
      var idx := hash(buf.id) % table.Length;
      ghost var k := Locate(buf, idx);
      var prev := Before(buf, idx, k);
      LongUpdate(cs, idx, Cut(cs[idx], k));
      Unlink(buf, prev, idx, k);
      elements := elements - 1;
      if table[idx] != null && table[idx].next == null { chains := chains - 1; }
    }

    lemma Locate(buf: Header, idx: nat) returns (k: nat)
      requires Shaped() && buf in headers && buf.inTable && idx == Idx(hash, |cs|, buf.id)
      ensures buf.id in m && m[buf.id] == buf && idx < |cs| && k < |cs[idx]| && cs[idx][k] == buf
    {
      k :| 0 <= k < |cs[idx]| && cs[idx][k] == buf;
    }

    /** The walk to the header whose link points at `buf`; null when that is the table entry itself. */
    method Before(buf: Header, idx: nat, ghost k: nat) returns (prev: Header?)
      requires Shaped() && idx < |cs| && k < |cs[idx]| && cs[idx][k] == buf
      ensures prev == if k > 0 then cs[idx][k - 1] else null
    {
      ghost var c, j := cs[idx], 0;
      assert Linked(c, table[idx]) && NoDup(c);
      hide Refines;
      prev := null;
      var fbuf := table[idx];
      while fbuf != buf
        invariant j <= k && fbuf == c[j] && prev == if j > 0 then c[j - 1] else null
        decreases k - j
      {
        prev, fbuf := fbuf, fbuf.next;
        j := j + 1;
      }
    }

    /** Takes `buf` out of its chain. */
    method Unlink(buf: Header, prev: Header?, idx: nat, ghost k: nat)
      requires Shaped() && idx < |cs| && k < |cs[idx]| && cs[idx][k] == buf
      requires prev == if k > 0 then cs[idx][k - 1] else null
      modifies this`cs, this`m, table, headers
      ensures Shaped() && m == old(m) - {buf.id} && cs == old(cs)[idx := Cut(old(cs)[idx], k)]
      ensures !buf.inTable && buf.next == null
      ensures (table[idx] != null && table[idx].next == null) <==> |cs[idx]| == 1
    {
      hide Refines, Linked;
      ghost var c, all := cs[idx], cs;
      RefinesRemove(hash, cs, m, idx, k);
      Elsewhere(idx, k);
      CutInside(c, k, headers);
      Bypass(buf, prev, idx, c, k);
      cs := cs[idx := Cut(c, k)];
      m := m - {buf.id};
      forall i | 0 <= i < |cs| ensures Linked(cs[i], table[i]) {
        assert i != idx ==> old(Linked(all[i], table[i]));
      }
    }

    method Bypass(buf: Header, prev: Header?, idx: nat, ghost c: seq<Header>, ghost k: nat)
      requires idx < table.Length && Linked(c, table[idx]) && NoDup(c) && k < |c| && c[k] == buf
      requires prev == if k > 0 then c[k - 1] else null
      modifies table, buf, prev
      ensures Linked(Cut(c, k), table[idx]) && !buf.inTable && buf.next == null
      ensures forall i :: 0 <= i < table.Length && i != idx ==> table[i] == old(table[i])
      ensures prev != null ==> prev.inTable && old(prev.inTable)
      ensures (table[idx] != null && table[idx].next == null) <==> |c| == 2
    {
      assert buf.next == At(c, k + 1);
      if prev == null {
        table[idx] := buf.next;
      } else {
        prev.next := buf.next;
      }
      assert forall j :: 0 <= j < |c| ==> c[j].next == At(c, if j == k - 1 then k + 1 else j + 1) && c[j].inTable;
      buf.next := null;
      buf.inTable := false;
      CutLinked(c, k, table[idx]);
    }

    /** The nodes of other chains are not touched, and no other header has the same identity. */
    lemma Elsewhere(idx: nat, k: nat)
      requires Shaped() && idx < |cs| && k < |cs[idx]|
      ensures NoDup(cs[idx])
      ensures forall i, j, l :: 0 <= i < |cs| && i != idx && 0 <= j < |cs[i]| && 0 <= l < |cs[idx]| ==>
              cs[i][j] != cs[idx][l]
      ensures cs[idx][k].id in m && m[cs[idx][k].id] == cs[idx][k]
    {
    }
  }

  lemma CutInside(c: seq<Header>, k: nat, headers: set<Header>)
    requires k < |c| && forall j :: 0 <= j < |c| ==> c[j] in headers
    ensures forall j :: 0 <= j < |c| - 1 ==> Cut(c, k)[j] in headers
  {
  }

  lemma CutLinked(c: seq<Header>, k: nat, head: Header?)
    requires k < |c| && NoDup(c) && head == At(c, if k == 0 then 1 else 0)
    requires forall j :: 0 <= j < |c| && j != k ==>
               c[j].next == At(c, if j == k - 1 then k + 1 else j + 1) && c[j].inTable
    ensures Linked(Cut(c, k), head)
  {
    var c' := Cut(c, k);
    forall j | 0 <= j < |c'| ensures c'[j] == c[if j < k then j else j + 1] {
    }
    forall j | 0 <= j < |c'| ensures c'[j].next == At(c', j + 1) && c'[j].inTable {
    }
  }
}
