/**
 * The dmm allocator: one arena of fixed size, carved into blocks that each
 * start with a header. The free blocks form a doubly linked list, threaded
 * through their headers in ascending address order; `head` is its first entry.
 *
 * Pointers are offsets into the arena, with `Null` (-1) for the null pointer.
 * A header is the entry of `hdr` at its block's offset; payload bytes are not
 * modelled. The ghost fields give the abstract view that the methods are
 * proved against: `Free`, the free list in list order, and `Allocated`, the
 * blocks handed out and not yet freed.
 */
module Dmm {
  import opened Blocks

  /** A block header (metadata_t): payload size and the free-list links. */
  datatype Header = Header(size: nat, next: int, prev: int)

  /** ALIGN: `n` rounded up to the next multiple of `alignment`. */
  function Align(n: nat, alignment: nat): (r: nat)
    requires alignment > 0
    ensures n <= r < n + alignment && r % alignment == 0
  {
    MulMod((n + alignment - 1) / alignment, alignment);
    (n + alignment - 1) / alignment * alignment
  }

  /** The `next` link the header of entry `i` of the free list must hold. */
  function NextOf(fl: seq<Block>, i: int): int
    requires 0 <= i < |fl|
  {
    if i + 1 < |fl| then fl[i + 1].addr else Null
  }

  /** The `prev` link the header of entry `i` of the free list must hold. */
  function PrevOf(fl: seq<Block>, i: int): int
    requires 0 <= i < |fl|
  {
    if 0 < i then fl[i - 1].addr else Null
  }

  /**
   * `head` and the headers in `hdr` thread exactly the list `fl`: the head is
   * its first entry, and each entry's header holds its size and its links.
   */
  predicate Threads(hdr: map<int, Header>, head: int, fl: seq<Block>)
  {
    && head == (if fl == [] then Null else fl[0].addr)
    && forall i :: 0 <= i < |fl| ==> Linked(hdr, fl, i)
  }

  /** The header of entry `i` of `fl` holds its size and its list links. */
  predicate Linked(hdr: map<int, Header>, fl: seq<Block>, i: int)
    requires 0 <= i < |fl|
  {
    fl[i].addr in hdr && hdr[fl[i].addr] == Header(fl[i].size, NextOf(fl, i), PrevOf(fl, i))
  }

  /** Every allocated block's header holds its size and null links. */
  predicate AllocHeaders(hdr: map<int, Header>, alloc: set<Block>)
  {
    forall a :: a in alloc ==> a.addr in hdr && hdr[a.addr] == Header(a.size, Null, Null)
  }

  /**
   * The concrete state `hdr`, `head` represents the free list `fl` and the
   * allocated blocks `alloc`, laid out in an arena of `arena` bytes.
   */
  predicate Heap(hdr: map<int, Header>, head: int, fl: seq<Block>, alloc: set<Block>, hs: nat, arena: int)
  {
    Threads(hdr, head, fl) && AllocHeaders(hdr, alloc) && Layout(fl, alloc, hs, arena)
  }

  /**
   * Relinking for a split: the remainder `r` takes the place of entry `k`, its
   * list neighbours now point to it, and no other header of the list changes.
   */
  lemma SplitThreads(hdr: map<int, Header>, head: int, fl: seq<Block>, k: int, r: Block,
                     hdr': map<int, Header>, head': int)
    requires 0 <= k < |fl| && Threads(hdr, head, fl) && Ascending(fl) && Ascending(fl[k := r])
    requires head' == (if k == 0 then r.addr else head)
    requires r.addr in hdr' && hdr'[r.addr] == Header(r.size, NextOf(fl, k), PrevOf(fl, k))
    requires 0 < k ==> fl[k - 1].addr in hdr' && hdr'[fl[k - 1].addr] == Header(fl[k - 1].size, r.addr, PrevOf(fl, k - 1))
    requires k + 1 < |fl| ==> fl[k + 1].addr in hdr' && hdr'[fl[k + 1].addr] == Header(fl[k + 1].size, NextOf(fl, k + 1), r.addr)
    requires forall a :: (a in hdr && a != r.addr && a != fl[k].addr
                && (0 < k ==> a != fl[k - 1].addr) && (k + 1 < |fl| ==> a != fl[k + 1].addr)) ==>
               a in hdr' && hdr'[a] == hdr[a]
    ensures Threads(hdr', head', fl[k := r])
  {
    var fl' := fl[k := r];
    forall i | 0 <= i < |fl'|
      ensures Linked(hdr', fl', i)
    {
      if i < k - 1 {
        assert Linked(hdr, fl, i);
        assert fl'[i].addr < fl'[k].addr && fl[i].addr < fl[k].addr && fl[i].addr < fl[k - 1].addr;
      } else if k + 1 < i {
        assert Linked(hdr, fl, i);
        assert fl'[k].addr < fl'[i].addr && fl[k].addr < fl[i].addr && fl[k + 1].addr < fl[i].addr;
      }
    }
  }

  /**
   * Relinking for an unlink: entry `k` leaves the list, its list neighbours
   * point past it, and no other header of the list changes.
   */
  lemma UnlinkThreads(hdr: map<int, Header>, head: int, fl: seq<Block>, k: int,
                      hdr': map<int, Header>, head': int)
    requires 0 <= k < |fl| && Threads(hdr, head, fl) && Ascending(fl)
    requires head' == (if k == 0 then NextOf(fl, k) else head)
    requires 0 < k ==> fl[k - 1].addr in hdr' && hdr'[fl[k - 1].addr] == Header(fl[k - 1].size, NextOf(fl, k), PrevOf(fl, k - 1))
    requires k + 1 < |fl| ==> fl[k + 1].addr in hdr' && hdr'[fl[k + 1].addr] == Header(fl[k + 1].size, NextOf(fl, k + 1), PrevOf(fl, k))
    requires forall a :: (a in hdr && a != fl[k].addr
                && (0 < k ==> a != fl[k - 1].addr) && (k + 1 < |fl| ==> a != fl[k + 1].addr)) ==>
               a in hdr' && hdr'[a] == hdr[a]
    ensures Threads(hdr', head', fl[..k] + fl[k + 1..])
  {
    var fl' := fl[..k] + fl[k + 1..];
    forall i | 0 <= i < |fl'|
      ensures Linked(hdr', fl', i)
    {
      if i < k {
        assert fl'[i] == fl[i];
        if i + 1 < k { assert Linked(hdr, fl, i); }
        if 0 < i { assert fl'[i - 1] == fl[i - 1]; }
        if i + 1 < k { assert fl'[i + 1] == fl[i + 1]; }
        else if k + 1 < |fl| { assert fl'[i + 1] == fl[k + 1]; }
        if i < k - 1 { assert fl[i].addr < fl[k - 1].addr; }
        assert fl[i].addr < fl[k].addr;
        if k + 1 < |fl| { assert fl[i].addr < fl[k + 1].addr; }
      } else {
        assert fl'[i] == fl[i + 1];
        if k < i { assert Linked(hdr, fl, i + 1); }
        if i + 2 < |fl| { assert fl'[i + 1] == fl[i + 2]; }
        if k < i { assert fl'[i - 1] == fl[i]; }
        else if 0 < k { assert fl'[i - 1] == fl[k - 1]; }
        if k < i { assert fl[k + 1].addr < fl[i + 1].addr; }
        assert fl[k].addr < fl[i + 1].addr;
        if 0 < k { assert fl[k - 1].addr < fl[i + 1].addr; }
      }
    }
  }

  /**
   * Relinking for an insertion: `b` enters the list at index `k`, its new list
   * neighbours point to it, and no other header of the list changes.
   */
  lemma InsertThreads(hdr: map<int, Header>, head: int, fl: seq<Block>, k: int, b: Block,
                      hdr': map<int, Header>, head': int)
    requires 0 <= k <= |fl| && Threads(hdr, head, fl) && Ascending(fl[..k] + [b] + fl[k..])
    requires head' == (if k == 0 then b.addr else head)
    requires b.addr in hdr'
    requires hdr'[b.addr] == Header(b.size, if k < |fl| then fl[k].addr else Null, if 0 < k then fl[k - 1].addr else Null)
    requires 0 < k ==> fl[k - 1].addr in hdr' && hdr'[fl[k - 1].addr] == Header(fl[k - 1].size, b.addr, PrevOf(fl, k - 1))
    requires k < |fl| ==> fl[k].addr in hdr' && hdr'[fl[k].addr] == Header(fl[k].size, NextOf(fl, k), b.addr)
    requires forall a :: (a in hdr && a != b.addr
                && (0 < k ==> a != fl[k - 1].addr) && (k < |fl| ==> a != fl[k].addr)) ==>
               a in hdr' && hdr'[a] == hdr[a]
    ensures Threads(hdr', head', fl[..k] + [b] + fl[k..])
  {
    var fl' := fl[..k] + [b] + fl[k..];
    assert fl'[k] == b;
    forall i | 0 <= i < |fl'|
      ensures Linked(hdr', fl', i)
    {
      if i < k {
        assert fl'[i] == fl[i];
        if i + 1 < k { assert Linked(hdr, fl, i); }
        if 0 < i { assert fl'[i - 1] == fl[i - 1]; }
        if i + 1 < k { assert fl'[i + 1] == fl[i + 1]; }
        assert fl'[i].addr < fl'[k].addr;
        if i < k - 1 { assert fl'[k - 1] == fl[k - 1] && fl'[i].addr < fl'[k - 1].addr; }
        if k < |fl| { assert fl'[k + 1] == fl[k] && fl'[i].addr < fl'[k + 1].addr; }
      } else if k < i {
        assert fl'[i] == fl[i - 1];
        if k + 1 < i { assert Linked(hdr, fl, i - 1); }
        if i + 1 < |fl'| { assert fl'[i + 1] == fl[i]; }
        if k + 1 < i { assert fl'[i - 1] == fl[i - 2]; }
        assert fl'[k].addr < fl'[i].addr;
        if k + 1 < i { assert fl'[k + 1] == fl[k] && fl'[k + 1].addr < fl'[i].addr; }
        if 0 < k { assert fl'[k - 1] == fl[k - 1] && fl'[k - 1].addr < fl'[i].addr; }
      } else {
        if k < |fl| { assert fl'[k + 1] == fl[k]; }
        if 0 < k { assert fl'[k - 1] == fl[k - 1]; }
      }
    }
  }

  /**
   * Relinking for a merge: the entries `lo..hi` become one block `m` at the
   * address of entry `lo`, which now links to the successor of entry `hi`;
   * that successor links back to it, and no other header of the list changes.
   */
  lemma FuseThreads(hdr: map<int, Header>, head: int, fl: seq<Block>, lo: int, hi: int, m: Block,
                    hdr': map<int, Header>)
    requires 0 <= lo <= hi < |fl| && Threads(hdr, head, fl) && Ascending(fl) && m.addr == fl[lo].addr
    requires m.addr in hdr' && hdr'[m.addr] == Header(m.size, NextOf(fl, hi), PrevOf(fl, lo))
    requires hi + 1 < |fl| ==> fl[hi + 1].addr in hdr' && hdr'[fl[hi + 1].addr] == Header(fl[hi + 1].size, NextOf(fl, hi + 1), m.addr)
    requires forall a :: (a in hdr && a != m.addr && (hi + 1 < |fl| ==> a != fl[hi + 1].addr)) ==>
               a in hdr' && hdr'[a] == hdr[a]
    ensures Threads(hdr', head, fl[..lo] + [m] + fl[hi + 1..])
  {
    var fl' := fl[..lo] + [m] + fl[hi + 1..];
    var tail := fl[hi + 1..];
    assert fl' == fl[..lo] + [m] + tail;
    assert |fl'| == lo + 1 + |tail|;
    forall i | 0 <= i < |fl'|
      ensures Linked(hdr', fl', i)
    {
      if i < lo {
        FuseHead(hdr, head, fl, lo, hi, m, hdr', i);
      } else if i == lo {
        assert fl'[lo] == m;
        if lo + 1 < |fl'| { assert fl'[lo + 1] == tail[0] == fl[hi + 1]; }
        if 0 < lo { assert fl'[lo - 1] == fl[lo - 1]; }
      } else {
        FuseTail(hdr, head, fl, lo, hi, m, hdr', i);
      }
    }
  }

  /** An entry before the merged run keeps its header. */
  lemma FuseHead(hdr: map<int, Header>, head: int, fl: seq<Block>, lo: int, hi: int, m: Block,
                 hdr': map<int, Header>, i: int)
    requires 0 <= i < lo <= hi < |fl| && Threads(hdr, head, fl) && Ascending(fl) && m.addr == fl[lo].addr
    requires forall a :: (a in hdr && a != m.addr && (hi + 1 < |fl| ==> a != fl[hi + 1].addr)) ==>
               a in hdr' && hdr'[a] == hdr[a]
    ensures var fl' := fl[..lo] + [m] + fl[hi + 1..];
      Linked(hdr', fl', i)
  {
    var fl' := fl[..lo] + [m] + fl[hi + 1..];
    assert fl'[i] == fl[i] && Linked(hdr, fl, i);
    if 0 < i { assert fl'[i - 1] == fl[i - 1]; }
    if i + 1 < lo { assert fl'[i + 1] == fl[i + 1]; }
    else { assert fl'[i + 1] == m; }
    assert fl[i].addr < fl[lo].addr;
    if hi + 1 < |fl| { assert fl[i].addr < fl[hi + 1].addr; }
  }

  /** An entry after the merged run keeps its header, except that the first one links back to `m`. */
  lemma FuseTail(hdr: map<int, Header>, head: int, fl: seq<Block>, lo: int, hi: int, m: Block,
                 hdr': map<int, Header>, i: int)
    requires 0 <= lo <= hi < |fl| && lo < i < lo + |fl| - hi
    requires Threads(hdr, head, fl) && Ascending(fl) && m.addr == fl[lo].addr
    requires hi + 1 < |fl| ==> fl[hi + 1].addr in hdr' && hdr'[fl[hi + 1].addr] == Header(fl[hi + 1].size, NextOf(fl, hi + 1), m.addr)
    requires forall a :: (a in hdr && a != m.addr && (hi + 1 < |fl| ==> a != fl[hi + 1].addr)) ==>
               a in hdr' && hdr'[a] == hdr[a]
    ensures var fl' := fl[..lo] + [m] + fl[hi + 1..];
      Linked(hdr', fl', i)
  {
    var fl' := fl[..lo] + [m] + fl[hi + 1..];
    var pre := fl[..lo] + [m];
    var tail := fl[hi + 1..];
    assert fl' == pre + tail && |pre| == lo + 1;
    var t := i - (lo + 1);
    assert fl'[i] == tail[t] == fl[hi + 1 + t];
    if i + 1 < |fl'| { assert fl'[i + 1] == tail[t + 1] == fl[hi + 1 + (t + 1)]; }
    if t == 0 {
      assert fl'[i - 1] == m;
    } else {
      assert Linked(hdr, fl, hi + 1 + t);
      assert fl'[i - 1] == tail[t - 1] == fl[hi + 1 + (t - 1)];
      assert fl[hi + 1].addr < fl[hi + 1 + t].addr;
    }
    assert fl[lo].addr < fl[hi + 1 + t].addr;
  }

  /**
   * What the header of free entry `k` tells about its place in the list: it
   * is the head exactly when it is the first entry, and its links are the
   * addresses of its list neighbours, or Null where there is none.
   */
  lemma Neighbours(hdr: map<int, Header>, head: int, fl: seq<Block>, alloc: set<Block>, k: int, hs: nat, arena: int)
    requires hs > 0 && Heap(hdr, head, fl, alloc, hs, arena) && 0 <= k < |fl|
    ensures Linked(hdr, fl, k) && (0 < k ==> Linked(hdr, fl, k - 1)) && (k + 1 < |fl| ==> Linked(hdr, fl, k + 1))
    ensures fl[k].addr == head <==> k == 0
    ensures NextOf(fl, k) == Null <==> k + 1 == |fl|
    ensures PrevOf(fl, k) == Null <==> k == 0
    ensures 0 < k ==> fl[k - 1].addr < fl[k].addr
    ensures k + 1 < |fl| ==> fl[k].addr + hs + fl[k].size <= fl[k + 1].addr
  {
    assert Linked(hdr, fl, k);
    if 0 < k {
      assert Linked(hdr, fl, k - 1) && Within(fl[k - 1], hs, arena);
      assert End(fl[0], hs) <= fl[k].addr && End(fl[k - 1], hs) <= fl[k].addr;
    }
    if k + 1 < |fl| {
      assert Linked(hdr, fl, k + 1) && Within(fl[k + 1], hs, arena);
      assert End(fl[k], hs) <= fl[k + 1].addr;
    }
  }

  /**
   * The state after allocate_with_split: with the headers of the target and of
   * its list neighbours (and of the remainder, on a split) rewritten as the
   * code does and no other header touched, the state represents the carved
   * list and the taken block is allocated.
   */
  lemma CarveState(hdr: map<int, Header>, head: int, fl: seq<Block>, alloc: set<Block>, k: int, req: int,
                   hs: nat, arena: int, hdr': map<int, Header>, head': int)
    requires hs > 0 && Heap(hdr, head, fl, alloc, hs, arena) && Coalesced(fl, hs)
    requires 0 <= k < |fl| && hs <= req <= fl[k].size
    requires fl[k].addr in hdr' && hdr'[fl[k].addr] == Header(Taken(fl[k], req, hs).size, Null, Null)
    requires Splits(fl[k], req, hs) ==>
        var r := Block(fl[k].addr + req, fl[k].size - req - hs);
        && head' == (if k == 0 then r.addr else head)
        && r.addr in hdr' && hdr'[r.addr] == Header(r.size, NextOf(fl, k), PrevOf(fl, k))
        && (0 < k ==> fl[k - 1].addr in hdr' && hdr'[fl[k - 1].addr] == Header(fl[k - 1].size, r.addr, PrevOf(fl, k - 1)))
        && (k + 1 < |fl| ==> fl[k + 1].addr in hdr' && hdr'[fl[k + 1].addr] == Header(fl[k + 1].size, NextOf(fl, k + 1), r.addr))
    requires !Splits(fl[k], req, hs) ==>
        && head' == (if k == 0 then NextOf(fl, k) else head)
        && (0 < k ==> fl[k - 1].addr in hdr' && hdr'[fl[k - 1].addr] == Header(fl[k - 1].size, NextOf(fl, k), PrevOf(fl, k - 1)))
        && (k + 1 < |fl| ==> fl[k + 1].addr in hdr' && hdr'[fl[k + 1].addr] == Header(fl[k + 1].size, NextOf(fl, k + 1), PrevOf(fl, k)))
    requires forall a :: (a in hdr && a != fl[k].addr && (Splits(fl[k], req, hs) ==> a != fl[k].addr + req)
                && (0 < k ==> a != fl[k - 1].addr) && (k + 1 < |fl| ==> a != fl[k + 1].addr)) ==>
               a in hdr' && hdr'[a] == hdr[a]
    ensures Heap(hdr', head', Carve(fl, k, req, hs), alloc + {Taken(fl[k], req, hs)}, hs, arena)
    ensures Coalesced(Carve(fl, k, req, hs), hs)
  {
    var fl' := Carve(fl, k, req, hs);
    CarveLayout(fl, alloc, k, req, hs, arena);
    OrderedAscending(fl, hs);
    OrderedAscending(fl', hs);
    if Splits(fl[k], req, hs) {
      var r := Block(fl[k].addr + req, fl[k].size - req - hs);
      assert fl' == fl[k := r];
      SplitThreads(hdr, head, fl, k, r, hdr', head');
    } else {
      UnlinkThreads(hdr, head, fl, k, hdr', head');
    }
    forall a | a in alloc ensures a.addr in hdr' && hdr'[a.addr] == hdr[a.addr] {
      assert Disjoint(a, fl[k], hs);
      if 0 < k { assert Disjoint(a, fl[k - 1], hs); }
      if k + 1 < |fl| { assert Disjoint(a, fl[k + 1], hs); }
      if Splits(fl[k], req, hs) { assert Disjoint(a, fl'[k], hs); }
    }
  }

  /** The list is empty exactly when the head is null. */
  lemma HeadNull(hdr: map<int, Header>, head: int, fl: seq<Block>, alloc: set<Block>, hs: nat, arena: int)
    requires Heap(hdr, head, fl, alloc, hs, arena)
    ensures head == Null <==> fl == []
  {
    if fl != [] {
      assert Within(fl[0], hs, arena);
    }
  }

  /**
   * The state after the insertion part of dfree: with the freed block's header
   * linked to its neighbours at its place by address, those neighbours linked
   * to it and no other header touched, the state represents the list with the
   * block inserted, and the block is no longer allocated.
   */
  lemma InsertState(hdr: map<int, Header>, head: int, fl: seq<Block>, alloc: set<Block>, b: Block, k: int,
                    hs: nat, arena: int, hdr': map<int, Header>, head': int)
    requires hs > 0 && Heap(hdr, head, fl, alloc, hs, arena) && Coalesced(fl, hs) && b in alloc
    requires k == Place(fl, b.addr)
    requires head' == (if k == 0 then b.addr else head)
    requires b.addr in hdr'
    requires hdr'[b.addr] == Header(b.size, if k < |fl| then fl[k].addr else Null, if 0 < k then fl[k - 1].addr else Null)
    requires 0 < k ==> fl[k - 1].addr in hdr' && hdr'[fl[k - 1].addr] == Header(fl[k - 1].size, b.addr, PrevOf(fl, k - 1))
    requires k < |fl| ==> fl[k].addr in hdr' && hdr'[fl[k].addr] == Header(fl[k].size, NextOf(fl, k), b.addr)
    requires forall a :: (a in hdr && a != b.addr && (0 < k ==> a != fl[k - 1].addr) && (k < |fl| ==> a != fl[k].addr)) ==>
               a in hdr' && hdr'[a] == hdr[a]
    ensures Heap(hdr', head', Insert(fl, b), alloc - {b}, hs, arena)
    ensures Insert(fl, b)[Place(fl, b.addr)] == b && CoalescedExcept(Insert(fl, b), Place(fl, b.addr), hs)
  {
    var fl' := Insert(fl, b);
    InsertLayout(fl, alloc, b, hs, arena);
    OrderedAscending(fl', hs);
    InsertThreads(hdr, head, fl, k, b, hdr', head');
    forall a | a in alloc - {b} ensures a.addr in hdr' && hdr'[a.addr] == hdr[a.addr] {
      assert Disjoint(a, b, hs);
      if 0 < k { assert Disjoint(a, fl[k - 1], hs); }
      if k < |fl| { assert Disjoint(a, fl[k], hs); }
    }
  }

  /** The insertion into an empty list: the block becomes the whole list. */
  lemma LinkOnly(hdr: map<int, Header>, head: int, fl: seq<Block>, alloc: set<Block>, b: Block, hs: nat, arena: int)
    requires hs > 0 && Heap(hdr, head, fl, alloc, hs, arena) && b in alloc && fl == []
    ensures b.addr in hdr && Place(fl, b.addr) == 0 && Insert(fl, b) == [b]
    ensures Heap(hdr[b.addr := hdr[b.addr].(prev := Null, next := Null)], b.addr, Insert(fl, b), alloc - {b}, hs, arena)
  {
    InsertState(hdr, head, fl, alloc, b, 0, hs, arena, hdr[b.addr := hdr[b.addr].(prev := Null, next := Null)], b.addr);
  }

  /** The insertion before entry `k` of the list, which has a list predecessor. */
  lemma LinkBefore(hdr: map<int, Header>, head: int, fl: seq<Block>, alloc: set<Block>, b: Block, k: int,
                   hs: nat, arena: int)
    requires hs > 0 && Heap(hdr, head, fl, alloc, hs, arena) && Coalesced(fl, hs) && b in alloc
    requires 0 < k < |fl| && k == Place(fl, b.addr)
    ensures fl[k - 1].addr in hdr && b.addr in hdr && fl[k].addr in hdr
    ensures var p, n := fl[k - 1].addr, fl[k].addr;
      var m1 := hdr[p := hdr[p].(next := b.addr)];
      var m2 := m1[b.addr := m1[b.addr].(prev := m1[n].prev, next := n)];
      && Heap(m2[n := m2[n].(prev := b.addr)], head, Insert(fl, b), alloc - {b}, hs, arena)
      && Insert(fl, b)[k] == b && CoalescedExcept(Insert(fl, b), k, hs)
  {
    Neighbours(hdr, head, fl, alloc, k, hs, arena);
    assert Disjoint(b, fl[k], hs) && Disjoint(b, fl[k - 1], hs);
    var p, n := fl[k - 1].addr, fl[k].addr;
    var m1 := hdr[p := hdr[p].(next := b.addr)];
    var m2 := m1[b.addr := m1[b.addr].(prev := m1[n].prev, next := n)];
    InsertState(hdr, head, fl, alloc, b, k, hs, arena, m2[n := m2[n].(prev := b.addr)], head);
  }

  /** The insertion before the first entry of the list: the block becomes the head. */
  lemma LinkFront(hdr: map<int, Header>, head: int, fl: seq<Block>, alloc: set<Block>, b: Block,
                  hs: nat, arena: int)
    requires hs > 0 && Heap(hdr, head, fl, alloc, hs, arena) && Coalesced(fl, hs) && b in alloc
    requires 0 < |fl| && 0 == Place(fl, b.addr)
    ensures b.addr in hdr && fl[0].addr in hdr
    ensures var n := fl[0].addr;
      var m1 := hdr[n := hdr[n].(prev := b.addr)];
      && Heap(m1[b.addr := m1[b.addr].(next := n, prev := Null)], b.addr, Insert(fl, b), alloc - {b}, hs, arena)
      && Insert(fl, b)[0] == b && CoalescedExcept(Insert(fl, b), 0, hs)
  {
    Neighbours(hdr, head, fl, alloc, 0, hs, arena);
    assert Disjoint(b, fl[0], hs);
    var n := fl[0].addr;
    var m1 := hdr[n := hdr[n].(prev := b.addr)];
    InsertState(hdr, head, fl, alloc, b, 0, hs, arena, m1[b.addr := m1[b.addr].(next := n, prev := Null)], b.addr);
  }

  /** The insertion after the last entry of the list. */
  lemma LinkBack(hdr: map<int, Header>, head: int, fl: seq<Block>, alloc: set<Block>, b: Block,
                 hs: nat, arena: int)
    requires hs > 0 && Heap(hdr, head, fl, alloc, hs, arena) && Coalesced(fl, hs) && b in alloc
    requires 0 < |fl| && |fl| == Place(fl, b.addr)
    ensures b.addr in hdr && fl[|fl| - 1].addr in hdr
    ensures var p := fl[|fl| - 1].addr;
      var m1 := hdr[p := hdr[p].(next := b.addr)];
      && Heap(m1[b.addr := m1[b.addr].(prev := p, next := Null)], head, Insert(fl, b), alloc - {b}, hs, arena)
      && Insert(fl, b)[|fl|] == b && CoalescedExcept(Insert(fl, b), |fl|, hs)
  {
    var k := |fl| - 1;
    Neighbours(hdr, head, fl, alloc, k, hs, arena);
    assert Disjoint(b, fl[k], hs);
    var p := fl[k].addr;
    var m1 := hdr[p := hdr[p].(next := b.addr)];
    InsertState(hdr, head, fl, alloc, b, |fl|, hs, arena, m1[b.addr := m1[b.addr].(prev := p, next := Null)], head);
  }

  /**
   * The state after coalesce: with the header of the merged block holding its
   * size and the links of the run's ends, the entry after the run linked back
   * to it and no other header touched, the state represents the merged list.
   */
  lemma FuseState(hdr: map<int, Header>, head: int, fl: seq<Block>, alloc: set<Block>, k: int, lo: int, hi: int,
                  m: Block, hs: nat, arena: int, hdr': map<int, Header>)
    requires hs > 0 && Heap(hdr, head, fl, alloc, hs, arena) && 0 <= k < |fl| && CoalescedExcept(fl, k, hs)
    requires SuccAdjacent(fl, k, hs) || PredAdjacent(fl, k, hs)
    requires lo == (if PredAdjacent(fl, k, hs) then k - 1 else k) && hi == (if SuccAdjacent(fl, k, hs) then k + 1 else k)
    requires m.addr == fl[lo].addr && End(m, hs) == End(fl[hi], hs)
    requires m.addr in hdr' && hdr'[m.addr] == Header(m.size, NextOf(fl, hi), PrevOf(fl, lo))
    requires hi + 1 < |fl| ==> fl[hi + 1].addr in hdr' && hdr'[fl[hi + 1].addr] == Header(fl[hi + 1].size, NextOf(fl, hi + 1), m.addr)
    requires forall a :: (a in hdr && a != m.addr && (hi + 1 < |fl| ==> a != fl[hi + 1].addr)) ==>
               a in hdr' && hdr'[a] == hdr[a]
    ensures Heap(hdr', head, Merge(fl, k, hs), alloc, hs, arena) && Coalesced(Merge(fl, k, hs), hs)
  {
    MergeLayout(fl, alloc, k, hs, arena);
    MergeSplice(fl, k, hs, lo, hi, m);
    OrderedAscending(fl, hs);
    assert Linked(hdr, fl, lo);
    FuseThreads(hdr, head, fl, lo, hi, m, hdr');
    forall a | a in alloc ensures a.addr in hdr' && hdr'[a.addr] == hdr[a.addr] {
      assert Disjoint(a, fl[lo], hs);
      if hi + 1 < |fl| { assert Disjoint(a, fl[hi + 1], hs); }
    }
  }

  /**
   * Case 2 of coalesce: entry `k` (header `b` at `x`) absorbs its list
   * successor (header `s`); `m1` is the map once `x` is rewritten.
   */
  lemma MergeNext(hdr: map<int, Header>, head: int, fl: seq<Block>, alloc: set<Block>, k: int, hs: nat, arena: int,
                  x: int, b: Header, s: Header, m1: map<int, Header>)
    requires hs > 0 && Heap(hdr, head, fl, alloc, hs, arena) && 0 <= k < |fl| && CoalescedExcept(fl, k, hs)
    requires SuccAdjacent(fl, k, hs) && !PredAdjacent(fl, k, hs)
    requires x == fl[k].addr && x in hdr && b == hdr[x] && fl[k + 1].addr in hdr && s == hdr[fl[k + 1].addr]
    requires m1 == hdr[x := b.(size := b.size + hs + s.size, next := s.next)]
    ensures s.next != Null ==> s.next in m1 && Heap(m1[s.next := m1[s.next].(prev := x)], head, Merge(fl, k, hs), alloc, hs, arena)
    ensures s.next == Null ==> Heap(m1, head, Merge(fl, k, hs), alloc, hs, arena)
    ensures Coalesced(Merge(fl, k, hs), hs)
  {
    assert Linked(hdr, fl, k) && Linked(hdr, fl, k + 1);
    var m := Block(x, b.size + hs + s.size);
    if s.next != Null {
      assert k + 2 < |fl|;
      assert Linked(hdr, fl, k + 2) && Within(fl[k + 2], hs, arena);
      assert End(fl[k + 1], hs) <= fl[k + 2].addr;
      FuseState(hdr, head, fl, alloc, k, k, k + 1, m, hs, arena, m1[s.next := m1[s.next].(prev := x)]);
    } else {
      FuseState(hdr, head, fl, alloc, k, k, k + 1, m, hs, arena, m1);
    }
  }

  /**
   * Case 3 of coalesce: the list predecessor of entry `k` (header `p` at `x`)
   * absorbs it (header `b`); `m1` is the map once `x` is rewritten.
   */
  lemma MergePrev(hdr: map<int, Header>, head: int, fl: seq<Block>, alloc: set<Block>, k: int, hs: nat, arena: int,
                  x: int, p: Header, b: Header, m1: map<int, Header>)
    requires hs > 0 && Heap(hdr, head, fl, alloc, hs, arena) && 0 <= k < |fl| && CoalescedExcept(fl, k, hs)
    requires !SuccAdjacent(fl, k, hs) && PredAdjacent(fl, k, hs)
    requires fl[k].addr in hdr && b == hdr[fl[k].addr] && x == fl[k - 1].addr && x in hdr && p == hdr[x]
    requires m1 == hdr[x := p.(size := b.size + hs + p.size, next := b.next)]
    ensures b.next != Null ==> b.next in m1 && Heap(m1[b.next := m1[b.next].(prev := x)], head, Merge(fl, k, hs), alloc, hs, arena)
    ensures b.next == Null ==> Heap(m1, head, Merge(fl, k, hs), alloc, hs, arena)
    ensures Coalesced(Merge(fl, k, hs), hs)
  {
    assert Linked(hdr, fl, k - 1) && Linked(hdr, fl, k);
    var m := Block(x, p.size + hs + b.size);
    if b.next != Null {
      assert k + 1 < |fl|;
      assert Linked(hdr, fl, k + 1) && Within(fl[k + 1], hs, arena);
      assert End(fl[k], hs) <= fl[k + 1].addr;
      FuseState(hdr, head, fl, alloc, k, k - 1, k, m, hs, arena, m1[b.next := m1[b.next].(prev := x)]);
    } else {
      FuseState(hdr, head, fl, alloc, k, k - 1, k, m, hs, arena, m1);
    }
  }

  /**
   * Case 4 of coalesce: the list predecessor of entry `k` (header `p` at `x`)
   * absorbs it (header `b`) and its list successor (header `s`); `m1` is the
   * map once `x` is rewritten.
   */
  lemma MergeBoth(hdr: map<int, Header>, head: int, fl: seq<Block>, alloc: set<Block>, k: int, hs: nat, arena: int,
                  x: int, p: Header, b: Header, s: Header, m1: map<int, Header>)
    requires hs > 0 && Heap(hdr, head, fl, alloc, hs, arena) && 0 <= k < |fl| && CoalescedExcept(fl, k, hs)
    requires SuccAdjacent(fl, k, hs) && PredAdjacent(fl, k, hs)
    requires fl[k].addr in hdr && b == hdr[fl[k].addr] && x == fl[k - 1].addr && x in hdr && p == hdr[x]
    requires fl[k + 1].addr in hdr && s == hdr[fl[k + 1].addr]
    requires m1 == hdr[x := p.(size := p.size + hs + b.size + hs + s.size, next := s.next)]
    ensures s.next != Null ==> s.next in m1 && Heap(m1[s.next := m1[s.next].(prev := x)], head, Merge(fl, k, hs), alloc, hs, arena)
    ensures s.next == Null ==> Heap(m1, head, Merge(fl, k, hs), alloc, hs, arena)
    ensures Coalesced(Merge(fl, k, hs), hs)
  {
    assert Linked(hdr, fl, k - 1) && Linked(hdr, fl, k) && Linked(hdr, fl, k + 1);
    var m := Block(x, p.size + hs + b.size + hs + s.size);
    if s.next != Null {
      assert k + 2 < |fl|;
      assert Linked(hdr, fl, k + 2) && Within(fl[k + 2], hs, arena);
      assert End(fl[k + 1], hs) <= fl[k + 2].addr;
      FuseState(hdr, head, fl, alloc, k, k - 1, k + 1, m, hs, arena, m1[s.next := m1[s.next].(prev := x)]);
    } else {
      FuseState(hdr, head, fl, alloc, k, k - 1, k + 1, m, hs, arena, m1);
    }
  }

  class Allocator {
    /** METADATA_T_ALIGNED: the size of a header, already aligned. */
    const H: nat
    /** The alignment quantum of ALIGN. */
    const Alignment: nat
    /** The size of the arena, ALIGN(MAX_HEAP_SIZE). */
    const ArenaSize: nat

    /** `freelist`: the header of the first free block, or Null. */
    var head: int
    /** The header stored at each offset that holds one. */
    var hdr: map<int, Header>

    ghost var Free: seq<Block>
    ghost var Allocated: set<Block>

    /**
     * The invariant between public operations, except full coalescing: the
     * header size is a multiple of the alignment, every block's offset and
     * size are multiples of it (`Aligned`), and through `Heap` the headers
     * thread `Free`, allocated blocks have null links, and the blocks lie in
     * the arena without overlapping, the free ones in address order.
     */
    ghost predicate Sound()
      reads this
    {
      && 0 < H && 0 < Alignment && H % Alignment == 0
      && Aligned(Free, Allocated, Alignment)
      && Heap(hdr, head, Free, Allocated, H, ArenaSize)
    }

    /** The invariant between public operations. */
    ghost predicate Valid()
      reads this
    {
      Sound() && Coalesced(Free, H)
    }

    /**
     * dmalloc_init, once the arena is mapped: one free block spans the whole
     * arena but its header, and it is the whole free list.
     */
    constructor (headerSize: nat, alignment: nat, maxHeapSize: nat)
      requires 0 < headerSize && 0 < alignment
      requires headerSize <= Align(maxHeapSize, alignment) && headerSize % alignment == 0
      ensures Valid()
      ensures H == headerSize && Alignment == alignment && ArenaSize == Align(maxHeapSize, alignment)
      ensures head == 0 && 0 in hdr && hdr[0] == Header(ArenaSize - H, Null, Null)
      ensures Free == [Block(0, ArenaSize - H)] && Allocated == {}
    {
      H, Alignment := headerSize, alignment;
      ArenaSize := Align(maxHeapSize, alignment);
      new;
      MultipleAdd(ArenaSize, H, Alignment);
      head := 0;
      hdr := map[0 := Header(ArenaSize - H, Null, Null)];
      Free := [Block(0, ArenaSize - H)];
      Allocated := {};
    }

    /**
     * search: walks the free list from the head and returns the first block
     * whose payload holds `req` bytes, or Null; `k` is its index in `Free`.
     */
    method Search(req: int) returns (block: int, ghost k: int)
      requires Valid() && H <= req
      ensures block == if FirstFit(Free, req) == -1 then Null else Free[FirstFit(Free, req)].addr
      ensures k == FirstFit(Free, req)
    {
      HeadNull(hdr, head, Free, Allocated, H, ArenaSize);
      if head == Null {
        return Null, -1;
      }
      block, k := head, 0;
      while block != Null
        invariant 0 <= k <= |Free|
        invariant block == if k < |Free| then Free[k].addr else Null
        invariant k < |Free| ==> Within(Free[k], H, ArenaSize)
        invariant forall j :: 0 <= j < k ==> Free[j].size < req
        decreases |Free| - k
      {
        assert Linked(hdr, Free, k);
        if req <= hdr[block].size {
          return;
        }
        block, k := hdr[block].next, k + 1;
      }
      k := -1;
    }

    /**
     * allocate_with_split: carves `req` bytes, header included, out of the free
     * block `target` (entry `k` of the list). When the rest has room for a
     * header, a remainder block `req` bytes further on takes the target's place
     * in the list; otherwise the target is unlinked whole.
     */
    method AllocateWithSplit(target: int, req: int, ghost k: int)
      requires Valid() && 0 <= k < |Free| && Free[k].addr == target && H <= req <= Free[k].size
      requires req % Alignment == 0
      modifies this
      ensures Valid()
      ensures Free == Carve(old(Free), k, req, H)
      ensures Allocated == old(Allocated) + {Taken(old(Free)[k], req, H)}
      ensures target in hdr && hdr[target] == Header(Taken(old(Free)[k], req, H).size, Null, Null)
    {
      ghost var fl, alloc, hdr0, head0 := Free, Allocated, hdr, head;
      Neighbours(hdr, head, fl, alloc, k, H, ArenaSize);
      var t := hdr[target];
      if t.size - req >= H {
        var remain := target + req;
        hdr := hdr[remain := Header(t.size - req - H, t.next, t.prev)];
        if target == head {
          head := remain;
        } else {
          hdr := hdr[t.prev := hdr[t.prev].(next := remain)];
        }
        if t.next != Null {
          hdr := hdr[t.next := hdr[t.next].(prev := remain)];
        }
        hdr := hdr[target := Header(req - H, Null, Null)];
      } else {
        if target == head {
          head := t.next;
        } else {
          hdr := hdr[t.prev := hdr[t.prev].(next := t.next)];
        }
        if t.next != Null {
          hdr := hdr[t.next := hdr[t.next].(prev := t.prev)];
        }
        hdr := hdr[target := t.(prev := Null, next := Null)];
      }
      CarveState(hdr0, head0, fl, alloc, k, req, H, ArenaSize, hdr, head);
      CarveAligned(fl, alloc, k, req, H, Alignment);
      Free := Carve(fl, k, req, H);
      Allocated := alloc + {Taken(fl[k], req, H)};
    }

    /**
     * dmalloc: asks for ALIGN(numbytes) payload bytes plus a header. Returns the
     * payload of the first fitting free block, carved as by allocate_with_split,
     * or Null, with nothing changed, when no free block fits.
     */
    method Dmalloc(numbytes: nat) returns (ptr: int)
      requires Valid() && 0 < numbytes
      modifies this
      ensures Valid()
      ensures var req := Align(numbytes, Alignment) + H;
              var k := FirstFit(old(Free), req);
              if k == -1 then
                ptr == Null && unchanged(this)
              else
                && ptr == old(Free)[k].addr + H
                && Free == Carve(old(Free), k, req, H)
                && Allocated == old(Allocated) + {Taken(old(Free)[k], req, H)}
      ensures ptr != Null ==>
                && ptr - H in hdr && Block(ptr - H, hdr[ptr - H].size) in Allocated
                && Block(ptr - H, hdr[ptr - H].size) !in old(Allocated)
                && numbytes <= Align(numbytes, Alignment) <= hdr[ptr - H].size
      ensures ptr != Null ==> ptr % Alignment == 0
    {
      var req := Align(numbytes, Alignment) + H;
      MultipleAdd(Align(numbytes, Alignment), H, Alignment);
      ghost var fl := Free;
      var block, k := Search(req);
      if block == Null {
        return Null;
      }
      CarveLayout(fl, Allocated, k, req, H, ArenaSize);
      assert AlignedBlock(fl[k], Alignment);
      MultipleAdd(block, H, Alignment);
      AllocateWithSplit(block, req, k);
      ptr := block + H;
    }

    /**
     * The insertion part of dfree: splices the allocated block `header` into
     * the free list before the first free block at a higher address, or after
     * the tail, or as the only entry of an empty list. Returns its index.
     */
    method InsertFree(header: int) returns (ghost k: int)
      requires Valid() && header in hdr && Block(header, hdr[header].size) in Allocated
      modifies this
      ensures Sound() && 0 <= k < |Free| && Free[k].addr == header && CoalescedExcept(Free, k, H)
      ensures var b := Block(header, old(hdr[header].size));
              && k == Place(old(Free), header)
              && Free == Insert(old(Free), b)
              && Allocated == old(Allocated) - {b}
    {
      ghost var fl, alloc, b := Free, Allocated, Block(header, hdr[header].size);
      HeadNull(hdr, head, fl, alloc, H, ArenaSize);
      if head == Null {
        LinkOnly(hdr, head, fl, alloc, b, H, ArenaSize);
        head := header;
        hdr := hdr[header := hdr[header].(prev := Null, next := Null)];
        k := 0;
      } else {
        var block := head;
        k := 0;
        while block < header && hdr[block].next != Null
          invariant 0 <= k < |fl| && block == fl[k].addr && Linked(hdr, fl, k)
          invariant forall j :: 0 <= j < k ==> fl[j].addr < header
          decreases |fl| - k
        {
          assert Linked(hdr, fl, k + 1);
          block, k := hdr[block].next, k + 1;
        }
        Neighbours(hdr, head, fl, alloc, k, H, ArenaSize);
        assert Disjoint(b, fl[k], H);
        if block > header {
          PlaceIs(fl, header, k);
          if hdr[block].prev != Null {
            LinkBefore(hdr, head, fl, alloc, b, k, H, ArenaSize);
            var prevTemp := hdr[block].prev;
            hdr := hdr[prevTemp := hdr[prevTemp].(next := header)];
            hdr := hdr[header := hdr[header].(prev := hdr[block].prev, next := block)];
            hdr := hdr[block := hdr[block].(prev := header)];
          } else {
            LinkFront(hdr, head, fl, alloc, b, H, ArenaSize);
            hdr := hdr[block := hdr[block].(prev := header)];
            hdr := hdr[header := hdr[header].(next := block, prev := Null)];
            head := header;
          }
        } else if hdr[block].next == Null {
          PlaceIs(fl, header, k + 1);
          LinkBack(hdr, head, fl, alloc, b, H, ArenaSize);
          hdr := hdr[block := hdr[block].(next := header)];
          hdr := hdr[header := hdr[header].(prev := block, next := Null)];
          k := k + 1;
        } else {
          // The loop stopped at `header` itself with a successor, a case
          // dfree has no branch for. It cannot arise: `header` is allocated,
          // so it is disjoint from every free block and is none of them.
          assert false;
        }
      }
      InsertAligned(fl, alloc, b, Alignment);
      Free := Insert(fl, b);
      Allocated := alloc - {b};
    }

    /**
     * coalesce: merges the free block `block` (entry `k`) with its list
     * successor when that starts where `block` ends, and into its list
     * predecessor when that ends where `block` starts.
     */
    method Coalesce(block: int, ghost k: int)
      requires Sound() && 0 <= k < |Free| && Free[k].addr == block && CoalescedExcept(Free, k, H)
      modifies this
      ensures Valid()
      ensures Free == Merge(old(Free), k, H) && Allocated == old(Allocated)
      ensures !SuccAdjacent(old(Free), k, H) && !PredAdjacent(old(Free), k, H) ==> unchanged(this)
    {
      ghost var fl := Free;
      MergeLayout(fl, Allocated, k, H, ArenaSize);
      Neighbours(hdr, head, fl, Allocated, k, H, ArenaSize);
      var b := hdr[block];
      var sucIsFree := false;
      var successor := Null;
      if b.next != Null {
        successor := block + H + b.size;
        sucIsFree := successor == b.next;
      }
      var predIsFree := false;
      if b.prev != Null {
        var prevSucc := b.prev + H + hdr[b.prev].size;
        predIsFree := prevSucc == block;
      }
      assert sucIsFree == SuccAdjacent(fl, k, H) && predIsFree == PredAdjacent(fl, k, H);
      if !sucIsFree && !predIsFree {
        return;
      } else if sucIsFree && !predIsFree {
        var s := hdr[successor];
        ghost var hdr0 := hdr;
        hdr := hdr[block := b.(size := b.size + H + s.size, next := s.next)];
        MergeNext(hdr0, head, fl, Allocated, k, H, ArenaSize, block, b, s, hdr);
        if s.next != Null {
          hdr := hdr[s.next := hdr[s.next].(prev := block)];
        }
      } else if !sucIsFree && predIsFree {
        var predecessor := b.prev;
        var p := hdr[predecessor];
        ghost var hdr0 := hdr;
        hdr := hdr[predecessor := p.(size := b.size + H + p.size, next := b.next)];
        MergePrev(hdr0, head, fl, Allocated, k, H, ArenaSize, predecessor, p, b, hdr);
        if b.next != Null {
          hdr := hdr[b.next := hdr[b.next].(prev := predecessor)];
        }
      } else {
        var predecessor := b.prev;
        var p, s := hdr[predecessor], hdr[successor];
        ghost var hdr0 := hdr;
        hdr := hdr[predecessor := p.(size := p.size + H + b.size + H + s.size, next := s.next)];
        MergeBoth(hdr0, head, fl, Allocated, k, H, ArenaSize, predecessor, p, b, s, hdr);
        if s.next != Null {
          hdr := hdr[s.next := hdr[s.next].(prev := predecessor)];
        }
      }
      MergeAligned(fl, Allocated, k, H, Alignment);
      Free := Merge(fl, k, H);
    }

    /**
     * dfree: returns the block whose payload starts at `ptr` to the free list
     * and coalesces it with its free neighbours. The bytes the free list
     * covers grow by exactly the block's footprint.
     */
    method Dfree(ptr: int)
      requires Valid() && ptr - H in hdr && Block(ptr - H, hdr[ptr - H].size) in Allocated
      modifies this
      ensures Valid()
      ensures var b := Block(ptr - H, old(hdr[ptr - H].size));
              && Allocated == old(Allocated) - {b}
              && Free == Merge(Insert(old(Free), b), Place(old(Free), b.addr), H)
      ensures forall x :: Covers(Free, x, H) <==> Covers(old(Free), x, H) || ptr - H <= x < ptr + old(hdr[ptr - H].size)
    {
      var header := ptr - H;
      ghost var fl, b := Free, Block(header, hdr[header].size);
      var k := InsertFree(header);
      Coalesce(header, k);
      forall x ensures Covers(Free, x, H) <==> Covers(fl, x, H) || InBlock(b, x, H) {
        InsertCovers(fl, b, H, x);
        MergeCovers(Insert(fl, b), k, H, x);
      }
    }
  }
}
