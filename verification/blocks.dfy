/**
 * The free list of the dmm allocator as a value: the free blocks in list order,
 * each given by the arena offset of its header and its payload size.
 *
 * Every function here is the specification of one step of the allocator in
 * module Dmm: `FirstFit` of `search`, `Carve` of `allocate_with_split`,
 * `Insert` of the insertion part of `dfree`, `Merge` of `coalesce`. The lemmas
 * say which invariants of the arena each step keeps and which bytes it frees.
 * The header size is a parameter `hs` throughout (METADATA_T_ALIGNED in dmm.h).
 */
module Blocks {

  /** The C null pointer, as an arena offset. */
  const Null: int := -1

  /** A block: a header at offset `addr`, followed by `size` payload bytes. */
  datatype Block = Block(addr: int, size: nat)

  /** One past the last byte of `b`'s footprint (header and payload). */
  function End(b: Block, hs: nat): int
  {
    b.addr + hs + b.size
  }

  /** Byte `x` lies inside the footprint of `b`. */
  predicate InBlock(b: Block, x: int, hs: nat)
  {
    b.addr <= x < End(b, hs)
  }

  /** The footprints of `a` and `b` do not overlap. */
  predicate Disjoint(a: Block, b: Block, hs: nat)
  {
    End(a, hs) <= b.addr || End(b, hs) <= a.addr
  }

  /** Strictly ascending by address, each block ending before the next one starts. */
  predicate Ordered(fl: seq<Block>, hs: nat)
  {
    forall i, j :: 0 <= i < j < |fl| ==> End(fl[i], hs) <= fl[j].addr
  }

  /** Strictly ascending addresses. */
  predicate Ascending(fl: seq<Block>)
  {
    forall i, j :: 0 <= i < j < |fl| ==> fl[i].addr < fl[j].addr
  }

  /** An ordered list has strictly ascending addresses. */
  lemma OrderedAscending(fl: seq<Block>, hs: nat)
    requires hs > 0 && Ordered(fl, hs)
    ensures Ascending(fl)
  {
    forall i, j | 0 <= i < j < |fl| ensures fl[i].addr < fl[j].addr {
      assert End(fl[i], hs) <= fl[j].addr;
    }
  }

  /** Entry `i` does not start where its list predecessor ends. */
  predicate Apart(fl: seq<Block>, i: int, hs: nat)
    requires 0 < i < |fl|
  {
    End(fl[i - 1], hs) != fl[i].addr
  }

  /** No two list neighbours are also neighbours in memory. */
  predicate Coalesced(fl: seq<Block>, hs: nat)
  {
    forall i :: 0 < i < |fl| ==> Apart(fl, i, hs)
  }

  /** `Coalesced`, except possibly on either side of the entry at index `k`. */
  predicate CoalescedExcept(fl: seq<Block>, k: int, hs: nat)
  {
    forall i :: 0 < i < |fl| && i != k && i != k + 1 ==> Apart(fl, i, hs)
  }

  /** The footprint of `b` lies inside an arena of `arena` bytes. */
  predicate Within(b: Block, hs: nat, arena: int)
  {
    0 <= b.addr && End(b, hs) <= arena
  }

  /**
   * The memory invariants of the arena: the free list `fl` is ordered, every
   * block, free or allocated, lies in the arena, and no two blocks overlap.
   */
  predicate Layout(fl: seq<Block>, alloc: set<Block>, hs: nat, arena: int)
  {
    Ordered(fl, hs) && Placed(fl, alloc, hs, arena)
  }

  /** Every block lies in the arena, and allocated blocks overlap no other block. */
  predicate Placed(fl: seq<Block>, alloc: set<Block>, hs: nat, arena: int)
  {
    && (forall i :: 0 <= i < |fl| ==> Within(fl[i], hs, arena))
    && (forall a :: a in alloc ==> Within(a, hs, arena))
    && (forall a, c {:trigger Disjoint(a, c, hs)} :: a in alloc && c in alloc && a != c ==> Disjoint(a, c, hs))
    && (forall a, i {:trigger Disjoint(a, fl[i], hs)} :: a in alloc && 0 <= i < |fl| ==> Disjoint(a, fl[i], hs))
  }

  /** Offset and payload size of `b` are multiples of `al`. */
  predicate AlignedBlock(b: Block, al: nat)
    requires al > 0
  {
    b.addr % al == 0 && b.size % al == 0
  }

  /** Every free and every allocated block is aligned to `al`. */
  predicate Aligned(fl: seq<Block>, alloc: set<Block>, al: nat)
    requires al > 0
  {
    && (forall i {:trigger AlignedBlock(fl[i], al)} :: 0 <= i < |fl| ==> AlignedBlock(fl[i], al))
    && (forall a {:trigger AlignedBlock(a, al)} :: a in alloc ==> AlignedBlock(a, al))
  }

  /** A multiple of `al` leaves no remainder. */
  lemma MulMod(c: int, al: int)
    requires al > 0
    ensures (c * al) % al == 0
  {
    var q, r := (c * al) / al, (c * al) % al;
    var d := c - q;
    assert r == d * al;
    assert d >= 1 ==> d * al >= al;
    assert d <= -1 ==> d * al <= -al;
  }

  /** Sums and differences of multiples of `al` are multiples of `al`. */
  lemma MultipleAdd(x: int, y: int, al: int)
    requires al > 0 && x % al == 0 && y % al == 0
    ensures (x + y) % al == 0 && (x - y) % al == 0
  {
    var p, q := x / al, y / al;
    assert x == p * al && y == q * al;
    assert x + y == (p + q) * al;
    assert x - y == (p - q) * al;
    MulMod(p + q, al);
    MulMod(p - q, al);
  }

  /** Some free block of `fl` holds byte `x`. */
  ghost predicate Covers(fl: seq<Block>, x: int, hs: nat)
  {
    exists i :: 0 <= i < |fl| && InBlock(fl[i], x, hs)
  }

  // ---------------------------------------------------------------- search

  /**
   * First fit: the index of the first block, in list order, whose payload is at
   * least `req`, or -1 when there is none.
   */
  function FirstFit(fl: seq<Block>, req: int): (k: int)
    ensures -1 <= k < |fl|
    ensures k == -1 <==> forall i :: 0 <= i < |fl| ==> fl[i].size < req
    ensures k != -1 ==> req <= fl[k].size && forall i :: 0 <= i < k ==> fl[i].size < req
  {
    if fl == [] then -1
    else if req <= fl[0].size then 0
    else
      var k := FirstFit(fl[1..], req);
      if k == -1 then -1 else k + 1
  }

  // ------------------------------------------------------- allocate_with_split

  /** The remainder is split off when it has room for a header of its own. */
  predicate Splits(b: Block, req: int, hs: nat)
  {
    b.size - req >= hs
  }

  /** The block handed to the caller when `req` bytes (header included) are carved out of `b`. */
  function Taken(b: Block, req: int, hs: nat): (t: Block)
    requires hs <= req <= b.size
    ensures t.addr == b.addr && req - hs <= t.size && End(t, hs) <= End(b, hs)
  {
    if Splits(b, req, hs) then Block(b.addr, req - hs) else b
  }

  /**
   * The free list after carving `req` bytes out of the block at index `k`: the
   * remainder header `req` bytes further on takes the block's place, with the
   * payload `size - req - hs`; without room for it the block leaves the list.
   */
  function Carve(fl: seq<Block>, k: int, req: int, hs: nat): (fl': seq<Block>)
    requires 0 <= k < |fl| && hs <= req <= fl[k].size
    ensures |fl'| == if Splits(fl[k], req, hs) then |fl| else |fl| - 1
    ensures Splits(fl[k], req, hs) ==>
              fl'[k].addr == End(Taken(fl[k], req, hs), hs) && End(fl'[k], hs) + hs == End(fl[k], hs)
  {
    if Splits(fl[k], req, hs) then fl[k := Block(fl[k].addr + req, fl[k].size - req - hs)]
    else fl[..k] + fl[k + 1..]
  }

  /**
   * Carving keeps the arena invariants, with the taken block now allocated; the
   * caller gets at least the payload it asked for, and a split remainder lies
   * inside the original block, right after the taken one, ending `hs` bytes
   * short of the original end.
   */
  lemma CarveLayout(fl: seq<Block>, alloc: set<Block>, k: int, req: int, hs: nat, arena: int)
    requires hs > 0 && Layout(fl, alloc, hs, arena) && Coalesced(fl, hs)
    requires 0 <= k < |fl| && hs <= req <= fl[k].size
    ensures Taken(fl[k], req, hs) !in alloc
    ensures Taken(fl[k], req, hs).addr == fl[k].addr && req - hs <= Taken(fl[k], req, hs).size
    ensures Layout(Carve(fl, k, req, hs), alloc + {Taken(fl[k], req, hs)}, hs, arena)
    ensures Coalesced(Carve(fl, k, req, hs), hs)
    ensures Splits(fl[k], req, hs) ==>
              var r := Carve(fl, k, req, hs)[k];
              && End(Taken(fl[k], req, hs), hs) == r.addr
              && End(r, hs) + hs == End(fl[k], hs)
  {
    assert !Disjoint(Taken(fl[k], req, hs), fl[k], hs);
    if Splits(fl[k], req, hs) {
      ShrinkEntry(fl, k, Carve(fl, k, req, hs)[k], hs);
    } else {
      RemoveEntry(fl, k, hs);
    }
    CarvePlaced(fl, alloc, k, req, hs, arena);
  }

  /** Replacing an entry by a block strictly inside its footprint keeps the list ordered and coalesced. */
  lemma ShrinkEntry(fl: seq<Block>, k: int, r: Block, hs: nat)
    requires Ordered(fl, hs) && Coalesced(fl, hs) && 0 <= k < |fl|
    requires fl[k].addr < r.addr && End(r, hs) < End(fl[k], hs)
    ensures Ordered(fl[k := r], hs) && Coalesced(fl[k := r], hs)
  {
    var fl' := fl[k := r];
    forall i, j | 0 <= i < j < |fl'| ensures End(fl'[i], hs) <= fl'[j].addr {
      assert End(fl[i], hs) <= fl[j].addr;
    }
    forall i | 0 < i < |fl'| ensures Apart(fl', i, hs) {
      assert Apart(fl, i, hs);
      assert End(fl[i - 1], hs) <= fl[i].addr;
    }
  }

  /** Dropping an entry keeps the list ordered and coalesced. */
  lemma RemoveEntry(fl: seq<Block>, k: int, hs: nat)
    requires hs > 0 && Ordered(fl, hs) && Coalesced(fl, hs) && 0 <= k < |fl|
    ensures Ordered(fl[..k] + fl[k + 1..], hs) && Coalesced(fl[..k] + fl[k + 1..], hs)
  {
    var fl' := fl[..k] + fl[k + 1..];
    forall i, j | 0 <= i < j < |fl'| ensures End(fl'[i], hs) <= fl'[j].addr {
      DropEntry(fl, k, i);
      DropEntry(fl, k, j);
    }
    forall i | 0 < i < |fl'| ensures Apart(fl', i, hs) {
      DropEntry(fl, k, i - 1);
      DropEntry(fl, k, i);
      if i == k {
        assert End(fl[k - 1], hs) <= fl[k].addr && End(fl[k], hs) <= fl[k + 1].addr;
      } else {
        assert Apart(fl, if i < k then i else i + 1, hs);
      }
    }
  }

  /** Entry `i` of `fl` without entry `k` is entry `i` or `i + 1` of `fl`. */
  lemma DropEntry(fl: seq<Block>, k: int, i: int)
    requires 0 <= k < |fl| && 0 <= i < |fl| - 1
    ensures (fl[..k] + fl[k + 1..])[i] == fl[if i < k then i else i + 1]
  {
    if i >= k {
      assert fl[k + 1..][i - k] == fl[i + 1];
    }
  }

  /** After a carve every block still lies in the arena and the taken block overlaps none. */
  lemma CarvePlaced(fl: seq<Block>, alloc: set<Block>, k: int, req: int, hs: nat, arena: int)
    requires hs > 0 && Layout(fl, alloc, hs, arena)
    requires 0 <= k < |fl| && hs <= req <= fl[k].size
    ensures Placed(Carve(fl, k, req, hs), alloc + {Taken(fl[k], req, hs)}, hs, arena)
  {
    var t, fl' := Taken(fl[k], req, hs), Carve(fl, k, req, hs);
    var alloc' := alloc + {t};
    var split := Splits(fl[k], req, hs);
    forall i | 0 <= i < |fl'|
      ensures Within(fl'[i], hs, arena) && Disjoint(t, fl'[i], hs)
      ensures forall a :: a in alloc ==> Disjoint(a, fl'[i], hs)
    {
      if !(split && i == k) {
        var i0 := if split || i < k then i else i + 1;
        assert fl'[i] == fl[i0];
        OrderedDisjoint(fl, k, i0, hs);
      } else {
        assert forall a :: a in alloc ==> Disjoint(a, fl[k], hs);
      }
    }
    forall a | a in alloc ensures Disjoint(a, t, hs) {
      assert Disjoint(a, fl[k], hs);
    }
  }

  /**
   * The bytes a carve takes off the free list: the taken block's footprint and,
   * when the block is split, the last `hs` bytes of the original block, which
   * then belong to no block at all.
   */
  lemma CarveCovers(fl: seq<Block>, k: int, req: int, hs: nat, x: int)
    requires hs > 0 && Ordered(fl, hs)
    requires 0 <= k < |fl| && hs <= req <= fl[k].size
    ensures Covers(Carve(fl, k, req, hs), x, hs) <==>
              && Covers(fl, x, hs)
              && !InBlock(Taken(fl[k], req, hs), x, hs)
              && !(Splits(fl[k], req, hs) && End(fl[k], hs) - hs <= x < End(fl[k], hs))
  {
    var fl', t := Carve(fl, k, req, hs), Taken(fl[k], req, hs);
    var gone := InBlock(t, x, hs) || (Splits(fl[k], req, hs) && End(fl[k], hs) - hs <= x < End(fl[k], hs));
    if Covers(fl', x, hs) {
      var i :| 0 <= i < |fl'| && InBlock(fl'[i], x, hs);
      var i0 := if Splits(fl[k], req, hs) || i < k then i else i + 1;
      if i0 == k {
        assert InBlock(fl[k], x, hs);
      } else {
        CarveEntry(fl, k, req, hs, i0);
        OrderedDisjoint(fl, k, i0, hs);
      }
      assert !gone;
    }
    if Covers(fl, x, hs) && !gone {
      var i :| 0 <= i < |fl| && InBlock(fl[i], x, hs);
      if i != k {
        CarveEntry(fl, k, req, hs, i);
      } else {
        assert Splits(fl[k], req, hs) && InBlock(fl'[k], x, hs);
      }
    }
  }

  /**
   * A split loses bytes: the last byte of the original block was free before
   * the carve, and afterwards it is neither free nor inside any allocated
   * block, the taken one included.
   */
  lemma CarveOrphans(fl: seq<Block>, alloc: set<Block>, k: int, req: int, hs: nat, arena: int)
    requires hs > 0 && Layout(fl, alloc, hs, arena)
    requires 0 <= k < |fl| && hs <= req <= fl[k].size && Splits(fl[k], req, hs)
    ensures Covers(fl, End(fl[k], hs) - 1, hs)
    ensures !Covers(Carve(fl, k, req, hs), End(fl[k], hs) - 1, hs)
    ensures forall a :: a in alloc + {Taken(fl[k], req, hs)} ==> !InBlock(a, End(fl[k], hs) - 1, hs)
  {
    assert InBlock(fl[k], End(fl[k], hs) - 1, hs);
    forall a | a in alloc ensures !InBlock(a, End(fl[k], hs) - 1, hs) {
      assert Disjoint(a, fl[k], hs);
    }
    CarveCovers(fl, k, req, hs, End(fl[k], hs) - 1);
  }

  /**
   * With an aligned request and header size, carving keeps every block
   * aligned: the taken payload `req - hs`, the remainder at `addr + req` and
   * its payload `size - req - hs` are all multiples of `al`.
   */
  lemma CarveAligned(fl: seq<Block>, alloc: set<Block>, k: int, req: int, hs: nat, al: nat)
    requires al > 0 && Aligned(fl, alloc, al) && hs % al == 0 && req % al == 0
    requires 0 <= k < |fl| && hs <= req <= fl[k].size
    ensures Aligned(Carve(fl, k, req, hs), alloc + {Taken(fl[k], req, hs)}, al)
  {
    var b := fl[k];
    assert AlignedBlock(b, al);
    MultipleAdd(req, hs, al);
    MultipleAdd(b.addr, req, al);
    MultipleAdd(b.size, req, al);
    MultipleAdd(b.size - req, hs, al);
    var fl' := Carve(fl, k, req, hs);
    forall i | 0 <= i < |fl'| ensures AlignedBlock(fl'[i], al) {
      if !(Splits(b, req, hs) && i == k) {
        var i0 := if Splits(b, req, hs) || i < k then i else i + 1;
        CarveEntry(fl, k, req, hs, i0);
        assert AlignedBlock(fl[i0], al);
      }
    }
  }

  /** Every entry other than `k` keeps its place in the carved list, one step down if `k` goes. */
  lemma CarveEntry(fl: seq<Block>, k: int, req: int, hs: nat, i: int)
    requires 0 <= k < |fl| && hs <= req <= fl[k].size && 0 <= i < |fl| && i != k
    ensures var i' := if Splits(fl[k], req, hs) || i < k then i else i - 1;
            0 <= i' < |Carve(fl, k, req, hs)| && Carve(fl, k, req, hs)[i'] == fl[i]
  {
    if !Splits(fl[k], req, hs) && i > k {
      assert fl[k + 1..][i - k - 1] == fl[i];
    }
  }

  /** Pairwise ordering makes any two distinct entries disjoint. */
  lemma OrderedDisjoint(fl: seq<Block>, i: int, j: int, hs: nat)
    requires Ordered(fl, hs) && 0 <= i < |fl| && 0 <= j < |fl| && i != j
    ensures Disjoint(fl[i], fl[j], hs)
  {
  }

  // ------------------------------------------------------------------ dfree

  /**
   * The position a header at `a` takes in the list: the index of the first
   * entry whose address exceeds `a`, or the length when there is none.
   */
  function Place(fl: seq<Block>, a: int): (k: nat)
    ensures k <= |fl|
    ensures forall j :: 0 <= j < k ==> fl[j].addr <= a
    ensures k < |fl| ==> a < fl[k].addr
  {
    if fl == [] || a < fl[0].addr then 0 else 1 + Place(fl[1..], a)
  }

  /**
   * `Place` is the only index with the entries before it at or below `a` and
   * the entry at it, if any, above `a`.
   */
  lemma PlaceIs(fl: seq<Block>, a: int, k: int)
    requires 0 <= k <= |fl| && (k < |fl| ==> a < fl[k].addr)
    requires forall j :: 0 <= j < k ==> fl[j].addr <= a
    ensures Place(fl, a) == k
  {
  }

  /** The free list with `b` spliced in at its place by address. */
  function Insert(fl: seq<Block>, b: Block): seq<Block>
  {
    var k := Place(fl, b.addr);
    fl[..k] + [b] + fl[k..]
  }

  /**
   * Inserting an allocated block keeps the arena invariants, with the block
   * now free: the list stays ordered, and it is coalesced everywhere except on
   * either side of the new entry.
   */
  lemma InsertLayout(fl: seq<Block>, alloc: set<Block>, b: Block, hs: nat, arena: int)
    requires hs > 0 && Layout(fl, alloc, hs, arena) && Coalesced(fl, hs) && b in alloc
    ensures Insert(fl, b)[Place(fl, b.addr)] == b
    ensures multiset(Insert(fl, b)) == multiset(fl) + multiset{b}
    ensures Layout(Insert(fl, b), alloc - {b}, hs, arena)
    ensures CoalescedExcept(Insert(fl, b), Place(fl, b.addr), hs)
  {
    var k, fl' := Place(fl, b.addr), Insert(fl, b);
    assert fl == fl[..k] + fl[k..];
    InsertShape(fl, b);
    InsertOrdered(fl, b, hs);
    InsertApart(fl, b, hs);
    forall i | 0 <= i < |fl'|
      ensures Within(fl'[i], hs, arena) && forall a :: a in alloc - {b} ==> Disjoint(a, fl'[i], hs)
    {
      if i < k { assert fl'[i] == fl[i]; }
      else if i > k { assert fl'[i] == fl[i - 1]; }
    }
  }

  /** Where the entries of `fl` and `b` sit in `Insert(fl, b)`. */
  lemma InsertShape(fl: seq<Block>, b: Block)
    ensures var k, fl' := Place(fl, b.addr), Insert(fl, b);
            && |fl'| == |fl| + 1 && fl'[k] == b
            && (forall i :: 0 <= i < k ==> fl'[i] == fl[i])
            && (forall i :: k < i < |fl'| ==> fl'[i] == fl[i - 1])
  {
  }

  /**
   * The fit test compares a request, header included, with a payload size. A
   * block taken on a split has a payload exactly `hs` bytes short of the
   * request it was carved for, so once it is back in the list, and unless a
   * merge enlarges it, it is never the first fit for that request again.
   */
  lemma TakenNoRefit(fl: seq<Block>, b: Block, req: int, hs: nat)
    requires hs > 0 && hs <= req <= b.size && Splits(b, req, hs)
    ensures Taken(b, req, hs).size + hs == req
    ensures FirstFit(Insert(fl, Taken(b, req, hs)), req) != Place(fl, b.addr)
  {
  }

  /** Moving an allocated block to the free list keeps every block aligned. */
  lemma InsertAligned(fl: seq<Block>, alloc: set<Block>, b: Block, al: nat)
    requires al > 0 && Aligned(fl, alloc, al) && b in alloc
    ensures Aligned(Insert(fl, b), alloc - {b}, al)
  {
    var k, fl' := Place(fl, b.addr), Insert(fl, b);
    InsertShape(fl, b);
    forall i | 0 <= i < |fl'| ensures AlignedBlock(fl'[i], al) {
      if i < k { assert AlignedBlock(fl[i], al); }
      else if i > k { assert AlignedBlock(fl[i - 1], al); }
    }
  }

  /** Inserting a block that overlaps no entry keeps the list ordered. */
  lemma InsertOrdered(fl: seq<Block>, b: Block, hs: nat)
    requires hs > 0 && Ordered(fl, hs)
    requires forall i :: 0 <= i < |fl| ==> Disjoint(b, fl[i], hs)
    ensures Ordered(Insert(fl, b), hs)
  {
    var k, fl' := Place(fl, b.addr), Insert(fl, b);
    InsertShape(fl, b);
    forall i, j | 0 <= i < j < |fl'| ensures End(fl'[i], hs) <= fl'[j].addr {
      if i == k {
        assert Disjoint(b, fl[j - 1], hs);
        if j - 1 > k { assert End(fl[k], hs) <= fl[j - 1].addr; }
      } else if j == k {
        assert Disjoint(b, fl[i], hs);
      } else {
        var i0, j0 := if i < k then i else i - 1, if j < k then j else j - 1;
        assert fl'[i] == fl[i0] && fl'[j] == fl[j0];
      }
    }
  }

  /** Inserting keeps the list coalesced away from the new entry. */
  lemma InsertApart(fl: seq<Block>, b: Block, hs: nat)
    requires Coalesced(fl, hs)
    ensures CoalescedExcept(Insert(fl, b), Place(fl, b.addr), hs)
  {
    var k, fl' := Place(fl, b.addr), Insert(fl, b);
    InsertShape(fl, b);
    forall i | 0 < i < |fl'| && i != k && i != k + 1 ensures Apart(fl', i, hs) {
      if i < k { assert Apart(fl, i, hs); }
      else { assert Apart(fl, i - 1, hs); }
    }
  }

  /** The bytes an insertion frees are exactly the footprint of the inserted block. */
  lemma InsertCovers(fl: seq<Block>, b: Block, hs: nat, x: int)
    ensures Covers(Insert(fl, b), x, hs) <==> Covers(fl, x, hs) || InBlock(b, x, hs)
  {
    var k, fl' := Place(fl, b.addr), Insert(fl, b);
    if Covers(fl', x, hs) {
      var i :| 0 <= i < |fl'| && InBlock(fl'[i], x, hs);
      if i < k { assert fl'[i] == fl[i]; }
      else if i > k { assert fl'[i] == fl[i - 1]; }
    }
    if Covers(fl, x, hs) {
      var i :| 0 <= i < |fl| && InBlock(fl[i], x, hs);
      if i < k { assert fl'[i] == fl[i]; }
      else { assert fl'[i + 1] == fl[i]; }
    }
    if InBlock(b, x, hs) {
      assert fl'[k] == b;
    }
  }

  // --------------------------------------------------------------- coalesce

  /** The list successor of entry `k` starts where entry `k` ends. */
  predicate SuccAdjacent(fl: seq<Block>, k: int, hs: nat)
    requires 0 <= k < |fl|
  {
    k + 1 < |fl| && End(fl[k], hs) == fl[k + 1].addr
  }

  /** Entry `k` starts where its list predecessor ends. */
  predicate PredAdjacent(fl: seq<Block>, k: int, hs: nat)
    requires 0 <= k < |fl|
  {
    0 < k && End(fl[k - 1], hs) == fl[k].addr
  }

  /**
   * With the list coalesced except around entry `k`, it is coalesced exactly
   * when neither list neighbour of `k` is also its memory neighbour, so the
   * two adjacency tests decide whether there is anything to merge.
   */
  lemma NeedsMerge(fl: seq<Block>, k: int, hs: nat)
    requires 0 <= k < |fl| && CoalescedExcept(fl, k, hs)
    ensures Coalesced(fl, hs) <==> !SuccAdjacent(fl, k, hs) && !PredAdjacent(fl, k, hs)
  {
    if Coalesced(fl, hs) {
      if k + 1 < |fl| { assert Apart(fl, k + 1, hs); }
      if 0 < k { assert Apart(fl, k, hs); }
    }
  }

  /**
   * The free list after coalescing entry `k` with its list neighbours that are
   * also its memory neighbours: an absorbed block's footprint, header included,
   * is added to the size of the block that absorbs it, and it leaves the list.
   */
  function Merge(fl: seq<Block>, k: int, hs: nat): (fl': seq<Block>)
    requires 0 <= k < |fl|
    ensures |fl'| == |fl| - (if SuccAdjacent(fl, k, hs) then 1 else 0) - (if PredAdjacent(fl, k, hs) then 1 else 0)
  {
    var b := fl[k];
    var suc, pred := SuccAdjacent(fl, k, hs), PredAdjacent(fl, k, hs);
    if !suc && !pred then fl
    else if suc && !pred then
      fl[..k] + [Block(b.addr, b.size + hs + fl[k + 1].size)] + fl[k + 2..]
    else if !suc && pred then
      fl[..k - 1] + [Block(fl[k - 1].addr, fl[k - 1].size + hs + b.size)] + fl[k + 1..]
    else
      fl[..k - 1] + [Block(fl[k - 1].addr, fl[k - 1].size + hs + b.size + hs + fl[k + 1].size)] + fl[k + 2..]
  }

  /**
   * Coalescing around the entry that was just inserted keeps the arena
   * invariants and makes the whole list coalesced again.
   */
  lemma MergeLayout(fl: seq<Block>, alloc: set<Block>, k: int, hs: nat, arena: int)
    requires hs > 0 && Layout(fl, alloc, hs, arena) && 0 <= k < |fl| && CoalescedExcept(fl, k, hs)
    ensures Layout(Merge(fl, k, hs), alloc, hs, arena)
    ensures Coalesced(Merge(fl, k, hs), hs)
  {
    var suc, pred := SuccAdjacent(fl, k, hs), PredAdjacent(fl, k, hs);
    if !suc && !pred {
      forall i | 0 < i < |fl| ensures Apart(fl, i, hs) {
        if i != k && i != k + 1 { assert CoalescedExcept(fl, k, hs); }
      }
    } else {
      // entries lo..hi of fl become the one entry lo of the merged list
      var lo, hi := if pred then k - 1 else k, if suc then k + 1 else k;
      MergeFused(fl, k, hs);
      MergeRun(fl, k, lo, hi, hs);
      FuseOrdered(fl, Merge(fl, k, hs), lo, hi, hs);
      FuseCoalesced(fl, Merge(fl, k, hs), lo, hi, hs);
      FusePlaced(fl, Merge(fl, k, hs), alloc, lo, hi, hs, arena);
    }
  }

  /**
   * The run a merge fuses follows itself in memory, and the entries just
   * outside it are apart from it.
   */
  lemma MergeRun(fl: seq<Block>, k: int, lo: int, hi: int, hs: nat)
    requires 0 <= k < |fl| && CoalescedExcept(fl, k, hs)
    requires lo == (if PredAdjacent(fl, k, hs) then k - 1 else k)
    requires hi == (if SuccAdjacent(fl, k, hs) then k + 1 else k)
    ensures forall i :: lo <= i < hi ==> End(fl[i], hs) == fl[i + 1].addr
    ensures forall i :: 0 < i < |fl| && (i <= lo || hi < i) ==> Apart(fl, i, hs)
  {
  }

  /**
   * The shape of a merge: `fl'` is `fl` with the entries `lo..hi` replaced by
   * one block that spans from the start of entry `lo` to the end of entry `hi`.
   */
  predicate Fused(fl: seq<Block>, fl': seq<Block>, lo: int, hi: int, hs: nat)
  {
    && 0 <= lo <= hi < |fl|
    && |fl'| == |fl| - (hi - lo)
    && fl'[lo].addr == fl[lo].addr && End(fl'[lo], hs) == End(fl[hi], hs)
    && (forall i :: 0 <= i < lo ==> fl'[i] == fl[i])
    && (forall i :: lo < i < |fl'| ==> fl'[i] == fl[i + (hi - lo)])
  }

  /** Merge in the shape of `Fused`. */
  lemma MergeFused(fl: seq<Block>, k: int, hs: nat)
    requires 0 <= k < |fl| && (SuccAdjacent(fl, k, hs) || PredAdjacent(fl, k, hs))
    ensures SuccAdjacent(fl, k, hs) && !PredAdjacent(fl, k, hs) ==> Fused(fl, Merge(fl, k, hs), k, k + 1, hs)
    ensures !SuccAdjacent(fl, k, hs) && PredAdjacent(fl, k, hs) ==> Fused(fl, Merge(fl, k, hs), k - 1, k, hs)
    ensures SuccAdjacent(fl, k, hs) && PredAdjacent(fl, k, hs) ==> Fused(fl, Merge(fl, k, hs), k - 1, k + 1, hs)
  {
    var b := fl[k];
    var suc, pred := SuccAdjacent(fl, k, hs), PredAdjacent(fl, k, hs);
    if suc && !pred {
      var m := Block(b.addr, b.size + hs + fl[k + 1].size);
      assert Merge(fl, k, hs) == fl[..k] + [m] + fl[k + 2..];
      SpliceFused(fl, k, k + 1, m, hs);
    } else if !suc && pred {
      var m := Block(fl[k - 1].addr, fl[k - 1].size + hs + b.size);
      assert Merge(fl, k, hs) == fl[..k - 1] + [m] + fl[k + 1..];
      SpliceFused(fl, k - 1, k, m, hs);
    } else if suc && pred {
      var m := Block(fl[k - 1].addr, fl[k - 1].size + hs + b.size + hs + fl[k + 1].size);
      assert Merge(fl, k, hs) == fl[..k - 1] + [m] + fl[k + 2..];
      SpliceFused(fl, k - 1, k + 1, m, hs);
    }
  }

  /**
   * Merge as a splice: the run `lo..hi` it fuses around entry `k`, replaced by
   * one block spanning it.
   */
  lemma MergeSplice(fl: seq<Block>, k: int, hs: nat, lo: int, hi: int, m: Block)
    requires 0 <= k < |fl| && (SuccAdjacent(fl, k, hs) || PredAdjacent(fl, k, hs))
    requires lo == (if PredAdjacent(fl, k, hs) then k - 1 else k) && hi == (if SuccAdjacent(fl, k, hs) then k + 1 else k)
    requires m.addr == fl[lo].addr && End(m, hs) == End(fl[hi], hs)
    ensures Merge(fl, k, hs) == fl[..lo] + [m] + fl[hi + 1..]
  {
  }

  /** Replacing the run `lo..hi` by a block spanning it is a fusion. */
  lemma SpliceFused(fl: seq<Block>, lo: int, hi: int, b: Block, hs: nat)
    requires 0 <= lo <= hi < |fl| && b.addr == fl[lo].addr && End(b, hs) == End(fl[hi], hs)
    ensures Fused(fl, fl[..lo] + [b] + fl[hi + 1..], lo, hi, hs)
  {
  }

  /** Fusing consecutive entries of an ordered list keeps it ordered. */
  lemma FuseOrdered(fl: seq<Block>, fl': seq<Block>, lo: int, hi: int, hs: nat)
    requires Ordered(fl, hs) && Fused(fl, fl', lo, hi, hs)
    ensures Ordered(fl', hs)
  {
    var n := hi - lo;
    forall i, j | 0 <= i < j < |fl'| ensures End(fl'[i], hs) <= fl'[j].addr {
      if j == lo { assert End(fl[i], hs) <= fl[lo].addr; }
      else if i == lo {
        assert fl'[j] == fl[j + n];
        assert End(fl[hi], hs) <= fl[j + n].addr;
      }
      else {
        var i0, j0 := if i < lo then i else i + n, if j < lo then j else j + n;
        assert fl'[i] == fl[i0] && fl'[j] == fl[j0];
      }
    }
  }

  /** Fusing keeps every pair of list neighbours apart that was apart around the fused run. */
  lemma FuseCoalesced(fl: seq<Block>, fl': seq<Block>, lo: int, hi: int, hs: nat)
    requires Fused(fl, fl', lo, hi, hs)
    requires forall i :: 0 < i < |fl| && (i <= lo || hi < i) ==> Apart(fl, i, hs)
    ensures Coalesced(fl', hs)
  {
    var n := hi - lo;
    forall i | 0 < i < |fl'| ensures Apart(fl', i, hs) {
      if i <= lo {
        assert Apart(fl, i, hs);
      } else {
        assert Apart(fl, i + n, hs);
        if i > lo + 1 { assert fl'[i - 1] == fl[i - 1 + n]; }
      }
    }
  }

  /**
   * A block fused from at most three entries that follow each other in memory
   * overlaps no allocated block that none of its parts overlapped.
   */
  lemma FusePlaced(fl: seq<Block>, fl': seq<Block>, alloc: set<Block>, lo: int, hi: int, hs: nat, arena: int)
    requires hs > 0 && Layout(fl, alloc, hs, arena) && Fused(fl, fl', lo, hi, hs) && hi <= lo + 2
    requires forall i :: lo <= i < hi ==> End(fl[i], hs) == fl[i + 1].addr
    ensures Placed(fl', alloc, hs, arena)
  {
    var n, mid := hi - lo, if hi > lo then lo + 1 else lo;
    forall i | 0 <= i < |fl'|
      ensures Within(fl'[i], hs, arena) && forall a :: a in alloc ==> Disjoint(a, fl'[i], hs)
    {
      if i == lo {
        assert Within(fl[lo], hs, arena) && Within(fl[hi], hs, arena);
        forall a | a in alloc ensures Disjoint(a, fl'[i], hs) {
          assert Disjoint(a, fl[lo], hs) && Disjoint(a, fl[mid], hs) && Disjoint(a, fl[hi], hs);
        }
      } else if i > lo {
        assert fl'[i] == fl[i + n];
      }
    }
  }

  /**
   * With an aligned header size, coalescing keeps every block aligned: the
   * fused block starts where an aligned entry did, and its payload adds whole
   * headers and payloads.
   */
  lemma MergeAligned(fl: seq<Block>, alloc: set<Block>, k: int, hs: nat, al: nat)
    requires al > 0 && Aligned(fl, alloc, al) && hs % al == 0 && 0 <= k < |fl|
    ensures Aligned(Merge(fl, k, hs), alloc, al)
  {
    var suc, pred := SuccAdjacent(fl, k, hs), PredAdjacent(fl, k, hs);
    if suc || pred {
      var lo, hi := if pred then k - 1 else k, if suc then k + 1 else k;
      var fl' := Merge(fl, k, hs);
      MergeFused(fl, k, hs);
      assert AlignedBlock(fl[lo], al) && AlignedBlock(fl[hi], al);
      MultipleAdd(fl[hi].addr, fl[hi].size, al);
      MultipleAdd(fl[hi].addr + fl[hi].size, fl[lo].addr, al);
      assert fl'[lo].size == fl[hi].addr + fl[hi].size - fl[lo].addr;
      forall i | 0 <= i < |fl'| ensures AlignedBlock(fl'[i], al) {
        if i < lo { assert AlignedBlock(fl[i], al); }
        else if i > lo { assert AlignedBlock(fl[i + (hi - lo)], al); }
      }
    }
  }

  /** Coalescing neither frees nor takes any byte: the covered bytes are the same. */
  lemma MergeCovers(fl: seq<Block>, k: int, hs: nat, x: int)
    requires 0 <= k < |fl|
    ensures Covers(Merge(fl, k, hs), x, hs) <==> Covers(fl, x, hs)
  {
    if Covers(Merge(fl, k, hs), x, hs) {
      var i :| 0 <= i < |Merge(fl, k, hs)| && InBlock(Merge(fl, k, hs)[i], x, hs);
      MergedFrom(fl, k, hs, i, x);
    }
    if Covers(fl, x, hs) {
      var i :| 0 <= i < |fl| && InBlock(fl[i], x, hs);
      MergedInto(fl, k, hs, i, x);
    }
  }

  /** A byte in entry `i` of the merged list lies in some entry of the original. */
  lemma MergedFrom(fl: seq<Block>, k: int, hs: nat, i: int, x: int)
    requires 0 <= k < |fl| && 0 <= i < |Merge(fl, k, hs)| && InBlock(Merge(fl, k, hs)[i], x, hs)
    ensures Covers(fl, x, hs)
  {
    var suc, pred := SuccAdjacent(fl, k, hs), PredAdjacent(fl, k, hs);
    var fl' := Merge(fl, k, hs);
    if suc || pred {
      var lo, hi := if pred then k - 1 else k, if suc then k + 1 else k;
      assert fl'[lo].addr == fl[lo].addr && End(fl'[lo], hs) == End(fl[hi], hs);
      if i < lo { assert fl'[i] == fl[i]; }
      else if i > lo { assert fl'[i] == fl[i + hi - lo]; }
      else if x < End(fl[lo], hs) { assert InBlock(fl[lo], x, hs); }
      else if x < End(fl[k], hs) { assert InBlock(fl[k], x, hs); }
      else { assert InBlock(fl[hi], x, hs); }
    } else {
      assert InBlock(fl[i], x, hs);
    }
  }

  /** A byte in entry `i` of the original list lies in some entry of the merged one. */
  lemma MergedInto(fl: seq<Block>, k: int, hs: nat, i: int, x: int)
    requires 0 <= k < |fl| && 0 <= i < |fl| && InBlock(fl[i], x, hs)
    ensures Covers(Merge(fl, k, hs), x, hs)
  {
    var suc, pred := SuccAdjacent(fl, k, hs), PredAdjacent(fl, k, hs);
    var fl' := Merge(fl, k, hs);
    if suc || pred {
      var lo, hi := if pred then k - 1 else k, if suc then k + 1 else k;
      assert fl'[lo].addr == fl[lo].addr && End(fl'[lo], hs) == End(fl[hi], hs);
      if i < lo { assert fl'[i] == fl[i]; }
      else if i > hi { assert fl'[i - (hi - lo)] == fl[i]; }
      else {
        assert fl[lo].addr <= fl[i].addr && End(fl[i], hs) <= End(fl[hi], hs);
        assert InBlock(fl'[lo], x, hs);
      }
    } else {
      assert InBlock(fl'[i], x, hs);
    }
  }
}
