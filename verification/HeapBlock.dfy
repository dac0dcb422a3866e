/**
  The chunk list of one block: placing a chunk (cases 2 to 4 of malloc) and unlinking one.
 */
module HeapBlock {
  import opened HeapLayout

  ghost function At(s: seq<Minor>, k: int): Minor? {
    if 0 <= k < |s| then s[k] else null
  }

  ghost predicate Linked(s: seq<Minor>)
    reads s`prev, s`next
  {
    forall j {:trigger s[j].prev} {:trigger s[j].next} :: 0 <= j < |s| ==>
      s[j].prev == At(s, j - 1) && s[j].next == At(s, j + 1)
  }

  /** `s` is the chunk list of `m`: order, links both ways, usage, and intact headers. */
  ghost predicate BlockOk(m: Major, s: seq<Minor>)
    reads m`first, m`usage, s
  {
    && Placed(m, s)
    && Linked(s)
    && m.first == At(s, 0)
    && m.usage == HEADER + Weight(s, HEADER)
    && forall c :: c in s ==> c.magic == MAGIC && c.reqSize + PADDING <= c.size
  }

  /** A chunk answers for fewer bytes; its block and all others stay in order. */
  method AnswerFor(c: Minor, n: nat, ghost chunks: map<Major, seq<Minor>>)
    requires n <= c.reqSize && forall m :: m in chunks ==> BlockOk(m, chunks[m])
    modifies c`reqSize
    ensures c.reqSize == n && forall m :: m in chunks ==> BlockOk(m, chunks[m])
  {
    hide Placed, Weight;
    c.reqSize := n;
    forall m | m in chunks ensures BlockOk(m, chunks[m]) {
      assert old(BlockOk(m, chunks[m]));
    }
  }

  lemma BlockHas(m: Major, s: seq<Minor>, c: Minor)
    requires BlockOk(m, s) && c in s
    ensures Placed(m, s) && c.block == m
    ensures c.magic == MAGIC && c.reqSize + PADDING <= c.size
  {
  }

  /** `a` is the lowest address of the block with `n` contiguous free bytes. */
  ghost predicate FirstFit(m: Major, s: seq<Minor>, a: nat, n: nat) {
    FreeAt(m, s, a, n) && forall b :: FreeAt(m, s, b, n) ==> a <= b
  }

  /** When every gap before position j is too small, a free range starts no lower than the end
      of the chunk before j. */
  lemma EarlierGapsSmall(m: Major, s: seq<Minor>, j: nat, n: nat, b: nat)
    requires n > 0 && 0 < j <= |s| && Placed(m, s) && FreeAt(m, s, b, n)
    requires s[0].addr - (m.addr + HEADER) < n
    requires forall i {:trigger End(s[i])} :: 0 <= i < j - 1 ==> s[i + 1].addr - End(s[i]) < n
    ensures End(s[j - 1]) <= b
  {
    var k := Split(s, b, n);
    if 0 < k < |s| {
      assert s[k].addr - End(s[k - 1]) >= n;
    }
    if j < k {
      assert End(s[j - 1]) <= s[k - 1].addr;
    }
  }

  lemma FirstFitFree(m: Major, s: seq<Minor>, a: nat, n: nat)
    requires FirstFit(m, s, a, n)
    ensures FreeAt(m, s, a, n)
  {
  }

  lemma FrontIsFirst(m: Major, s: seq<Minor>, n: nat)
    requires FreeAt(m, s, m.addr + HEADER, n)
    ensures FirstFit(m, s, m.addr + HEADER, n)
  {
  }

  lemma FirstFitAfter(m: Major, s: seq<Minor>, j: nat, n: nat, a: nat)
    requires n > 0 && 0 < j <= |s| && Placed(m, s) && FreeAt(m, s, a, n) && a == End(s[j - 1])
    requires s[0].addr - (m.addr + HEADER) < n
    requires forall i {:trigger End(s[i])} :: 0 <= i < j - 1 ==> s[i + 1].addr - End(s[i]) < n
    ensures FirstFit(m, s, a, n)
  {
    forall b: nat | FreeAt(m, s, b, n) ensures a <= b {
      EarlierGapsSmall(m, s, j, n, b);
    }
  }

  lemma InsertLinked(s: seq<Minor>, j: nat, c: Minor)
    requires j <= |s| && c.prev == At(s, j - 1) && c.next == At(s, j)
    requires forall k {:trigger s[k].prev} {:trigger s[k].next} :: 0 <= k < |s| ==>
      && s[k].prev == (if k == j then c else At(s, k - 1))
      && s[k].next == (if k == j - 1 then c else At(s, k + 1))
    ensures Linked(InsertAt(s, j, c))
  {
    InsertAtIndex(s, j, c);
  }

  /** A block whose links, first and usage have been updated for a chunk put in at position j. */
  lemma BlockInsert(m: Major, s: seq<Minor>, j: nat, c: Minor)
    requires Placed(m, s) && j <= |s| && c.block == m
    requires (if j == 0 then m.addr + HEADER else End(s[j - 1])) == c.addr
    requires End(c) <= if j < |s| then s[j].addr else MajorEnd(m)
    requires c.prev == At(s, j - 1) && c.next == At(s, j)
    requires forall k {:trigger s[k].prev} {:trigger s[k].next} :: 0 <= k < |s| ==>
      && s[k].prev == (if k == j then c else At(s, k - 1))
      && s[k].next == (if k == j - 1 then c else At(s, k + 1))
    requires m.first == (if j == 0 then c else At(s, 0))
    requires m.usage == HEADER + Weight(s, HEADER) + c.size + HEADER
    requires forall d :: d in s ==> d.magic == MAGIC && d.reqSize + PADDING <= d.size
    requires c.magic == MAGIC && c.reqSize + PADDING <= c.size
    ensures BlockOk(m, InsertAt(s, j, c)) && FreeAt(m, s, c.addr, c.size + HEADER)
  {
    hide Placed, Weight, InsertAt;
    PlacedFacts(m, s);
    PlacedInsert(m, s, j, c);
    InsertLinked(s, j, c);
    WeightInsert(s, j, c, HEADER);
    InsertAtIndex(s, j, c);
  }

  /** Cases 2 and 3: a chunk right behind the block header. */
  method LinkFront(maj: Major, ghost s: seq<Minor>, size: nat, reqSize: nat) returns (c: Minor)
    requires BlockOk(maj, s) && reqSize + PADDING <= size
    requires maj.addr + HEADER + HEADER + size <= if s == [] then MajorEnd(maj) else s[0].addr
    modifies maj`first, maj`usage, s`prev, s`next
    ensures fresh(c) && c.addr == maj.addr + HEADER && c.block == maj && c.size == size && c.reqSize == reqSize
      && c.magic == MAGIC
    ensures BlockOk(maj, InsertAt(s, 0, c)) && FreeAt(maj, s, c.addr, size + HEADER)
  {
    hide Placed, Weight, InsertAt, FreeAt;
    PlacedFacts(maj, s);
    c := new Minor(maj.addr + HEADER, maj, size, reqSize, null, maj.first);
    if maj.first != null {
      maj.first.prev := c;
    }
    maj.first := c;
    maj.usage := maj.usage + size + HEADER;
    BlockInsert(maj, s, 0, c);
  }

  /** Case 4.1: a chunk behind the last one. */
  method LinkBehind(maj: Major, min: Minor, ghost s: seq<Minor>, size: nat, reqSize: nat) returns (c: Minor)
    requires BlockOk(maj, s) && s != [] && min == s[|s| - 1] && reqSize + PADDING <= size
    requires End(min) + size + HEADER <= MajorEnd(maj)
    modifies maj`usage, min`next
    ensures fresh(c) && c.addr == End(min) && c.block == maj && c.size == size && c.reqSize == reqSize
      && c.magic == MAGIC
    ensures BlockOk(maj, InsertAt(s, |s|, c)) && FreeAt(maj, s, c.addr, size + HEADER)
  {
    hide Placed, Weight, InsertAt, FreeAt;
    PlacedFacts(maj, s);
    c := new Minor(min.addr + HEADER + min.size, maj, size, reqSize, min, null);
    min.next := c;
    maj.usage := maj.usage + size + HEADER;
    BlockInsert(maj, s, |s|, c);
  }

  /** Case 4.2: a chunk between two neighbours. */
  method LinkBetween(maj: Major, min: Minor, ghost s: seq<Minor>, ghost j: nat, size: nat, reqSize: nat)
    returns (c: Minor)
    requires BlockOk(maj, s) && 0 < j < |s| && min == s[j - 1] && reqSize + PADDING <= size
    requires End(min) + size + HEADER <= s[j].addr
    modifies maj`usage, min`next, {s[j]}`prev
    ensures fresh(c) && c.addr == End(min) && c.block == maj && c.size == size && c.reqSize == reqSize
      && c.magic == MAGIC
    ensures BlockOk(maj, InsertAt(s, j, c)) && FreeAt(maj, s, c.addr, size + HEADER)
  {
    hide Placed, Weight, InsertAt, FreeAt;
    PlacedFacts(maj, s);
    assert min.next == s[j];
    c := new Minor(min.addr + HEADER + min.size, maj, size, reqSize, min, min.next);
    min.next.prev := c;
    min.next := c;
    maj.usage := maj.usage + size + HEADER;
    BlockInsert(maj, s, j, c);
  }

  /** Case 4, the search: the first chunk of the block with a large enough gap behind it. */
  method FindGap(maj: Major, ghost s: seq<Minor>, size: nat) returns (min: Minor?, ghost j: nat)
    requires BlockOk(maj, s) && s != [] && s[0].addr - (maj.addr + HEADER) < size + HEADER
    ensures min == null ==> NoRoom(maj, s, size + HEADER)
    ensures min != null ==>
      && 0 < j <= |s| && min == s[j - 1]
      && End(min) + size + HEADER <= (if j == |s| then MajorEnd(maj) else s[j].addr)
      && forall i {:trigger End(s[i])} :: 0 <= i < j - 1 ==> s[i + 1].addr - End(s[i]) < size + HEADER
  {
    hide Placed, Weight, NoRoom;
    ghost var need := size + HEADER;
    min := maj.first;
    j := 1;
    while min != null
      invariant 1 <= j <= |s| + 1
      invariant min == At(s, j - 1)
      invariant forall k {:trigger End(s[k])} :: 0 <= k < j - 1 && k < |s| - 1 ==> s[k + 1].addr - End(s[k]) < need
      invariant j == |s| + 1 ==> MajorEnd(maj) - End(s[|s| - 1]) < need
      decreases |s| + 1 - j
    {
      if min.next == null {
        // Case 4.1: the rest of the block.
        if maj.addr + maj.size - min.addr - HEADER - min.size >= size + HEADER {
          return;
        }
      }
      if min.next != null {
        // Case 4.2: between two chunks.
        if min.next.addr - min.addr - HEADER - min.size >= size + HEADER {
          return;
        }
      }
      min := min.next;
      j := j + 1;
    }
    GapsComplete(maj, s, need);
  }

  /** Cases 2, 3 and 4 of malloc for one block: put a chunk into the first gap that holds it. */
  method TryBlock(maj: Major, ghost s: seq<Minor>, size: nat, reqSize: nat) returns (c: Minor?, ghost j: nat)
    requires BlockOk(maj, s)
    requires reqSize + PADDING <= size
    requires s == [] ==> HEADER + HEADER + size <= maj.size
    modifies maj`first, maj`usage, s`prev, s`next
    ensures c == null ==> unchanged(maj) && unchanged(s) && NoRoom(maj, s, size + HEADER)
    ensures c != null ==>
      && fresh(c) && c.block == maj && c.size == size && c.reqSize == reqSize && c.magic == MAGIC
      && FirstFit(maj, s, c.addr, size + HEADER)
      && j <= |s| && BlockOk(maj, InsertAt(s, j, c))
  {
    hide Placed, Weight, InsertAt, FreeAt;
    if maj.first == null || maj.first.addr - maj.addr - HEADER >= size + HEADER {
      j := 0;
      c := LinkFront(maj, s, size, reqSize);
      FrontIsFirst(maj, s, size + HEADER);
      return;
    }
    var min;
    min, j := FindGap(maj, s, size);
    if min == null {
      c := null;
    } else {
      if min.next == null {
        c := LinkBehind(maj, min, s, size, reqSize);
      } else {
        c := LinkBetween(maj, min, s, j, size, reqSize);
      }
      FirstFitAfter(maj, s, j, size + HEADER, c.addr);
    }
  }

  lemma UnlinkLinked(s: seq<Minor>, j: nat)
    requires j < |s|
    requires forall k {:trigger s[k].prev} {:trigger s[k].next} :: 0 <= k < |s| && k != j ==>
      && s[k].prev == At(s, if k == j + 1 then j - 1 else k - 1)
      && s[k].next == At(s, if k == j - 1 then j + 1 else k + 1)
    ensures Linked(RemoveAt<Minor>(s, j))
  {
    RemoveAtIndex<Minor>(s, j);
  }

  /** The pointer writes of free: the neighbours of the chunk at position j meet. */
  method Bypass(maj: Major, min: Minor, ghost s: seq<Minor>, ghost j: nat)
    requires j < |s| && s[j] == min && Linked(s) && maj.first == At(s, 0)
    requires forall i, k :: 0 <= i < k < |s| ==> s[i] != s[k]
    modifies maj`first, s`prev, s`next
    ensures Linked(RemoveAt<Minor>(s, j)) && maj.first == At(RemoveAt<Minor>(s, j), 0)
  {
    if min.next != null { min.next.prev := min.prev; }
    if min.prev != null { min.prev.next := min.next; }
    if min.prev == null { maj.first := min.next; }
    UnlinkLinked(s, j);
    assert maj.first == At(RemoveAt<Minor>(s, j), 0) by { RemoveAtIndex<Minor>(s, j); }
  }

  /** The unlinking half of free: take the chunk at position j out of its block. */
  method Unlink(min: Minor, ghost s: seq<Minor>, ghost j: nat)
    requires j < |s| && s[j] == min && BlockOk(min.block, s)
    modifies min.block`first, min.block`usage, min`magic, s`prev, s`next
    ensures BlockOk(min.block, RemoveAt<Minor>(s, j))
    ensures min.magic == DEAD
  {
    hide Placed, Weight, RemoveAt;
    var maj := min.block;
    PlacedFacts(maj, s);
    assert maj.usage - (min.size + HEADER) == HEADER + Weight(RemoveAt<Minor>(s, j), HEADER) by {
      WeightRemove(s, j, HEADER);
    }
    maj.usage := maj.usage - (min.size + HEADER);
    min.magic := DEAD;
    Bypass(maj, min, s, j);
    PlacedRemove(maj, s, j);
    RemovedGone<Minor>(s, j);
  }
}
