/**
  The kernel heap: malloc, free and realloc over a doubly linked list of page blocks.

  `books.view` is what a client sees: the byte sequence behind each pointer it holds. Every
  operation is specified by what it does to the view, to the chunk lists and to the pages held.
 */
module Heap {
  import opened AddressSpace
  import opened HeapLayout
  import opened HeapBlock
  import opened HeapBooks

  class Heap {
    const mem: array<byte>
    var memRoot: Major?
    var bestBet: Major?
    var allocatedBytes: nat
    var inUseBytes: nat
    var warnings: nat
    var errors: nat
    var overruns: nat
    var headers: map<nat, Minor>             // the minor header last written at an address

    ghost var books: Books

    /** Everything that holds between any two steps, except for the chunk list of `skip`. */
    ghost predicate CoreBut(skip: Major?)
      reads this, mem, books.majors, headers.Values
    {
      Consistent(mem, memRoot, bestBet, allocatedBytes, inUseBytes, headers, books, skip)
    }

    ghost predicate Valid()
      reads this, mem, books.majors, headers.Values
    {
      CoreBut(null) && forall m :: m in books.chunks ==> books.chunks[m] != []
    }

    /** The heap before its first use. */
    constructor (mem: array<byte>)
      requires mem.Length == SPACE
      ensures Valid() && this.mem == mem && books == Books([], map[], map[], map[], map[]) && headers == map[]
      ensures warnings == 0 && errors == 0 && overruns == 0
    {
      this.mem := mem;
      memRoot, bestBet, allocatedBytes, inUseBytes, warnings, errors, overruns := null, null, 0, 0, 0, 0, 0;
      headers, books := map[], Books([], map[], map[], map[], map[]);
    }

    /** Every payload is aligned, lies behind its own header and hidden byte inside its own chunk,
        and so inside its block, and meets no other chunk, header, hidden byte or payload. */
    lemma PayloadSafety(p: nat, q: nat)
      requires Valid() && p in books.view && q in books.view
      ensures var c := books.owner[p];
        && p % ALIGNMENT == 0
        && c.block in books.majors && c.block.addr + HEADER <= c.addr
        && c.addr + HEADER <= HiddenAt(c) < p <= p + |books.view[p]| <= End(c) <= MajorEnd(c.block)
      ensures p != q ==> End(books.owner[p]) <= books.owner[q].addr || End(books.owner[q]) <= books.owner[p].addr
    {
      hide Marks, Bytes, ChunksOk, OnLoan, MajorsLinked, Total, TotalSize, Shape, Owners;
      ViewKnown(p);
      ViewKnown(q);
      LiveReqSize(p);
      var c := books.owner[p];
      var k := LiveInBlock(books.majors, books.chunks, c);
      PayloadInside(c, c.reqSize);
      if p != q {
        ChunksDisjoint(books.majors, books.chunks, c, books.owner[q]);
      }
    }

    lemma LiveReqSize(p: nat)
      requires CoreBut(null) && p in books.view
      ensures books.owner[p].reqSize == |books.view[p]| && books.owner[p].reqSize + PADDING <= books.owner[p].size
    {
      hide Marks, Bytes, OnLoan, MajorsLinked, Total, TotalSize, Shape;
      OwnerLive(books.chunks, books.owner, headers, p);
      ChunksSplit(books, headers);
      var c := books.owner[p];
      BlockHas(c.block, books.chunks[c.block], c);
    }

    /** No leak: once every pointer has been freed, no block is left, both totals are zero and every
        page is back with the page hook. */
    lemma NoLeak()
      requires Valid() && books.view == map[]
      ensures books.majors == [] && memRoot == null && bestBet == null
      ensures inUseBytes == 0 && allocatedBytes == 0 && books.held == map[]
    {
      if books.majors != [] {
        var m := books.majors[0];
        ShapeHas(books.majors, books.chunks, m);
        assert books.chunks[m][0] in books.chunks[m];
        ChunkOwned(books.chunks, books.owner, headers, books.chunks[m][0]);
        assert false;
      }
      assert books.held.Keys == {};
    }

    /** The running totals: bytes of live chunks, and 4096 for each page on loan. */
    lemma Accounting()
      requires Valid()
      ensures inUseBytes == Total(books.majors, books.chunks, 0)
      ensures allocatedBytes == PAGE * TotalPages(books.majors)
      ensures forall m :: m in books.majors ==> m.addr in books.held && books.held[m.addr] == m.pages
      ensures forall a :: a in books.held ==> exists m :: m in books.majors && m.addr == a
    {
      forall m | m in books.majors ensures m.size == m.pages * PAGE {
        ShapeHas(books.majors, books.chunks, m);
      }
      SizeIsPages(books.majors);
    }

    /** Bring the books alone up to date. */
    ghost method Rebook(b: Books)
      requires Consistent(mem, memRoot, bestBet, allocatedBytes, inUseBytes, headers, b, null)
      modifies this`books
      ensures CoreBut(null) && books == b
    {
      hide Consistent;
      books := b;
    }

    /** Bring the total of live bytes, the headers and the books up to date with the lists. */
    method Enter(used: nat, hs: map<nat, Minor>, ghost b: Books)
      requires Consistent(mem, memRoot, bestBet, allocatedBytes, used, hs, b, null)
      modifies this`inUseBytes, this`headers, this`books
      ensures CoreBut(null) && inUseBytes == used && headers == hs && books == b
    {
      hide Consistent;
      inUseBytes, headers, books := used, hs, b;
    }

    /** ALIGN for a linked chunk: the pointer to hand out, with the distance left before it. */
    method AlignFor(c: Minor, ghost s: seq<Minor>) returns (p: nat)
      requires BlockOk(c.block, s)
      requires CoreBut(c.block) && PADDING <= c.size && End(c) <= SPACE
      requires forall q :: q in books.owner ==> End(c) <= books.owner[q].addr || End(books.owner[q]) <= c.addr
      modifies mem
      ensures CoreBut(c.block)
      ensures p == Ptr(c) && HiddenAt(c) < mem.Length == SPACE && mem[HiddenAt(c)] as int == Ptr(c) - (c.addr + HEADER)
      ensures BlockOk(c.block, s)
    {
      hide Shape, Owners, Marks, Bytes, ChunksOk, BlockOk, Total, TotalSize, OnLoan, MajorsLinked;
      PayloadInside(c, 0);
      p := c.addr + HEADER;
      var diff;
      p := p + ALIGN_INFO;
      diff := p % ALIGNMENT;
      if diff != 0 {
        diff := ALIGNMENT - diff;
        p := p + diff;
      }
      SetByte(mem, p - ALIGN_INFO, (diff + ALIGN_INFO) as byte, books.owner, books.view);
    }
  
    /** The common end of cases 2 to 4: account for the linked chunk and hand out its pointer. */
    method Adopt(c: Minor, ghost j: nat) returns (p: nat)
      requires CoreBut(c.block) && c.block in books.majors && c.block in books.chunks && j <= |books.chunks[c.block]|
      requires c !in headers.Values && c.magic == MAGIC
      requires BlockOk(c.block, InsertAt(books.chunks[c.block], j, c))
      requires FreeAt(c.block, books.chunks[c.block], c.addr, HEADER + c.size)
      modifies this`inUseBytes, this`headers, this`books, mem
      ensures CoreBut(null)
      ensures p == Ptr(c) && p !in old(books.view) && p in books.view && |books.view[p]| == c.reqSize
      ensures books == Entered(old(books), c, j, books.view[p])
      ensures headers == Surviving(old(headers), c)[c.addr := c]
      ensures inUseBytes == old(inUseBytes) + c.size
    {
      hide Consistent, FreeAt, InsertAt, BlockOk, Entered, Surviving;
      AdoptReady(mem, memRoot, bestBet, allocatedBytes, inUseBytes, headers, books, c, j);
      p := AlignFor(c, InsertAt(books.chunks[c.block], j, c));
      PayloadInside(c, c.reqSize);
      ghost var content := mem[p..p + c.reqSize];
      AdoptDone(mem, memRoot, bestBet, allocatedBytes, inUseBytes, headers, books, c, j, content);
      EnteredView(books, c, j, content);
      Enter(inUseBytes + c.size, Surviving(headers, c)[c.addr := c], Entered(books, c, j, content));
    }

    /** Ask the page hook for a block with room for `size` bytes; the hook answers `grant`. */
    method AllocateNewPage(size: nat, grant: nat) returns (maj: Major?)
      requires grant != 0 ==> grant !in books.held
      modifies this`warnings, this`allocatedBytes, this`books
      ensures grant == 0 ==>
        maj == null && warnings == old(warnings) + 1 && books == old(books) && allocatedBytes == old(allocatedBytes)
      ensures grant != 0 ==>
        && maj != null && fresh(maj) && maj.addr == grant && maj.pages == PagesFor(size) && maj.size == maj.pages * PAGE
        && maj.prev == null && maj.next == null && maj.first == null && maj.usage == HEADER
        && warnings == old(warnings) && allocatedBytes == old(allocatedBytes) + maj.size
        && books == old(books).(held := old(books).held[grant := maj.pages])
    {
      var st := (size + HEADER + HEADER) % SPACE;
      if st % PAGE == 0 {
        st := st / PAGE;
      } else {
        st := st / PAGE + 1;
      }
      if st < PAGE_COUNT {
        st := PAGE_COUNT;
      }
      if grant == 0 {
        warnings := warnings + 1;
        return null;
      }
      maj := new Major(grant, st);
      books := books.(held := books.held[grant := st]);
      allocatedBytes := allocatedBytes + maj.size;
    }

    /** Append a fresh block to the list, as the first one or behind `last`. */
    method Grow(last: Major?, size: nat, grant: nat) returns (maj: Major?)
      requires CoreBut(null) && last == MajorAt(books.majors, |books.majors| - 1)
      requires GrantOk(books.majors, grant, PagesFor(size))
      modifies this`memRoot, this`warnings, this`allocatedBytes, this`books, (if last == null then {} else {last})`next
      ensures CoreBut(null)
      ensures grant == 0 ==>
                maj == null && warnings == old(warnings) + 1 && books == old(books)
                && allocatedBytes == old(allocatedBytes)
      ensures grant != 0 ==>
        && maj != null && fresh(maj) && maj.addr == grant && maj.pages == PagesFor(size) && BlockFits(maj)
        && books == Appended(old(books), maj) && maj !in old(books).majors && warnings == old(warnings)
        && (if last == null then memRoot == maj else memRoot == old(memRoot) && last.next == maj)
    {
      hide Booked, MajorsLinked, GrantOk;
      ghost var b := books;
      BookedFacts(mem, bestBet, allocatedBytes, inUseBytes, headers, b, null);
      if grant != 0 {
        GrowReady(mem, bestBet, allocatedBytes, inUseBytes, headers, b, grant, PagesFor(size));
      }
      RootOf(memRoot, b.majors);
      maj := AllocateNewPage(size, grant);
      if maj == null {
        return;
      }
      assert BlockFits(maj) by { GrantFits(b.majors, maj); }
      if last == null {
        memRoot := maj;
        FirstLinked(maj);
      } else {
        LinkMajor(last, maj, memRoot, b.majors);
      }
      GrowDone(mem, memRoot, bestBet, old(allocatedBytes), inUseBytes, headers, b, maj);
      Rebook(Appended(b, maj));
    }

    /** Cases 2 to 4 for one block of the heap: place the chunk, or find that it does not fit. */
    method PlaceIn(maj: Major, size: nat, reqSize: nat) returns (p: nat, ghost c: Minor?, ghost j: nat)
      requires CoreBut(null) && maj in books.majors && maj in books.chunks
      requires reqSize + PADDING <= size
      requires books.chunks[maj] == [] ==> HEADER + HEADER + size <= maj.size
      modifies this`inUseBytes, this`headers, this`books, mem, maj`first, maj`usage, headers.Values`prev,
               headers.Values`next
      ensures CoreBut(null)
      ensures p == 0 ==>
        && NoRoom(maj, old(books).chunks[maj], size + HEADER)
        && books == old(books) && headers == old(headers) && inUseBytes == old(inUseBytes)
      ensures p != 0 ==>
        && c != null && fresh(c) && c.block == maj && c.size == size && c.reqSize == reqSize && p == Ptr(c)
        && FirstFit(maj, old(books).chunks[maj], c.addr, size + HEADER)
        && p !in old(books.view) && p in books.view && |books.view[p]| == reqSize
        && j <= |old(books).chunks[maj]| && books == Entered(old(books), c, j, books.view[p])
        && headers == Surviving(old(headers), c)[c.addr := c]
        && inUseBytes == old(inUseBytes) + size
    {
      hide Shape, Placed, FreeAt, NoRoom, FirstFit, InsertAt, Owners, Marks, Bytes, Requested, ChunksOk,
          Weight, Total, TotalSize, OnLoan, MajorsLinked, BlockOk;
      BlockOfBooks(books, headers, maj);
      var min;
      ChunksSplit(books, headers);
      min, j := TryBlock(maj, books.chunks[maj], size, reqSize);
      c := min;
      p := 0;
      if min != null {
        forall m | m in books.chunks && m != maj ensures BlockOk(m, books.chunks[m]) {
          assert old(BlockOk(m, books.chunks[m]));
        }
        ChunksJoin(books, headers, maj);
        FirstFitFree(maj, books.chunks[maj], min.addr, size + HEADER);
        p := Adopt(min, j);
      }
    }
  
    /** The next block to look at when `maj` is full: its successor, the root if the search began
        at the best bet, or a fresh block. */
    method Advance(ghost b0: Books, ghost order: seq<Major>, ghost v: nat, maj: Major, ghost i: nat, startedBet: bool,
                   size: nat, ghost req: nat, grant: nat)
      returns (next: Major?, ghost k: nat, started: bool, grown: bool)
      requires CoreBut(null) && req <= MAX_REQUEST && size == PaddedSize(req)
      requires Searching(b0, books, order, v, maj, i, startedBet, false, size, grant)
      requires NoRoom(maj, books.chunks[maj], size + HEADER)
      requires GrantOk(books.majors, grant, PagesFor(size))
      modifies this`memRoot, this`warnings, this`allocatedBytes, this`books, maj`next
      ensures CoreBut(null)
      ensures next == null ==>
        NoPlace(b0, order, v, size + HEADER, grant) && books == b0 && warnings == old(warnings) + 1
      ensures next != null ==>
        && Searching(b0, books, order, v + 1, next, k, started, grown, size, grant) && warnings == old(warnings)
        && (grown ==> AtLast(b0, order, v, maj))
        && (if grown then !started && fresh(next)
            else books == b0 && next in b0.majors && (if started then startedBet && k > i else startedBet || k > i))
    {
      hide Shape, Placed, NoRoom, Owners, Marks, Bytes, ChunksOk, Total, TotalSize, OnLoan, MajorsLinked,
          BlockOk, NoRoomBefore, GrantOk, BlockFits, Standing, Passed, FreeIn;
      NoRoomNone(books, size + HEADER);
      BlockAt(books, headers, memRoot, i, size + HEADER);
      StandNext(books, order, v, i, startedBet, size + HEADER);
      if !startedBet { NoRoomNext(books, i, size + HEADER); }
      if maj.next != null {
        next, k, started, grown := maj.next, i + 1, startedBet, false;
        BlockAt(books, headers, memRoot, i + 1, size + HEADER);
      } else if startedBet {
        next, k, started, grown := memRoot, 0, false, false;
        BlockAt(books, headers, memRoot, 0, size + HEADER);
      } else {
        next := Grow(maj, size, grant);
        k, started, grown := i + 1, false, true;
        if next != null {
          SearchGrown(b0, order, v + 1, next, size, grant, req);
        }
      }
    }

    lemma SearchFacts(b0: Books, order: seq<Major>, v: nat, maj: Major, i: nat, startedBet: bool, grown: bool,
                      size: nat, grant: nat)
      requires CoreBut(null) && Searching(b0, books, order, v, maj, i, startedBet, grown, size, grant)
      ensures i < |books.majors| && maj in books.majors && maj in books.chunks && maj.usage <= maj.size
      ensures maj.size - maj.usage == FreeIn(books, maj)
      ensures maj.size - maj.usage < size + HEADER ==> !grown && NoRoom(maj, books.chunks[maj], size + HEADER)
      ensures grown ==>
        && !startedBet && books.chunks[maj] == [] && HEADER + size + HEADER <= maj.size
        && !NoRoom(maj, books.chunks[maj], size + HEADER)
      ensures !grown ==> books == b0
    {
      SearchAt(b0, books, order, v, headers, memRoot, maj, i, startedBet, grown, size, grant);
    }

    method Remember(maj: Major)
      requires CoreBut(null) && maj in books.majors
      modifies this`bestBet
      ensures CoreBut(null) && bestBet == maj
    {
      hide Shape, Owners, Marks, Bytes, ChunksOk, Total, TotalSize, OnLoan, MajorsLinked;
      bestBet := maj;
    }

    lemma BlocksKnown()
      requires CoreBut(null)
      ensures (forall m :: m in books.majors ==> m in books.chunks) && (bestBet != null ==> bestBet in books.majors)
      ensures forall m :: m in books.majors ==> m.size - m.usage == FreeIn(books, m)
    {
      forall m | m in books.majors ensures m in books.chunks && m.size - m.usage == FreeIn(books, m) {
        var i :| 0 <= i < |books.majors| && books.majors[i] == m;
        BlockAt(books, headers, memRoot, i, 1);
      }
    }

    /** Where the search of malloc begins: at the best bet if that looks large enough. */
    method Begin(size: nat, ghost req: nat, grant: nat)
      returns (maj: Major?, ghost i: nat, startedBet: bool, bestSize: int, ghost grown: bool)
      requires CoreBut(null) && req <= MAX_REQUEST && size == PaddedSize(req)
      requires GrantOk(books.majors, grant, PagesFor(size))
      modifies this`memRoot, this`warnings, this`allocatedBytes, this`books
      ensures CoreBut(null)
      ensures maj == null ==>
        && grant == 0 && Full(old(books).majors, old(books).chunks, size + HEADER)
        && books == old(books) && warnings == old(warnings) + 1 && old(books).majors == []
      ensures maj != null ==>
        && Searching(old(books), books, Order(old(books), bestBet, size + HEADER), 0, maj, i, startedBet, grown, size,
                     grant)
        && warnings == old(warnings) && (grown ==> old(books).majors == [])
        && if grown then !startedBet && fresh(maj) else books == old(books) && maj in books.majors
      ensures Remembered(old(books), bestBet, [], bestBet, bestSize)
      ensures old(books).majors == [] ==> Order(old(books), bestBet, size + HEADER) == []
    {
      hide Shape, Placed, NoRoom, Owners, Marks, Bytes, ChunksOk, Total, TotalSize, OnLoan, MajorsLinked,
          BlockOk, NoRoomBefore, GrantOk, BlockFits, Standing, Order, FreeIn, Remembered;
      RootOf(memRoot, books.majors);
      NoRoomNone(books, size + HEADER);
      BlocksKnown();
      RememberNone(books, bestBet);
      startedBet, bestSize, i, grown := false, 0, 0, false;
      maj := memRoot;
      if memRoot == null {
        OrderEmpty(books, bestBet, size + HEADER);
        maj := Grow(null, size, grant);
        grown := true;
        if maj != null {
          SearchGrown(old(books), [], 0, maj, size, grant, req);
        }
        return;
      }
      BlockAt(books, headers, memRoot, 0, size + HEADER);
      ghost var first := StandFirst(books, bestBet, size + HEADER);
      if bestBet != null {
        bestSize := bestBet.size - bestBet.usage;
        if bestSize > size + HEADER {
          maj := bestBet;
          startedBet := true;
          i := first;
          BlockAt(books, headers, memRoot, i, size + HEADER);
        }
      }
    }

    /** What a successful malloc leaves behind: a new chunk, first fit in its block, entered in the
        books `start` it was placed in. */
    ghost predicate Placement(b0: Books, start: Books, order: seq<Major>, p: nat, c: Minor?, j: nat, size: nat,
                              reqSize: nat, grant: nat)
      reads this`books, if c == null then {} else {c}
    {
      && Started(b0, start, grant, size)
      && c != null && c.size == size && c.reqSize == reqSize && p == Ptr(c)
      && c.block in start.majors && c.block in start.chunks && j <= |start.chunks[c.block]|
      && FirstFit(c.block, start.chunks[c.block], c.addr, size + HEADER)
      && (if start == b0 then FirstWithRoom(b0, order, c.block, size + HEADER)
          else c.block == start.majors[|start.majors| - 1])
      && p !in b0.view && p in books.view && |books.view[p]| == reqSize
      && books == Entered(start, c, j, books.view[p])
      && books.view == b0.view[p := books.view[p]] && books.owner == b0.owner[p := c]
      && (grant == 0 ==> !Full(b0.majors, b0.chunks, size + HEADER))
      && forall m :: m in books.chunks ==> books.chunks[m] != []
    }

    /** Case 1: stay at a block with enough free bytes in all, or at the fresh block asked for when
        there is no other; or hop on. */
    method Hop(ghost b0: Books, ghost order: seq<Major>, ghost v: nat, ghost bet0: Major?, ghost seen: seq<Major>,
               maj: Major, ghost i: nat, startedBet: bool, ghost grown: bool, bestSize: int, size: nat,
               ghost req: nat, grant: nat)
      returns (stay: bool, ghost u: nat, next: Major?, ghost k: nat, started: bool, ghost grew: bool, best: int)
      requires CoreBut(null) && req <= MAX_REQUEST && size == PaddedSize(req)
      requires Searching(b0, books, order, v, maj, i, startedBet, grown, size, grant)
      requires Remembered(books, bet0, seen, bestBet, bestSize)
      requires forall m :: m in b0.chunks ==> b0.chunks[m] != []
      requires GrantOk(b0.majors, grant, PagesFor(size))
      modifies this`memRoot, this`bestBet, this`warnings, this`allocatedBytes, this`books, maj`next
      ensures Remembered(old(books), bet0, seen + [maj], bestBet, best)
      ensures CoreBut(null) && i < |old(books.majors)|
      ensures stay ==>
        && next != null && Searching(b0, books, order, u, next, k, started, grew, size, grant)
        && warnings == old(warnings) && (!grew ==> u == v && HasBytes(b0, maj, size + HEADER))
        && (grew && !grown ==> AtLast(b0, order, v, maj) && !HasBytes(b0, maj, size + HEADER))
        && next in books.majors && next in books.chunks
        && (books.chunks[next] == [] ==> HEADER + HEADER + size <= next.size) && (grown ==> next == maj && grew)
        && (grew ==> !NoRoom(next, books.chunks[next], size + HEADER))
        && if grew then fresh(next) || (grown && next == maj)
           else next == maj && k == i && started == startedBet && books == b0 && !grown
      ensures !stay && next == null ==>
        NoPlace(b0, order, v, size + HEADER, grant) && books == b0 && warnings == old(warnings) + 1 && !grown
      ensures !stay && next != null ==>
        && Searching(b0, books, order, v + 1, next, k, started, grew, size, grant) && warnings == old(warnings)
        && !grown && !grew && books == b0 && next in b0.majors
        && (if started then startedBet && k > i else startedBet || k > i)
    {
      hide CoreBut, NoRoom, GrantOk, Searching, NoPlace, AtLast, Remembered, FreeIn;
      SearchFacts(b0, order, v, maj, i, startedBet, grown, size, grant);
      RememberNext(books, bet0, seen, bestBet, bestSize, maj);
      RequestArithmetic(req);
      u := v;
      stay, next, k, started, grew, best := true, maj, i, startedBet, grown, bestSize;
      var diff := maj.size - maj.usage;
      if bestSize < diff {
        Remember(maj);
        best := diff;
      }
      if diff < (size + HEADER) % SPACE {
        var fell;
        next, k, started, fell := Advance(b0, order, v, maj, i, startedBet, size, req, grant);
        u, grew := v + 1, fell;
        stay := fell && next != null;
        if stay {
          SearchFacts(b0, order, u, next, k, started, grew, size, grant);
        }
      }
    }

    /** Cases 2 to 5 at a block with enough free bytes in all: place the chunk, or pass on. */
    method PlaceOrPass(ghost b0: Books, ghost order: seq<Major>, ghost v: nat, maj: Major, ghost i: nat,
                       startedBet: bool, ghost grown: bool, size: nat, reqSize: nat, grant: nat)
      returns (p: nat, ghost c: Minor?, ghost j: nat, ghost start: Books,
               next: Major?, ghost k: nat, started: bool, ghost grew: bool)
      requires CoreBut(null) && reqSize <= MAX_REQUEST && size == PaddedSize(reqSize)
      requires Searching(b0, books, order, v, maj, i, startedBet, grown, size, grant)
      requires forall m :: m in b0.chunks ==> b0.chunks[m] != []
      requires GrantOk(b0.majors, grant, PagesFor(size))
      requires maj in books.majors && maj in books.chunks
        && (books.chunks[maj] == [] ==> HEADER + HEADER + size <= maj.size)
      requires grown ==> !NoRoom(maj, books.chunks[maj], size + HEADER)
      requires !grown ==> books == b0
      modifies this`memRoot, this`warnings, this`allocatedBytes, this`inUseBytes, this`headers, this`books, mem, maj,
               headers.Values
      ensures CoreBut(null)
      ensures p != 0 ==>
        && Placement(b0, start, order, p, c, j, size, reqSize, grant) && fresh(c) && c.block == maj
        && (start != b0 <==> grown) && Hit(b0, start, order, v, maj, grown, size + HEADER)
        && headers == Surviving(old(headers), c)[c.addr := c]
        && inUseBytes == old(inUseBytes) + c.size && warnings == old(warnings)
      ensures p == 0 ==> headers == old(headers) && inUseBytes == old(inUseBytes) && !grown
      ensures p == 0 && next == null ==>
        NoPlace(b0, order, v, size + HEADER, grant) && books == b0 && warnings == old(warnings) + 1
      ensures p == 0 && next != null ==>
        && Searching(b0, books, order, v + 1, next, k, started, grew, size, grant) && warnings == old(warnings)
        && (grew ==> AtLast(b0, order, v, maj))
        && if grew then !started && fresh(next)
           else books == b0 && next in b0.majors && (if started then startedBet && k > i else startedBet || k > i)
    {
      hide CoreBut, NoRoom, FirstFit, GrantOk, Searching, Started, Full, Entered, Surviving, NoPlace, AtLast,
          Seen, FirstWithRoom;
      RequestArithmetic(reqSize);
      start, next, k, started, grew := books, maj, i, startedBet, grown;
      p, c, j := PlaceIn(maj, size, reqSize);
      if p != 0 {
        SearchHit(b0, start, order, v, maj, i, startedBet, grown, size, grant, c.addr);
        EnteredView(start, c, j, books.view[p]);
        EnteredNonEmpty(b0, start, c, j, books.view[p]);
      } else {
        // Case 5: no gap is large enough; on to the next block.
        next, k, started, grew := Advance(b0, order, v, maj, i, startedBet, size, reqSize, grant);
      }
    }

    /** One turn of malloc's loop: place the chunk in `maj`, or name the next block to look at. */
    method Visit(ghost b0: Books, ghost order: seq<Major>, ghost v: nat, ghost bet0: Major?, ghost seen: seq<Major>,
                 maj: Major, ghost i: nat, startedBet: bool, ghost grown: bool, bestSize: int, size: nat,
                 reqSize: nat, grant: nat)
      returns (p: nat, ghost c: Minor?, ghost j: nat, ghost start: Books,
               next: Major?, ghost k: nat, started: bool, ghost grew: bool, best: int)
      requires CoreBut(null) && reqSize <= MAX_REQUEST && size == PaddedSize(reqSize)
      requires Searching(b0, books, order, v, maj, i, startedBet, grown, size, grant)
      requires Remembered(books, bet0, seen, bestBet, bestSize)
      requires forall m :: m in b0.chunks ==> b0.chunks[m] != []
      requires GrantOk(b0.majors, grant, PagesFor(size))
      modifies this, mem, maj, headers.Values
      ensures Remembered(old(books), bet0, seen + [maj], bestBet, best)
      ensures CoreBut(null) && errors == old(errors) && overruns == old(overruns)
      ensures i < |old(books.majors)|
      ensures p != 0 ==>
        && Placement(b0, start, order, p, c, j, size, reqSize, grant) && fresh(c)
        && (start != b0 ==> (grown && c.block == maj) || fresh(c.block))
        && Hit(b0, start, order, v, maj, grown, size + HEADER) && (start != b0 && grown ==> c.block == maj)
        && headers == Surviving(old(headers), c)[c.addr := c]
        && inUseBytes == old(inUseBytes) + c.size && warnings == old(warnings)
      ensures p == 0 ==> headers == old(headers) && inUseBytes == old(inUseBytes)
      ensures p == 0 && next == null ==>
        NoPlace(b0, order, v, size + HEADER, grant) && books == b0 && warnings == old(warnings) + 1 && !grown
      ensures p == 0 && next != null ==>
        && Searching(b0, books, order, v + 1, next, k, started, grew, size, grant) && warnings == old(warnings)
        && !grown && (grew ==> AtLast(b0, order, v, maj) && HasBytes(b0, maj, size + HEADER))
        && if grew then !started && fresh(next)
           else books == b0 && next in b0.majors && (if started then startedBet && k > i else startedBet || k > i)
    {
      hide CoreBut, NoRoom, GrantOk, Searching, Full, Surviving, Started, FirstFit, FirstWithRoom, Entered,
          NoPlace, AtLast, HasBytes, Seen, Remembered, Placement;
      c, j, p, start := null, 0, 0, books;
      var stay;
      ghost var u;
      stay, u, next, k, started, grew, best :=
        Hop(b0, order, v, bet0, seen, maj, i, startedBet, grown, bestSize, size, reqSize, grant);
      if stay {
        p, c, j, start, next, k, started, grew :=
          PlaceOrPass(b0, order, u, next, k, started, grew, size, reqSize, grant);
      }
    }

    /** The same with the best bet: what malloc has seen so far and what it makes of it. */
    method Turn(ghost b0: Books, ghost order: seq<Major>, ghost v: nat, ghost bet0: Major?, ghost seen: seq<Major>,
                maj: Major, ghost i: nat, startedBet: bool, ghost grown: bool, bestSize: int, size: nat,
                reqSize: nat, grant: nat)
      returns (p: nat, ghost c: Minor?, ghost j: nat, ghost start: Books,
               next: Major?, ghost k: nat, started: bool, ghost grew: bool, best: int)
      requires CoreBut(null) && reqSize <= MAX_REQUEST && size == PaddedSize(reqSize)
      requires Looking(b0, books, order, v, bet0, seen, maj, i, startedBet, grown, size, grant, bestBet, bestSize)
      requires forall m :: m in b0.chunks ==> b0.chunks[m] != []
      requires GrantOk(b0.majors, grant, PagesFor(size))
      modifies this, mem, maj, headers.Values
      ensures CoreBut(null) && errors == old(errors) && overruns == old(overruns)
      ensures i < |old(books.majors)|
      ensures p != 0 ==>
        && Placement(b0, start, order, p, c, j, size, reqSize, grant) && fresh(c)
        && (start != b0 ==> (grown && c.block == maj) || fresh(c.block))
        && headers == Surviving(old(headers), c)[c.addr := c]
        && inUseBytes == old(inUseBytes) + c.size && warnings == old(warnings)
      ensures p != 0 ==>
        bestBet == BetOf(start, bet0, LookedAt(b0, order, size + HEADER, if start == b0 then null else c.block))
      ensures p == 0 ==> headers == old(headers) && inUseBytes == old(inUseBytes)
      ensures p == 0 && next == null ==>
        && grant == 0 && Full(b0.majors, b0.chunks, size + HEADER)
        && books == b0 && warnings == old(warnings) + 1
        && bestBet == BetOf(b0, bet0, LookedAt(b0, order, size + HEADER, null))
      ensures p == 0 && next != null ==>
        && Looking(b0, books, order, v + 1, bet0, seen + [maj], next, k, started, grew, size, grant, bestBet, best)
        && warnings == old(warnings) && !grown
        && if grew then !started && fresh(next)
           else books == b0 && next in b0.majors && (if started then startedBet && k > i else startedBet || k > i)
    {
      hide CoreBut, NoRoom, GrantOk, Searching, Full, Surviving, Started, FirstFit, FirstWithRoom, Entered,
          AtLast, HasBytes, Seen, Remembered, Hit, LookedAt, BetOf, Scattered, Passed;
      ghost var b, bet := books, bestBet;
      p, c, j, start, next, k, started, grew, best :=
        Visit(b0, order, v, bet0, seen, maj, i, startedBet, grown, bestSize, size, reqSize, grant);
      if p != 0 {
        LookHit(b0, b, start, order, v, bet0, seen, maj, c.block, i, startedBet, grown, size, grant, bet, bestSize,
                bestBet, best);
      } else if next == null {
        LookNone(b0, b, order, v, bet0, seen, maj, i, startedBet, size, grant, bet, bestSize, bestBet, best);
      } else {
        LookNext(b0, b, books, order, v, bet0, seen, maj, i, startedBet, bet, bestSize, next, k, started, grew, size,
                 grant, bestBet, best);
      }
    }

    /** A pointer to `reqSize` fresh bytes; 0 only when no block has room and the page hook, which
        answers `grant` if it is asked, has no pages. */
    method Malloc(reqSize: nat, grant: nat) returns (p: nat, ghost c: Minor?, ghost j: nat, ghost start: Books)
      requires Valid() && reqSize <= MAX_REQUEST
      requires GrantOk(books.majors, grant, PagesFor(PaddedSize(reqSize)))
      modifies this, mem, books.majors, headers.Values
      ensures Valid()
      ensures p == 0 <==> grant == 0 && Full(old(books).majors, old(books).chunks, reqSize + PADDING + HEADER)
      ensures p == 0 ==>
        books == old(books) && headers == old(headers) && inUseBytes == old(inUseBytes) && warnings == old(warnings) + 1
      ensures p != 0 ==>
        && Placement(old(books), start, Order(old(books), old(bestBet), reqSize + PADDING + HEADER), p, c, j,
                     reqSize + PADDING, reqSize, grant)
        && fresh(c) && (start != old(books) ==> fresh(c.block))
        && headers == Surviving(old(headers), c)[c.addr := c]
        && inUseBytes == old(inUseBytes) + c.size && warnings == old(warnings)
      ensures errors == old(errors) && overruns == old(overruns)
      ensures p != 0 ==>
        && (books.majors == old(books.majors) || (books.majors == old(books.majors) + [c.block] && fresh(c.block)))
        && headers.Values <= old(headers.Values) + {c}
      ensures var n := reqSize + PADDING + HEADER;
        var order := Order(old(books), old(bestBet), n);
        bestBet == BetOf(if p == 0 then old(books) else start, old(bestBet),
                         LookedAt(old(books), order, n, if p != 0 && start != old(books) then c.block else null))
    {
      hide CoreBut, NoRoom, FirstFit, GrantOk, Searching, Started, Full, Entered, Surviving, Order, Looking,
          Remembered, FirstWithRoom, LookedAt, BetOf, FreeIn;
      RequestArithmetic(reqSize);
      var size := (reqSize + PADDING) % SPACE;
      ghost var b0, bet0, order, v := books, bestBet, Order(books, bestBet, size + HEADER), 0;
      ghost var seen: seq<Major> := [];
      c, j, start := null, 0, books;
      var maj, startedBet, bestSize;
      ghost var i, grown;
      BlocksKnown();
      maj, i, startedBet, bestSize, grown := Begin(size, reqSize, grant);
      if maj == null {
        LookFirstNone(b0, bet0, size + HEADER, bestSize);
      } else {
        LookFirst(b0, books, bet0, maj, i, startedBet, grown, size, grant, bestSize);
      }
      while maj != null
        invariant CoreBut(null)
        invariant headers == old(headers) && inUseBytes == old(inUseBytes) && errors == old(errors)
          && overruns == old(overruns)
        invariant maj == null ==>
          && grant == 0 && Full(b0.majors, b0.chunks, size + HEADER) && books == b0 && warnings == old(warnings) + 1
          && bestBet == BetOf(b0, bet0, LookedAt(b0, order, size + HEADER, null))
        invariant maj != null ==>
          && Looking(b0, books, order, v, bet0, seen, maj, i, startedBet, grown, size, grant, bestBet, bestSize)
          && warnings == old(warnings)
          && if grown then !startedBet && fresh(maj) else books == b0 && maj in b0.majors
        decreases maj != null, startedBet, !grown, |books.majors| - i
      {
        ghost var maj1: Major := maj;
        p, c, j, start, maj, i, startedBet, grown, bestSize :=
          Turn(b0, order, v, bet0, seen, maj, i, startedBet, grown, bestSize, size, reqSize, grant);
        if p != 0 {
          PlacedMajors(b0, start, c, j, books.view[p], grant, size);
          SurvivingValues(old(headers), c);
          return;
        }
        v, seen := v + 1, seen + [maj1];
      }
      p := 0;
    }
  
    // -------------------------------------------------------------- free

    /** Where free and realloc look for the header behind a pointer. */
    function HeaderAddr(p: nat): int
      requires ALIGN_INFO <= p < mem.Length
      reads mem
    {
      Unalign(p, mem[p - ALIGN_INFO]) - HEADER
    }

    /** A pointer behind which there is a header, live or dead. */
    ghost predicate Known(p: nat)
      reads this, mem
    {
      ALIGN_INFO <= p < mem.Length && HeaderAddr(p) in headers
    }

    /** Every pointer a client holds leads back to its own chunk. */
    lemma ViewKnown(p: nat)
      requires CoreBut(null) && p in books.view
      ensures p in books.owner && Known(p) && headers[HeaderAddr(p)] == books.owner[p] && Ptr(books.owner[p]) == p
      ensures p + |books.view[p]| <= mem.Length && books.owner[p].reqSize == |books.view[p]|
      ensures IsLive(books.chunks, books.owner[p]) && Owned(books.owner, books.owner[p])
    {
      hide Shape, Marks, BlockOk, Total, TotalSize, OnLoan, MajorsLinked;
      var c := books.owner[p];
      assert BytesAt(mem, c, books.view[p]);
      AlignRoundTrip(c.addr + HEADER);
    }

    /** The list half of free. */
    method Detach(min: Minor, ghost j: nat)
      requires CoreBut(null) && min.block in books.chunks && j < |books.chunks[min.block]|
        && books.chunks[min.block][j] == min
      modifies this`inUseBytes, this`headers, this`books, min.block`first, min.block`usage, headers.Values`prev,
               headers.Values`next, min`magic
      ensures headers == old(headers)
      ensures CoreBut(null)
      ensures books == Left(old(books), min, j) && inUseBytes == old(inUseBytes) - min.size && min.magic == DEAD
    {
      hide Shape, Placed, RemoveAt, Owners, Marks, Bytes, Requested, ChunksOk, Weight, Total, TotalSize,
          OnLoan, MajorsLinked, BlockOk, Left;
      var maj := min.block;
      ChunksSplit(books, headers);
      MarksSplit(books.owner, headers);
      ListedHere(books, headers, maj);
      Unlink(min, books.chunks[maj], j);
      forall m | m in books.chunks && m != maj ensures BlockOk(m, books.chunks[m]) {
        assert old(BlockOk(m, books.chunks[m]));
      }
      DetachDone(mem, memRoot, bestBet, allocatedBytes, inUseBytes, headers, books, min, j);
      Enter(inUseBytes - min.size, headers, Left(books, min, j));
    }

    lemma BothParts()
      requires CoreBut(null)
      ensures MajorsLinked(memRoot, books.majors)
      ensures Booked(mem, bestBet, allocatedBytes, inUseBytes, headers, books, null)
    {
      hide MajorsLinked, Booked;
    }

    /** The block half of free: an empty block leaves the list and its pages go back. */
    method Release(maj: Major, ghost k: nat)
      requires CoreBut(null) && k < |books.majors| && books.majors[k] == maj
      requires maj in books.chunks && books.chunks[maj] == []
      modifies this`memRoot, this`bestBet, this`allocatedBytes, this`headers, this`books, books.majors`prev,
               books.majors`next
      ensures CoreBut(null)
      ensures books == Returned(old(books), k) && headers == Unmapped(old(headers), maj)
      ensures allocatedBytes == old(allocatedBytes) - maj.size
      ensures bestBet == if old(bestBet) == maj then null else old(bestBet)
    {
      hide Consistent, Booked, MajorsLinked, RemoveAt, Returned, Unmapped;
      BothParts();
      BookedFacts(mem, bestBet, allocatedBytes, inUseBytes, headers, books, null);
      var root := BypassMajor(memRoot, maj, books.majors, k);
      ReleaseDone(mem, root, bestBet, allocatedBytes, inUseBytes, headers, books, k);
      // The page hook takes back exactly what it lent.
      assert maj.addr in books.held && books.held[maj.addr] == maj.pages;
      Forget(root, maj, k);
    }

    /** The heap's own fields after a block has left the list. */
    method Forget(root: Major?, maj: Major, ghost k: nat)
      requires k < |books.majors| && books.majors[k] == maj && maj.size <= allocatedBytes
      requires Consistent(mem, root, if bestBet == maj then null else bestBet, allocatedBytes - maj.size, inUseBytes,
                          Unmapped(headers, maj), Returned(books, k), null)
      modifies this`memRoot, this`bestBet, this`allocatedBytes, this`headers, this`books
      ensures CoreBut(null)
      ensures books == Returned(old(books), k) && headers == Unmapped(old(headers), maj)
      ensures allocatedBytes == old(allocatedBytes) - maj.size
      ensures bestBet == if old(bestBet) == maj then null else old(bestBet)
    {
      hide Consistent, Returned, Unmapped;
      memRoot := root;
      bestBet := if bestBet == maj then null else bestBet;
      allocatedBytes := allocatedBytes - maj.size;
      headers := Unmapped(headers, maj);
      books := Returned(books, k);
    }

    static lemma LowByteOfTwo(a: nat)
      ensures a % 0x1_0000 % 0x100 == a % 0x100
    {
      assert a == 0x100 * (0x100 * (a / 0x1_0000)) + a % 0x1_0000;
    }

    static lemma LowByteOfThree(a: nat)
      ensures a % 0x100_0000 % 0x100 == a % 0x100
    {
      assert a == 0x100 * (0x1_0000 * (a / 0x100_0000)) + a % 0x100_0000;
    }

    /** A header whose magic number is wrong: count the error, and, if it agrees in its low bytes, the
        overrun it may come from. The lowest byte alone decides. */
    method BadMagic(min: Minor)
      modifies this`errors, this`overruns
      ensures errors == old(errors) + 1
      ensures overruns == old(overruns) + if min.magic % 0x100 == MAGIC % 0x100 then 1 else 0
    {
      LowByteOfTwo(min.magic);
      LowByteOfThree(min.magic);
      errors := errors + 1;
      if min.magic % 0x1000000 == MAGIC % 0x1000000 || min.magic % 0x10000 == MAGIC % 0x10000
        || min.magic % 0x100 == MAGIC % 0x100
      {
        overruns := overruns + 1;
      }
    }

    /** After free has emptied or shrunk the block of a chunk: give an empty block back, or
        reconsider the best bet. */
    method CleanUp(maj: Major, ghost k: nat)
      requires CoreBut(null) && k < |books.majors| && books.majors[k] == maj && maj in books.chunks
      requires forall m :: m in books.chunks && m != maj ==> books.chunks[m] != []
      modifies this`memRoot, this`bestBet, this`allocatedBytes, this`headers, this`books, books.majors`prev,
               books.majors`next
      ensures Valid()
      ensures old(books).chunks[maj] == [] ==>
        books == Returned(old(books), k) && headers == Unmapped(old(headers), maj)
      ensures old(books).chunks[maj] != [] ==> books == old(books) && headers == old(headers)
      ensures bestBet == NextBet(old(bestBet), maj, old(books).chunks[maj] == [])
    {
      hide Consistent, Unmapped;
      BlockFirst(maj);
      if maj.first == null {
        Release(maj, k);
        ReturnedChunks(old(books), k);
      } else {
        if bestBet != null {
          var bestSize := bestBet.size - bestBet.usage;
          var majSize := maj.size - maj.usage;
          if majSize > bestSize {
            Remember(maj);
          }
        }
      }
    }

    /** What free makes of the best bet, after it has updated the usage of `maj`. */
    ghost function NextBet(bet: Major?, maj: Major, released: bool): Major?
      reads maj, if bet == null then {} else {bet}
    {
      if released then (if bet == maj then null else bet)
      else if bet != null && maj.size - maj.usage > bet.size - bet.usage then maj else bet
    }

    /** A block returned is no best bet. Of the old one and a block that stays the roomier is kept, the old
        one if neither is. */
    lemma NextBetMeans(bet: Major?, maj: Major, released: bool)
      ensures var next := NextBet(bet, maj, released);
        && (released ==> next != maj && (bet != maj ==> next == bet))
        && (!released ==> (bet == null <==> next == null) && (next == bet || next == maj))
        && (!released && bet != null ==>
              && bet.size - bet.usage <= next.size - next.usage && maj.size - maj.usage <= next.size - next.usage
              && (next != bet ==> bet.size - bet.usage < maj.size - maj.usage))
    {
    }

    lemma BlockFirst(maj: Major)
      requires CoreBut(null) && maj in books.majors
      ensures maj in books.chunks && (maj.first == null <==> books.chunks[maj] == [])
    {
      BlockOfBooks(books, headers, maj);
    }

    /** Give back the chunk behind `p`. Nothing happens but a count if `p` is null or the header
        found is that of a chunk already freed. */
    method Free(p: nat) returns (ghost c: Minor?, ghost j: nat, ghost k: nat)
      requires Valid() && (p == 0 || Known(p))
      modifies this, books.majors, headers.Values
      ensures Valid()
      ensures p == 0 ==>
        && warnings == old(warnings) + 1 && errors == old(errors)
        && books == old(books) && headers == old(headers) && bestBet == old(bestBet)
      ensures p != 0 ==> c == old(headers[HeaderAddr(p)]) && warnings == old(warnings)
      ensures p != 0 && old(headers[HeaderAddr(p)].magic) != MAGIC ==>
        && errors == old(errors) + 1
        && books == old(books) && headers == old(headers) && bestBet == old(bestBet)
      ensures p != 0 && old(headers[HeaderAddr(p)].magic) == MAGIC ==>
        && errors == old(errors) && c.magic == DEAD && Freed(old(books), old(headers), c, j, k)
        && inUseBytes == old(inUseBytes) - c.size
        && bestBet == NextBet(old(bestBet), c.block, |old(books).chunks[c.block]| == 1)
      ensures p in old(books).view ==>
        old(headers[HeaderAddr(p)].magic) == MAGIC && c == old(books).owner[p] && books.view == old(books).view - {p}
      ensures overruns == old(overruns)
    {
      hide Consistent, Freed;
      c, j, k := null, 0, 0;
      if p in books.view { ViewKnown(p); }
      if p == 0 {
        warnings := warnings + 1;
        return;
      }
      var ptr := Unalign(p, mem[p - ALIGN_INFO]);
      var min := headers[ptr - HEADER];
      c := min;
      HeaderMark(ptr - HEADER);
      if min.magic != MAGIC {
        BadMagic(min);
        return;
      }
      j, k := FreeLive(min);
      FreedView(old(books), old(headers), min, j, k);
    }

    /** The part of free behind the magic number check. */
    method FreeLive(min: Minor) returns (ghost j: nat, ghost k: nat)
      requires Valid() && Owned(books.owner, min)
      requires min.block in books.majors && min in headers.Values
      modifies this`memRoot, this`bestBet, this`allocatedBytes, this`inUseBytes, this`headers, this`books, books.majors,
          headers.Values
      ensures Valid() && min.magic == DEAD
      ensures Freed(old(books), old(headers), min, j, k) && inUseBytes == old(inUseBytes) - min.size
      ensures bestBet == NextBet(old(bestBet), min.block, |old(books).chunks[min.block]| == 1)
    {
      hide Consistent, Freed, Unmapped, Left, Returned;
      j, k := LiveAt(min);
      Detach(min, j);
      LeftChunks(old(books), min, j);
      CleanUp(min.block, k);
      FreedIntro(old(books), old(headers), books, headers, min, j, k);
    }

    /** The books and headers after freeing `c`, the j-th chunk of the k-th block. */
    ghost predicate Freed(b: Books, hs: map<nat, Minor>, c: Minor, j: nat, k: nat)
      reads this`books, this`headers
    {
      && k < |b.majors| && b.majors[k] == c.block
      && c.block in b.chunks && j < |b.chunks[c.block]| && b.chunks[c.block][j] == c
      && if |b.chunks[c.block]| == 1 then
           books == Returned(Left(b, c, j), k) && headers == Unmapped(hs, c.block)
         else
           books == Left(b, c, j) && headers == hs
    }

    lemma FreedView(b: Books, hs: map<nat, Minor>, c: Minor, j: nat, k: nat)
      requires Freed(b, hs, c, j, k)
      ensures books.view == b.view - {Ptr(c)}
    {
    }

    lemma FreedIntro(b: Books, hs: map<nat, Minor>, b': Books, hs': map<nat, Minor>, c: Minor, j: nat, k: nat)
      requires k < |b.majors| && b.majors[k] == c.block
      requires c.block in b.chunks && j < |b.chunks[c.block]| && b.chunks[c.block][j] == c
      requires books == b' && headers == hs'
      requires Left(b, c, j).chunks[c.block] == [] ==> b' == Returned(Left(b, c, j), k) && hs' == Unmapped(hs, c.block)
      requires Left(b, c, j).chunks[c.block] != [] ==> b' == Left(b, c, j) && hs' == hs
      ensures Freed(b, hs, c, j, k)
    {
      hide Returned, Unmapped;
    }

    lemma HeaderMark(a: nat)
      requires CoreBut(null) && a in headers
      ensures headers[a].magic == MAGIC || headers[a].magic == DEAD
      ensures headers[a].magic == MAGIC <==> Owned(books.owner, headers[a])
      ensures headers[a].magic == MAGIC ==> headers[a].block in books.majors
    {
    }

    lemma LiveAt(c: Minor) returns (j: nat, k: nat)
      requires CoreBut(null) && Owned(books.owner, c)
      ensures k < |books.majors| && books.majors[k] == c.block
      ensures c.block in books.chunks && j < |books.chunks[c.block]| && books.chunks[c.block][j] == c
      ensures c.addr in headers && headers[c.addr] == c
    {
      OwnerLive(books.chunks, books.owner, headers, Ptr(c));
      KeysOf(books.majors, books.chunks);
      k :| 0 <= k < |books.majors| && books.majors[k] == c.block;
      j :| 0 <= j < |books.chunks[c.block]| && books.chunks[c.block][j] == c;
    }

    // -------------------------------------------------------------- realloc

    /** A client may store only inside a payload it was given. */
    method Store(p: nat, at: nat, b: byte)
      requires Valid() && p in books.view && at < |books.view[p]|
      modifies mem, this`books
      ensures Valid()
      ensures books == old(books).(view := old(books).view[p := old(books).view[p][at := b]])
    {
      hide Shape, Owners, OnLoan, Marks, Bytes, BlockOk, ChunksOk, Requested, Total, TotalSize, MajorsLinked,
          OwnersApart;
      ViewKnown(p);
      ApartOwners(books.majors, books.chunks, books.owner, headers);
      ChunksSplit(books, headers);
      ghost var view := books.view[p := books.view[p][at := b]];
      StoreByte(mem, p, at, b, books.owner, books.view);
      RequestedSame(books.owner, books.view, view);
      PayloadChanged(mem, bestBet, allocatedBytes, inUseBytes, headers, books, view);
      Rebook(books.(view := view));
    }

    /** The copy of realloc. */
    method CopyPayload(dst: nat, src: nat, n: nat)
      requires Valid() && dst in books.view && src in books.view && dst != src
      requires n <= |books.view[dst]| && n <= |books.view[src]|
      modifies mem, this`books
      ensures Valid()
      ensures books ==
        old(books).(view := old(books).view[dst := old(books).view[src][..n] + old(books).view[dst][n..]])
    {
      hide Shape, Owners, OnLoan, Marks, Bytes, BlockOk, ChunksOk, Requested, Total, TotalSize, MajorsLinked,
          OwnersApart;
      ViewKnown(dst);
      ViewKnown(src);
      ApartOwners(books.majors, books.chunks, books.owner, headers);
      ChunksSplit(books, headers);
      ghost var view := books.view[dst := books.view[src][..n] + books.view[dst][n..]];
      CopyBytes(mem, dst, src, n, books.owner, books.view);
      RequestedSame(books.owner, books.view, view);
      PayloadChanged(mem, bestBet, allocatedBytes, inUseBytes, headers, books, view);
      Rebook(books.(view := view));
    }

    /** Realloc in place: the chunk stays as it is and answers for fewer bytes. */
    method Shrink(p: nat, c: Minor, size: nat)
      requires Valid() && p in books.view && books.owner[p] == c && size <= |books.view[p]|
      modifies this`books, c`reqSize
      ensures Valid()
      ensures books == old(books).(view := old(books).view[p := old(books).view[p][..size]])
    {
      hide Shape, Owners, OnLoan, Marks, Bytes, ChunksOk, Total, TotalSize, MajorsLinked, BlockOk, Requested;
      ViewKnown(p);
      ChunksSplit(books, headers);
      RequestedSplit(books.owner, books.view);
      OwnersInjective(books.chunks, books.owner, headers);
      AnswerFor(c, size, books.chunks);
      ghost var view := books.view[p := books.view[p][..size]];
      ShorterBytes(mem, books.owner, books.view, p, size);
      assert Requested(books.owner, view) by { RequestedJoin(books.owner, view); }
      PayloadChanged(mem, bestBet, allocatedBytes, inUseBytes, headers, books, view);
      Rebook(books.(view := view));
    }

    lemma Placed1(b0: Books, start: Books, order: seq<Major>, p: nat, c: Minor?, j: nat, size: nat, reqSize: nat,
                  grant: nat)
      requires Placement(b0, start, order, p, c, j, size, reqSize, grant)
      ensures c != null && c.size == size && p !in b0.view && p in books.view && |books.view[p]| == reqSize
      ensures books.view == b0.view[p := books.view[p]] && books.owner == b0.owner[p := c]
    {
    }

    /** The second part of a move: copy the first n bytes over and free the source. */
    method CopyAndFree(r: nat, p: nat, n: nat)
      requires Valid() && p in books.view && r in books.view && p != r && n == |books.view[p]| <= |books.view[r]|
      modifies this, mem, books.majors, headers.Values
      ensures Valid() && p in old(books).owner
      ensures books.view == old(books).view[r := old(books).view[p] + old(books).view[r][n..]] - {p}
      ensures inUseBytes == old(inUseBytes) - old(books).owner[p].size
      ensures errors == old(errors) && overruns == old(overruns)
    {
      hide Consistent, Freed, IsLive, Owned, Unmapped, Align, NextBet, Unalign;
      ViewKnown(p);
      CopyPayload(r, p, n);
      ViewKnown(p);
      ghost var c, j, k := Free(p);
      assert old(books).view[p][..n] == old(books).view[p];
    }

    /** The moving half of realloc: a larger chunk, the old bytes copied over, the old chunk freed. */
    method Move(p: nat, realSize: nat, size: nat, grant: nat) returns (r: nat)
      requires Valid() && p in books.view && realSize == |books.view[p]| < size <= MAX_REQUEST
      requires GrantOk(books.majors, grant, PagesFor(PaddedSize(size)))
      requires grant == 0 ==> !Full(books.majors, books.chunks, size + PADDING + HEADER)
      modifies this, mem, books.majors, headers.Values
      ensures Valid()
      ensures r != 0 && r !in old(books).view && r in books.view && |books.view[r]| == size
      ensures old(books).view[p] <= books.view[r]
      ensures books.view == (old(books).view - {p})[r := books.view[r]]
      ensures p in old(books).owner && inUseBytes == old(inUseBytes) - old(books).owner[p].size + size + PADDING
      ensures errors == old(errors) && overruns == old(overruns)
    {
      hide Consistent, Freed, GrantOk, Full, NoRoom, Entered, Started, FirstFit, Surviving, IsLive, Owned,
          Unmapped, PagesFor, Align, NextBet, Unalign, Placement, Order, LookedAt, BetOf;
      ghost var c, j, start;
      ghost var order := Order(books, bestBet, size + PADDING + HEADER);
      ViewKnown(p);
      r, c, j, start := Malloc(size, grant);
      Placed1(old(books), start, order, r, c, j, size + PADDING, size, grant);
      CopyAndFree(r, p, realSize);
    }

    /** What a caller of realloc may pass: null, a pointer it holds, or one it has freed. */
    ghost predicate Passable(p: nat)
      reads this, mem, headers.Values
    {
      p == 0 || p in books.view || (Known(p) && headers[HeaderAddr(p)].magic == DEAD)
    }

    /** Realloc. The copy into the new chunk is made without looking whether malloc succeeded, so
        the caller must know that it will. */
    method Realloc(p: nat, size: nat, grant: nat) returns (r: nat)
      requires Valid() && Passable(p) && size <= MAX_REQUEST
      requires GrantOk(books.majors, grant, PagesFor(PaddedSize(size)))
      requires p in books.view && |books.view[p]| < size && grant == 0 ==>
                !Full(books.majors, books.chunks, size + PADDING + HEADER)
      modifies this, mem, books.majors, headers.Values
      ensures Valid()
      ensures size == 0 ==> r == 0 && books.view == old(books).view - {p}
      ensures size != 0 && p == 0 ==>
        if r == 0 then
          grant == 0 && Full(old(books).majors, old(books).chunks, size + PADDING + HEADER) && books == old(books)
        else
          r !in old(books).view && r in books.view && |books.view[r]| == size
          && books.view == old(books).view[r := books.view[r]]
      ensures size != 0 && p != 0 && p !in old(books).view ==>
        r == 0 && errors == old(errors) + 1 && books == old(books)
      ensures size != 0 && p in old(books).view && size <= |old(books).view[p]| ==>
        r == p && books == old(books).(view := old(books).view[p := old(books).view[p][..size]])
      ensures size != 0 && p in old(books).view && |old(books).view[p]| < size ==>
        && r != 0 && r !in old(books).view && r in books.view && |books.view[r]| == size
        && old(books).view[p] <= books.view[r]
        && books.view == (old(books).view - {p})[r := books.view[r]]
        && inUseBytes == old(inUseBytes) - old(books).owner[p].size + size + PADDING
      ensures errors == old(errors) + (if p != 0 && p !in old(books).view then 1 else 0) && overruns == old(overruns)
    {
      hide Consistent, Freed, GrantOk, Full, NoRoom, Entered, Started, FirstFit, Surviving, Unmapped, Order,
          LookedAt, BetOf, FirstWithRoom;
      r := 0;
      if p in books.view { ViewKnown(p); }
      if size == 0 {
        ghost var c, j, k := Free(p);
        return;
      }
      if p == 0 {
        ghost var c, j, start;
        r, c, j, start := Malloc(size, grant);
        return;
      }
      var ptr := Unalign(p, mem[p - ALIGN_INFO]);
      var min := headers[ptr - HEADER];
      HeaderMark(ptr - HEADER);
      if min.magic != MAGIC {
        BadMagic(min);
        return;
      }
      var realSize := min.reqSize;
      if realSize >= size {
        Shrink(p, min, size);
        return p;
      }
      r := Move(p, realSize, size, grant);
    }
  }
}
