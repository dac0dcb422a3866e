/**
  The invariant of the kernel heap, as predicates over its fields and its ghost books, and how
  each step of malloc and free keeps it.
 */
module HeapBooks {
  import opened AddressSpace
  import opened HeapLayout
  import opened HeapBlock

  /** The ghost side of the heap. */
  datatype Books = Books(
    majors: seq<Major>,              // the block list
    chunks: map<Major, seq<Minor>>,  // each block's chunk list
    owner: map<nat, Minor>,          // the chunk behind each client pointer
    view: map<nat, seq<byte>>,       // the bytes behind each client pointer
    held: map<nat, nat>              // address and number of pages on loan from the page hook
  )

  // ---------------------------------------------------------------- the invariant, piece by piece

  ghost function MajorAt(ms: seq<Major>, k: int): Major? {
    if 0 <= k < |ms| then ms[k] else null
  }

  ghost predicate MajorsLinked(root: Major?, ms: seq<Major>)
    reads ms`prev, ms`next
  {
    && root == MajorAt(ms, 0)
    && forall j {:trigger ms[j].prev} {:trigger ms[j].next} :: 0 <= j < |ms| ==>
         ms[j].prev == MajorAt(ms, j - 1) && ms[j].next == MajorAt(ms, j + 1)
  }

  /** Client pointers and live chunks correspond one to one, and a live chunk's header is the
      one found at its address. */
  ghost predicate Owners(chunks: map<Major, seq<Minor>>, owner: map<nat, Minor>, headers: map<nat, Minor>) {
    && (forall p :: p in owner ==>
          && IsLive(chunks, owner[p]) && Ptr(owner[p]) == p
          && owner[p].addr in headers && headers[owner[p].addr] == owner[p])
    && (forall m, c :: m in chunks && c in chunks[m] ==> c.block == m && Ptr(c) in owner && owner[Ptr(c)] == c)
    && (forall a :: a in headers ==> headers[a].addr == a)
  }

  lemma InScope(chunks: map<Major, seq<Minor>>, owner: map<nat, Minor>, headers: map<nat, Minor>)
    requires Owners(chunks, owner, headers)
    ensures forall m, c: Minor :: m in chunks && c in chunks[m] ==> c in headers.Values
    ensures owner.Values <= headers.Values
  {
    forall m, c: Minor | m in chunks && c in chunks[m] ensures c in headers.Values {
      assert headers[owner[Ptr(c)].addr] == c;
    }
  }

  ghost predicate Owned(owner: map<nat, Minor>, c: Minor) {
    Ptr(c) in owner && owner[Ptr(c)] == c
  }

  /** A header that belongs to no live chunk carries the dead mark, and no live one does. */
  ghost predicate Marks(owner: map<nat, Minor>, headers: map<nat, Minor>)
    reads headers.Values`magic
  {
    forall a :: a in headers ==> headers[a].magic == if Owned(owner, headers[a]) then MAGIC else DEAD
  }

  /** The hidden byte and the payload of every live chunk. */
  ghost predicate Bytes(mem: array<byte>, owner: map<nat, Minor>, view: map<nat, seq<byte>>)
    requires view.Keys == owner.Keys
    reads mem
  {
    forall p :: p in owner ==> BytesAt(mem, owner[p], view[p])
  }

  ghost predicate BytesAt(mem: array<byte>, c: Minor, content: seq<byte>)
    reads mem
  {
    && |content| + PADDING <= c.size && End(c) <= mem.Length && c.addr + HEADER <= HiddenAt(c) < Ptr(c) < End(c)
    && Ptr(c) + |content| <= End(c)
    && mem[HiddenAt(c)] as int == Ptr(c) - (c.addr + HEADER)
    && forall k :: 0 <= k < |content| ==> content[k] == mem[Ptr(c) + k]
  }

  ghost predicate Requested(owner: map<nat, Minor>, view: map<nat, seq<byte>>)
    requires view.Keys == owner.Keys
    reads owner.Values`reqSize
  {
    forall p :: p in owner ==> owner[p].reqSize == |view[p]|
  }

  /** The page hook's own books: every block, and nothing else, is on loan. */
  ghost predicate OnLoan(ms: seq<Major>, held: map<nat, nat>) {
    && (forall m :: m in ms ==> m.addr in held && held[m.addr] == m.pages)
    && (forall a :: a in held ==> exists m :: m in ms && m.addr == a)
  }

  /** Every chunk list but that of `skip`, with the requested sizes the clients know of. */
  ghost predicate ChunksOk(b: Books, headers: map<nat, Minor>, skip: Major?)
    requires Shape(b.majors, b.chunks) && Owners(b.chunks, b.owner, headers) && b.view.Keys == b.owner.Keys
    reads b.majors`first, b.majors`usage, headers.Values
  {
    InScope(b.chunks, b.owner, headers);
    && Requested(b.owner, b.view)
    && (forall m :: m in b.chunks && m != skip ==> BlockOk(m, b.chunks[m]))
  }

  /** No block can hold `n` more contiguous bytes. */
  ghost predicate Full(ms: seq<Major>, chunks: map<Major, seq<Minor>>, n: nat) {
    forall m :: m in ms && m in chunks ==> NoRoom(m, chunks[m], n)
  }

  /** What the page hook may answer: null, or pages no block occupies. */
  ghost predicate GrantOk(ms: seq<Major>, grant: nat, pages: nat) {
    grant != 0 ==>
      && grant + pages * PAGE <= SPACE
      && forall m :: m in ms ==> MajorEnd(m) <= grant || grant + pages * PAGE <= m.addr
  }

  /** A dead header whose bytes the new chunk takes over can no longer be read back. */
  predicate Overwritten(h: Minor, c: Minor) {
    h.addr < End(c) && c.addr < h.addr + HEADER
  }

  function Surviving(headers: map<nat, Minor>, c: Minor): map<nat, Minor> {
    map a | a in headers && !Overwritten(headers[a], c) :: headers[a]
  }

  // ---------------------------------------------------------------- how the pieces are kept

  lemma ShapeInsert(ms: seq<Major>, chunks: map<Major, seq<Minor>>, c: Minor, j: nat)
    requires Shape(ms, chunks) && c.block in ms && c.block in chunks && j <= |chunks[c.block]|
    requires Placed(c.block, InsertAt(chunks[c.block], j, c))
    ensures Shape(ms, chunks[c.block := InsertAt(chunks[c.block], j, c)])
  {
    hide Placed;
  }

  /** A chunk placed in a free range shares neither pointer nor bytes with any live chunk. */
  lemma NewApart(ms: seq<Major>, chunks: map<Major, seq<Minor>>, c: Minor, d: Minor)
    requires Shape(ms, chunks) && IsLive(chunks, d) && c.block in ms && c.block in chunks && PADDING <= c.size
    requires FreeAt(c.block, chunks[c.block], c.addr, HEADER + c.size)
    ensures d != c && Ptr(d) != Ptr(c) && !Overwritten(d, c)
    ensures End(c) <= d.addr || End(d) <= c.addr
  {
    hide Shape, Placed, FreeAt;
    FreeRangeDisjoint(ms, chunks, c, d);
    PayloadInside(c, 0);
    LivePtr(ms, chunks, d);
  }

  lemma OwnersInsert(ms: seq<Major>, chunks: map<Major, seq<Minor>>, owner: map<nat, Minor>, headers: map<nat, Minor>,
                     c: Minor, j: nat)
    requires Shape(ms, chunks) && Owners(chunks, owner, headers) && c.block in ms && c.block in chunks
    requires j <= |chunks[c.block]| && PADDING <= c.size
    requires FreeAt(c.block, chunks[c.block], c.addr, HEADER + c.size)
    ensures Ptr(c) !in owner
    ensures Owners(chunks[c.block := InsertAt(chunks[c.block], j, c)], owner[Ptr(c) := c],
                   Surviving(headers, c)[c.addr := c])
  {
    hide Shape, Placed, FreeAt, InsertAt;
    forall p | p in owner ensures owner[p] != c && p != Ptr(c) && !Overwritten(owner[p], c) && owner[p].addr != c.addr {
      NewApart(ms, chunks, c, owner[p]);
    }
    var chunks' := chunks[c.block := InsertAt(chunks[c.block], j, c)];
    var owner', headers' := owner[Ptr(c) := c], Surviving(headers, c)[c.addr := c];
    forall p | p in owner' ensures IsLive(chunks', owner'[p]) && Ptr(owner'[p]) == p {
      InsertContains(chunks[c.block], j, c, owner'[p]);
    }
    assert forall p :: p in owner' ==> owner'[p].addr in headers' && headers'[owner'[p].addr] == owner'[p];
    forall m, d: Minor | m in chunks' && d in chunks'[m]
      ensures d.block == m && Ptr(d) in owner' && owner'[Ptr(d)] == d
    {
      if d != c {
        InsertContains(chunks[c.block], j, c, d);
      }
    }
  }

  /** What entering a chunk in the books keeps and changes. */
  lemma AdoptPure(ms: seq<Major>, chunks: map<Major, seq<Minor>>, owner: map<nat, Minor>, headers: map<nat, Minor>,
                  c: Minor, j: nat)
    requires Shape(ms, chunks) && Owners(chunks, owner, headers) && c.block in ms && c.block in chunks
    requires j <= |chunks[c.block]| && PADDING <= c.size
    requires FreeAt(c.block, chunks[c.block], c.addr, HEADER + c.size)
    requires Placed(c.block, InsertAt(chunks[c.block], j, c))
    ensures var chunks' := chunks[c.block := InsertAt(chunks[c.block], j, c)];
      && Ptr(c) !in owner && End(c) <= SPACE
      && (forall p :: p in owner ==> owner[p] != c && (End(c) <= owner[p].addr || End(owner[p]) <= c.addr))
      && Shape(ms, chunks')
      && Owners(chunks', owner[Ptr(c) := c], Surviving(headers, c)[c.addr := c])
      && Total(ms, chunks', 0) == Total(ms, chunks, 0) + c.size
  {
    hide Placed, Owners, InsertAt;
    ShapeInsert(ms, chunks, c, j);
    OwnersInsert(ms, chunks, owner, headers, c, j);
    forall p | p in owner ensures owner[p] != c && (End(c) <= owner[p].addr || End(owner[p]) <= c.addr) {
      OwnerLive(chunks, owner, headers, p);
      NewApart(ms, chunks, c, owner[p]);
    }
    var i := IndexOfMajor(ms, c.block);
    TotalUpdate(ms, i, chunks, InsertAt(chunks[c.block], j, c), 0);
    WeightInsert(chunks[c.block], j, c, 0);
  }

  lemma OwnerLive(chunks: map<Major, seq<Minor>>, owner: map<nat, Minor>, headers: map<nat, Minor>, p: nat)
    requires Owners(chunks, owner, headers) && p in owner
    ensures IsLive(chunks, owner[p]) && Ptr(owner[p]) == p
    ensures owner[p].addr in headers && headers[owner[p].addr] == owner[p]
  {
  }

  lemma MarksInsert(owner: map<nat, Minor>, headers: map<nat, Minor>, c: Minor)
    requires Marks(owner, headers) && Ptr(c) !in owner && c !in headers.Values && c.magic == MAGIC
    ensures Marks(owner[Ptr(c) := c], Surviving(headers, c)[c.addr := c])
  {
    forall a | a in headers ensures Owned(owner[Ptr(c) := c], headers[a]) <==> Owned(owner, headers[a]) {
      assert headers[a] in headers.Values;
    }
  }

  lemma BytesInsert(mem: array<byte>, owner: map<nat, Minor>, view: map<nat, seq<byte>>, c: Minor, content: seq<byte>)
    requires view.Keys == owner.Keys && Bytes(mem, owner, view) && BytesAt(mem, c, content)
    ensures Bytes(mem, owner[Ptr(c) := c], view[Ptr(c) := content])
  {
    hide BytesAt;
  }

  ghost function Entered(b: Books, c: Minor, j: nat, content: seq<byte>): Books
    requires c.block in b.chunks && j <= |b.chunks[c.block]|
  {
    b.(chunks := b.chunks[c.block := InsertAt(b.chunks[c.block], j, c)],
       owner := b.owner[Ptr(c) := c],
       view := b.view[Ptr(c) := content])
  }

  lemma EnteredView(b: Books, c: Minor, j: nat, content: seq<byte>)
    requires c.block in b.chunks && j <= |b.chunks[c.block]|
    ensures Entered(b, c, j, content).view == b.view[Ptr(c) := content]
    ensures Entered(b, c, j, content).owner == b.owner[Ptr(c) := c]
  {
  }

  lemma ChunksInsert(b: Books, headers: map<nat, Minor>, c: Minor, j: nat, content: seq<byte>)
    requires c.block in b.chunks && j <= |b.chunks[c.block]| && c.reqSize == |content|
    requires Shape(b.majors, b.chunks) && Owners(b.chunks, b.owner, headers) && b.view.Keys == b.owner.Keys
    requires ChunksOk(b, headers, c.block)
    requires BlockOk(c.block, InsertAt(b.chunks[c.block], j, c))
    requires var b' := Entered(b, c, j, content);
      Shape(b'.majors, b'.chunks) && Owners(b'.chunks, b'.owner, Surviving(headers, c)[c.addr := c])
    ensures ChunksOk(Entered(b, c, j, content), Surviving(headers, c)[c.addr := c], null)
  {
    hide Shape, BlockOk, InsertAt, Owners;
  }

  ghost function Appended(b: Books, maj: Major): Books {
    b.(majors := b.majors + [maj], chunks := b.chunks[maj := []], held := b.held[maj.addr := maj.pages])
  }

  lemma AppendShape(ms: seq<Major>, chunks: map<Major, seq<Minor>>, maj: Major)
    requires Shape(ms, chunks) && BlockFits(maj) && GrantOk(ms, maj.addr, maj.pages)
    ensures maj !in ms && maj !in chunks
    ensures Shape(ms + [maj], chunks[maj := []])
  {
    forall i | 0 <= i < |ms| ensures Apart(ms[i], maj) && ms[i] != maj {
      assert BlockFits(ms[i]) && ms[i] in ms;
    }
    hide Placed, BlockFits, Apart;
    var chunks' := chunks[maj := []];
    assert Placed(maj, []) by { EmptyPlaced(maj); }
  }

  lemma EmptyPlaced(m: Major)
    ensures Placed(m, [])
  {
  }

  lemma AppendOnLoan(ms: seq<Major>, held: map<nat, nat>, maj: Major)
    requires OnLoan(ms, held) && forall m :: m in ms ==> m.addr != maj.addr
    ensures OnLoan(ms + [maj], held[maj.addr := maj.pages])
  {
    var ms' := ms + [maj];
    var held' := held[maj.addr := maj.pages];
    assert maj in ms';
    forall a | a in held' ensures exists m :: m in ms' && m.addr == a {
      if a != maj.addr {
        var m :| m in ms && m.addr == a;
        assert m in ms';
      }
    }
  }

  /** A block of granted pages is none of the blocks there are, and joins them. */
  lemma AppendPure(b: Books, headers: map<nat, Minor>, maj: Major)
    requires Shape(b.majors, b.chunks) && Owners(b.chunks, b.owner, headers) && OnLoan(b.majors, b.held)
    requires BlockFits(maj) && GrantOk(b.majors, maj.addr, maj.pages)
    ensures maj !in b.majors && maj !in b.chunks
    ensures var b' := Appended(b, maj);
      && Shape(b'.majors, b'.chunks) && Owners(b'.chunks, b'.owner, headers) && OnLoan(b'.majors, b'.held)
      && Total(b'.majors, b'.chunks, 0) == Total(b.majors, b.chunks, 0)
      && TotalSize(b'.majors) == TotalSize(b.majors) + maj.size
  {
    AppendShape(b.majors, b.chunks, maj);
    AppendOwners(b.chunks, b.owner, headers, maj);
    GrantFresh(b.majors, b.chunks, b.held, maj.addr, maj.pages);
    hide Shape, Owners, GrantOk, BlockFits, OnLoan;
    AppendOnLoan(b.majors, b.held, maj);
    AppendTotals(b.majors, b.chunks, maj);
  }

  lemma ShapeHas(ms: seq<Major>, chunks: map<Major, seq<Minor>>, m: Major)
    requires Shape(ms, chunks) && m in ms
    ensures BlockFits(m) && m in chunks && Placed(m, chunks[m])
  {
  }

  lemma GrantFresh(ms: seq<Major>, chunks: map<Major, seq<Minor>>, held: map<nat, nat>, grant: nat, pages: nat)
    requires Shape(ms, chunks) && OnLoan(ms, held) && grant != 0 && pages > 0 && GrantOk(ms, grant, pages)
    ensures grant !in held
    ensures forall m :: m in ms ==> m.addr != grant
  {
    forall m | m in ms ensures m.addr != grant {
      ShapeHas(ms, chunks, m);
    }
  }

  lemma MajorsDistinct(ms: seq<Major>, chunks: map<Major, seq<Minor>>)
    requires Shape(ms, chunks)
    ensures forall i, k :: 0 <= i < k < |ms| ==> ms[i] != ms[k]
  {
    forall i, k | 0 <= i < k < |ms| ensures ms[i] != ms[k] {
      assert BlockFits(ms[i]) && Apart(ms[i], ms[k]);
    }
  }

  lemma AppendOwners(chunks: map<Major, seq<Minor>>, owner: map<nat, Minor>, headers: map<nat, Minor>, maj: Major)
    requires Owners(chunks, owner, headers) && maj !in chunks
    ensures Owners(chunks[maj := []], owner, headers)
  {
  }

  lemma AppendTotals(ms: seq<Major>, chunks: map<Major, seq<Minor>>, maj: Major)
    requires maj !in chunks && forall m :: m in ms ==> m in chunks
    ensures Total(ms + [maj], chunks[maj := []], 0) == Total(ms, chunks, 0)
    ensures TotalSize(ms + [maj]) == TotalSize(ms) + maj.size
  {
    var chunks' := chunks[maj := []];
    TotalSame(ms, chunks, chunks', 0);
    TotalConcat(ms, [maj], chunks', 0);
    assert Total([maj], chunks', 0) == 0;
    assert TotalSize([maj]) == maj.size;
  }

  lemma BlockOfBooks(b: Books, headers: map<nat, Minor>, m: Major)
    requires Shape(b.majors, b.chunks) && Owners(b.chunks, b.owner, headers) && b.view.Keys == b.owner.Keys
    requires ChunksOk(b, headers, null) && m in b.majors
    ensures m in b.chunks && BlockOk(m, b.chunks[m])
    ensures forall c :: c in b.chunks[m] ==> c in headers.Values
  {
    InScope(b.chunks, b.owner, headers);
  }

  lemma ChunksSplit(b: Books, headers: map<nat, Minor>)
    requires Shape(b.majors, b.chunks) && Owners(b.chunks, b.owner, headers) && b.view.Keys == b.owner.Keys
    requires ChunksOk(b, headers, null)
    ensures Requested(b.owner, b.view)
    ensures forall m :: m in b.chunks ==> BlockOk(m, b.chunks[m])
    ensures forall m, k :: m in b.chunks && 0 <= k < |b.chunks[m]| ==> b.chunks[m][k].block == m
  {
    hide BlockOk;
  }

  lemma ChunksJoin(b: Books, headers: map<nat, Minor>, skip: Major)
    requires Shape(b.majors, b.chunks) && Owners(b.chunks, b.owner, headers) && b.view.Keys == b.owner.Keys
    requires Requested(b.owner, b.view)
    requires forall m :: m in b.chunks && m != skip ==> BlockOk(m, b.chunks[m])
    ensures ChunksOk(b, headers, skip)
  {
    hide BlockOk;
  }

  /** What the code reads off the block at position i: its free byte count, which must reach `n`
      for the block to have room, and its neighbour in the list. */
  lemma BlockAt(b: Books, headers: map<nat, Minor>, root: Major?, i: nat, n: nat)
    requires Shape(b.majors, b.chunks) && Owners(b.chunks, b.owner, headers) && b.view.Keys == b.owner.Keys
    requires ChunksOk(b, headers, null) && MajorsLinked(root, b.majors) && i < |b.majors| && n > 0
    ensures var m := b.majors[i];
      && m in b.chunks && m.usage <= m.size && (b.chunks[m] == [] ==> m.usage == HEADER)
      && m.size - m.usage == FreeIn(b, m)
      && (m.size - m.usage < n ==> NoRoom(m, b.chunks[m], n))
      && m.next == MajorAt(b.majors, i + 1) && root == b.majors[0]
  {
    var m := b.majors[i];
    ShapeHas(b.majors, b.chunks, m);
    BlockOfBooks(b, headers, m);
    WeightBound(b.chunks[m], m.addr + HEADER, MajorEnd(m)) by { PlacedFacts(m, b.chunks[m]); }
    if m.size - m.usage < n {
      ShortageMeansNoRoom(m, b.chunks[m], n);
    }
  }

  /** The books a malloc of `size` padded bytes places its chunk in: those there were, or with the
      granted block appended when nothing there had room. */
  ghost predicate Started(b0: Books, b: Books, grant: nat, size: nat) {
    if Full(b0.majors, b0.chunks, size + HEADER) then
      grant != 0 && |b.majors| > 0 && var m := b.majors[|b.majors| - 1];
      m.addr == grant && m.pages == PagesFor(size) && BlockFits(m) && m !in b0.majors && b == Appended(b0, m)
    else
      b == b0
  }

  ghost predicate NoRoomBefore(b: Books, i: nat, n: nat) {
    forall k ::
      0 <= k < i && k < |b.majors| ==> b.majors[k] in b.chunks && NoRoom(b.majors[k], b.chunks[b.majors[k]], n)
  }

  lemma NoRoomNext(b: Books, i: nat, n: nat)
    requires NoRoomBefore(b, i, n) && i < |b.majors| && b.majors[i] in b.chunks
      && NoRoom(b.majors[i], b.chunks[b.majors[i]], n)
    ensures NoRoomBefore(b, i + 1, n)
    ensures i + 1 == |b.majors| ==> Full(b.majors, b.chunks, n)
  {
    hide NoRoom;
  }

  /** Bytes of a block that neither chunks nor headers take. */
  ghost function FreeIn(b: Books, m: Major): int
    requires m in b.chunks
  {
    m.size - HEADER - Weight(b.chunks[m], HEADER)
  }

  /** The blocks from m on. */
  function From(ms: seq<Major>, m: Major): seq<Major> {
    if ms == [] || ms[0] == m then ms else From(ms[1..], m)
  }

  /** The order in which malloc looks at the blocks: from the best bet on and then all, if the best bet has
      more than n bytes free, else all from the root on. */
  ghost function Order(b: Books, bet: Major?, n: nat): seq<Major> {
    if bet != null && bet in b.chunks && FreeIn(b, bet) > n then From(b.majors, bet) + b.majors else b.majors
  }

  /** The first v blocks of an order have no room. */
  ghost predicate Passed(b: Books, order: seq<Major>, v: nat, n: nat) {
    v <= |order| && forall k :: 0 <= k < v ==> order[k] in b.chunks && NoRoom(order[k], b.chunks[order[k]], n)
  }

  /** m is the first block of the order that has room. */
  ghost predicate FirstWithRoom(b: Books, order: seq<Major>, m: Major, n: nat) {
    m in b.chunks && !NoRoom(m, b.chunks[m], n)
    && exists v :: 0 <= v < |order| && order[v] == m && Passed(b, order, v, n)
  }

  /** At place v of the order, which is block i: what lies ahead, and that nothing behind has room. */
  ghost predicate Standing(b: Books, order: seq<Major>, v: nat, i: nat, startedBet: bool, n: nat) {
    && Passed(b, order, v, n) && v < |order| && i < |b.majors|
    && order[v..] == if startedBet then b.majors[i..] + b.majors else b.majors[i..]
  }

  lemma StandNext(b: Books, order: seq<Major>, v: nat, i: nat, startedBet: bool, n: nat)
    requires Standing(b, order, v, i, startedBet, n) && b.majors[i] in b.chunks
    requires NoRoom(b.majors[i], b.chunks[b.majors[i]], n)
    ensures i + 1 < |b.majors| ==> Standing(b, order, v + 1, i + 1, startedBet, n)
    ensures i + 1 == |b.majors| && startedBet ==> Standing(b, order, v + 1, 0, false, n)
    ensures i + 1 == |b.majors| && !startedBet ==> v + 1 == |order| && Passed(b, order, |order|, n)
  {
    hide NoRoom;
    assert order[v] == order[v..][0] == b.majors[i];
    assert order[v + 1..] == order[v..][1..];
    assert b.majors[i..][1..] == b.majors[i + 1..];
    if startedBet {
      assert order[v + 1..] == b.majors[i + 1..] + b.majors;
      assert b.majors[|b.majors|..] + b.majors == b.majors[0..];
    }
  }

  lemma StandHere(b: Books, order: seq<Major>, v: nat, i: nat, startedBet: bool, n: nat)
    requires Standing(b, order, v, i, startedBet, n)
    ensures v < |order| && order[v] == b.majors[i] && Passed(b, order, v, n)
  {
    assert order[v] == order[v..][0];
  }

  lemma {:induction false} FromIndex(ms: seq<Major>, m: Major) returns (i: nat)
    requires m in ms
    ensures i < |ms| && ms[i] == m && From(ms, m) == ms[i..]
  {
    i := 0;
    if ms[0] != m {
      i := FromIndex(ms[1..], m);
      i := i + 1;
    }
  }

  /** Where malloc begins to look. */
  lemma StandFirst(b: Books, bet: Major?, n: nat) returns (i: nat)
    requires b.majors != [] && (forall m :: m in b.majors ==> m in b.chunks) && (bet != null ==> bet in b.majors)
    ensures var started := bet != null && FreeIn(b, bet) > n;
      && i < |b.majors| && (if started then b.majors[i] == bet else i == 0)
      && Standing(b, Order(b, bet, n), 0, i, started, n)
  {
    i := 0;
    if bet != null && FreeIn(b, bet) > n {
      i := FromIndex(b.majors, bet);
    }
  }

  // ---------------------------------------------------------------- the best bet

  ghost function SizeOf(b: Books, bet: Major?): int {
    if bet != null && bet in b.chunks then FreeIn(b, bet) else 0
  }

  /** The best bet after looking at the blocks in `seen`. */
  ghost function BetOf(b: Books, bet: Major?, seen: seq<Major>): Major? {
    if seen == [] then bet
    else
      var prev, last := BetOf(b, bet, seen[..|seen| - 1]), seen[|seen| - 1];
      if last in b.chunks && SizeOf(b, prev) < FreeIn(b, last) then last else prev
  }

  /** It has at least as much free as it had and as every block seen; it changes only for the better. */
  lemma {:induction false} BetMeans(b: Books, bet: Major?, seen: seq<Major>)
    ensures var bet' := BetOf(b, bet, seen);
      && (bet' == bet || bet' in seen) && SizeOf(b, bet) <= SizeOf(b, bet')
      && (bet' != bet ==> SizeOf(b, bet) < SizeOf(b, bet'))
      && forall m :: m in seen && m in b.chunks ==> FreeIn(b, m) <= SizeOf(b, bet')
    decreases |seen|
  {
    if seen != [] {
      BetMeans(b, bet, seen[..|seen| - 1]);
      assert seen == seen[..|seen| - 1] + [seen[|seen| - 1]];
    }
  }

  /** What malloc keeps in mind. */
  ghost predicate Remembered(b: Books, bet0: Major?, seen: seq<Major>, bet: Major?, best: int) {
    bet == BetOf(b, bet0, seen) && best == SizeOf(b, bet)
  }

  lemma RememberNone(b: Books, bet: Major?)
    ensures Remembered(b, bet, [], bet, SizeOf(b, bet))
  {
  }

  lemma RememberNext(b: Books, bet0: Major?, seen: seq<Major>, bet: Major?, best: int, m: Major)
    requires Remembered(b, bet0, seen, bet, best) && m in b.chunks
    ensures best < FreeIn(b, m) ==> Remembered(b, bet0, seen + [m], m, FreeIn(b, m))
    ensures best >= FreeIn(b, m) ==> Remembered(b, bet0, seen + [m], bet, best)
  {
    assert (seen + [m])[..|seen|] == seen;
  }

  /** A block appended does not change what was seen before. */
  lemma {:induction false} BetAppended(b: Books, m: Major, bet: Major?, seen: seq<Major>)
    requires m !in seen && m != bet
    ensures BetOf(Appended(b, m), bet, seen) == BetOf(b, bet, seen) != m
    decreases |seen|
  {
    if seen != [] {
      BetAppended(b, m, bet, seen[..|seen| - 1]);
      assert seen[|seen| - 1] in seen;
    }
  }

  lemma RememberAppended(b: Books, m: Major, bet0: Major?, seen: seq<Major>, bet: Major?, best: int)
    requires Remembered(b, bet0, seen, bet, best) && m !in seen && m != bet0
    ensures Remembered(Appended(b, m), bet0, seen, bet, best)
  {
    BetAppended(b, m, bet0, seen);
  }

  /** The blocks malloc looks at up to the first with room. */
  ghost function Seen(b: Books, order: seq<Major>, n: nat): seq<Major> {
    if order == [] then []
    else if order[0] in b.chunks && NoRoom(order[0], b.chunks[order[0]], n) then [order[0]] + Seen(b, order[1..], n)
    else [order[0]]
  }

  lemma {:induction false} SeenAll(b: Books, order: seq<Major>, n: nat)
    requires Passed(b, order, |order|, n)
    ensures Seen(b, order, n) == order
  {
    hide NoRoom;
    if order != [] {
      assert forall k :: 0 <= k < |order| - 1 ==> order[1..][k] == order[k + 1];
      SeenAll(b, order[1..], n);
    }
  }

  lemma {:induction false} SeenUpTo(b: Books, order: seq<Major>, v: nat, n: nat)
    requires Passed(b, order, v, n) && v < |order|
    requires !(order[v] in b.chunks && NoRoom(order[v], b.chunks[order[v]], n))
    ensures Seen(b, order, n) == order[..v + 1]
  {
    hide NoRoom;
    if v > 0 {
      assert order[0] in b.chunks;
      assert forall k :: 0 <= k < |order| - 1 ==> order[1..][k] == order[k + 1];
      SeenUpTo(b, order[1..], v - 1, n);
      assert [order[0]] + order[1..][..v] == order[..v + 1];
    }
  }

  /** The last block had enough bytes free in all, if there is a block. */
  ghost predicate Scattered(b: Books, n: nat) {
    b.majors != [] ==>
      var last := b.majors[|b.majors| - 1];
      last in b.chunks && FreeIn(b, last) >= n
  }

  /** What malloc looks at in all. The block it asks for is looked at like the others, unless the last one
      did not have the bytes: then it goes straight there. */
  ghost function LookedAt(b: Books, order: seq<Major>, n: nat, got: Major?): seq<Major> {
    Seen(b, order, n) + if got != null && Scattered(b, n) then [got] else []
  }

  // ---------------------------------------------------------------- the search

  /** The search has come to its end, and there are no pages. */
  ghost predicate NoPlace(b: Books, order: seq<Major>, v: nat, n: nat, grant: nat) {
    grant == 0 && Full(b.majors, b.chunks, n) && Passed(b, order, |order|, n) && v + 1 == |order|
  }

  ghost predicate HasBytes(b: Books, m: Major, n: nat) {
    m in b.chunks && FreeIn(b, m) >= n
  }

  /** m is the last block to look at, and the last of all. */
  ghost predicate AtLast(b: Books, order: seq<Major>, v: nat, m: Major) {
    v + 1 == |order| && b.majors != [] && m == b.majors[|b.majors| - 1] && m in b.chunks
  }

  /** Where the block of a placement was found. */
  ghost predicate Hit(b0: Books, start: Books, order: seq<Major>, v: nat, m: Major, grown: bool, n: nat) {
    if start == b0 then
      !grown && v < |order| && Seen(b0, order, n) == order[..v + 1]
    else
      grown || (AtLast(b0, order, v, m) && !HasBytes(b0, m, n))
  }

  /** Where the search of malloc stands: at block i of `b`, place v of its order. While it has not asked
      for pages, `b` is what it began with, and once it walks from the root every earlier block is full.
      After it has asked, it stands at the fresh block, which has room. */
  ghost predicate Searching(b0: Books, b: Books, order: seq<Major>, v: nat, maj: Major, i: nat, startedBet: bool,
                            grown: bool, size: nat, grant: nat) {
    && i < |b.majors| && maj == b.majors[i] && maj in b.chunks
    && if grown then
         !startedBet && Full(b0.majors, b0.chunks, size + HEADER) && Started(b0, b, grant, size) && i == |b.majors| - 1
         && b.chunks[maj] == [] && HEADER + size + HEADER <= maj.size && !NoRoom(maj, [], size + HEADER)
         && Passed(b0, order, |order|, size + HEADER)
       else
         b == b0 && (startedBet || NoRoomBefore(b, i, size + HEADER))
         && Standing(b, order, v, i, startedBet, size + HEADER)
  }

  lemma SearchGrown(b0: Books, order: seq<Major>, v: nat, maj: Major, size: nat, grant: nat, req: nat)
    requires req <= MAX_REQUEST && size == PaddedSize(req)
    requires Full(b0.majors, b0.chunks, size + HEADER) && maj !in b0.majors && maj.addr == grant != 0
    requires Passed(b0, order, |order|, size + HEADER)
    requires maj.pages == PagesFor(size) && BlockFits(maj)
    ensures Searching(b0, Appended(b0, maj), order, v, maj, |b0.majors|, false, true, size, grant)
  {
    FreshHasRoom(maj, size, req);
  }

  /** At a block of a search: how it is linked and filled, and that only an old block can be short. */
  lemma SearchAt(b0: Books, b: Books, order: seq<Major>, v: nat, headers: map<nat, Minor>, root: Major?, maj: Major,
                 i: nat, startedBet: bool, grown: bool, size: nat, grant: nat)
    requires Shape(b.majors, b.chunks) && Owners(b.chunks, b.owner, headers) && b.view.Keys == b.owner.Keys
    requires ChunksOk(b, headers, null) && MajorsLinked(root, b.majors)
    requires Searching(b0, b, order, v, maj, i, startedBet, grown, size, grant)
    ensures i < |b.majors| && maj in b.majors && maj in b.chunks && maj.usage <= maj.size
    ensures maj.size - maj.usage == FreeIn(b, maj)
    ensures maj.size - maj.usage < size + HEADER ==> !grown && NoRoom(maj, b.chunks[maj], size + HEADER)
    ensures grown ==>
      && !startedBet && b.chunks[maj] == [] && HEADER + size + HEADER <= maj.size
      && !NoRoom(maj, b.chunks[maj], size + HEADER)
    ensures !grown ==> b == b0
  {
    BlockAt(b, headers, root, i, size + HEADER);
  }

  lemma SearchHit(b0: Books, b: Books, order: seq<Major>, v: nat, maj: Major, i: nat, startedBet: bool, grown: bool,
                  size: nat, grant: nat, a: nat)
    requires Searching(b0, b, order, v, maj, i, startedBet, grown, size, grant)
    requires FirstFit(maj, b.chunks[maj], a, size + HEADER)
    ensures Started(b0, b, grant, size) && b.view == b0.view && b.owner == b0.owner
      && (b != b0 ==> maj == b.majors[|b.majors| - 1])
    ensures b == b0 || b.chunks == b0.chunks[maj := []]
    ensures grant == 0 ==> !Full(b0.majors, b0.chunks, size + HEADER)
    ensures b == b0 ==> FirstWithRoom(b0, order, maj, size + HEADER)
    ensures grown <==> b != b0
    ensures !grown ==> v < |order| && Seen(b0, order, size + HEADER) == order[..v + 1]
  {
    hide FirstFit, Passed, Standing, Seen;
    HitHasRoom(maj, b.chunks[maj], a, size + HEADER);
    if !grown {
      StandHere(b, order, v, i, startedBet, size + HEADER);
      HitSeen(b, order, v, size + HEADER);
    }
  }

  lemma HitHasRoom(m: Major, s: seq<Minor>, a: nat, n: nat)
    requires FirstFit(m, s, a, n)
    ensures !NoRoom(m, s, n)
  {
    assert FreeAt(m, s, a, n);
  }

  lemma HitSeen(b: Books, order: seq<Major>, v: nat, n: nat)
    requires Passed(b, order, v, n) && v < |order| && order[v] in b.chunks && !NoRoom(order[v], b.chunks[order[v]], n)
    ensures FirstWithRoom(b, order, order[v], n) && Seen(b, order, n) == order[..v + 1]
  {
    hide NoRoom;
    SeenUpTo(b, order, v, n);
  }

  // ---------------------------------------------------------------- the best bet over a whole search

  lemma {:induction false} FromIn(ms: seq<Major>, m: Major)
    ensures forall x :: x in From(ms, m) ==> x in ms
  {
    if ms != [] && ms[0] != m {
      FromIn(ms[1..], m);
    }
  }

  lemma OrderIn(b: Books, bet: Major?, n: nat)
    ensures forall m :: m in Order(b, bet, n) ==> m in b.majors
  {
    if bet != null {
      FromIn(b.majors, bet);
    }
  }

  lemma StandsAt(b0: Books, b: Books, order: seq<Major>, v: nat, maj: Major, i: nat, startedBet: bool, grown: bool,
                 size: nat, grant: nat)
    requires Searching(b0, b, order, v, maj, i, startedBet, grown, size, grant)
    ensures !grown ==> v < |order| && order[v] == maj && b == b0
    ensures grown ==> b == Appended(b0, maj) && Full(b0.majors, b0.chunks, size + HEADER) && maj !in b0.majors
  {
    hide Full, NoRoom, Passed;
    if !grown {
      StandHere(b, order, v, i, startedBet, size + HEADER);
    }
  }

  /** What malloc knows while it looks: where it stands, and the best bet among the blocks seen. */
  ghost predicate Looking(b0: Books, b: Books, order: seq<Major>, v: nat, bet0: Major?, seen: seq<Major>, maj: Major,
                          i: nat, startedBet: bool, grown: bool, size: nat, grant: nat, bet: Major?, best: int) {
    && Searching(b0, b, order, v, maj, i, startedBet, grown, size, grant)
    && Remembered(b, bet0, seen, bet, best)
    && (forall m :: m in order ==> m in b0.majors && m in b0.chunks) && (bet0 != null ==> bet0 in b0.majors)
    && if grown then seen == order && Scattered(b0, size + HEADER) else v <= |order| && seen == order[..v]
  }

  lemma LookFirst(b0: Books, b: Books, bet0: Major?, maj: Major, i: nat, startedBet: bool, grown: bool, size: nat,
                  grant: nat, best: int)
    requires var order := Order(b0, bet0, size + HEADER);
      && Searching(b0, b, order, 0, maj, i, startedBet, grown, size, grant)
      && (grown ==> order == [] && b0.majors == [])
    requires Remembered(b0, bet0, [], bet0, best) && (bet0 != null ==> bet0 in b0.majors)
    requires forall m :: m in b0.majors ==> m in b0.chunks
    ensures Looking(b0, b, Order(b0, bet0, size + HEADER), 0, bet0, [], maj, i, startedBet, grown, size, grant,
                    bet0, best)
  {
    hide Full, NoRoom, Order;
    var order := Order(b0, bet0, size + HEADER);
    OrderIn(b0, bet0, size + HEADER);
    StandsAt(b0, b, order, 0, maj, i, startedBet, grown, size, grant);
    if grown {
      RememberAppended(b0, maj, bet0, [], bet0, best);
    }
  }

  lemma LookFirstNone(b0: Books, bet0: Major?, n: nat, best: int)
    requires Remembered(b0, bet0, [], bet0, best) && Order(b0, bet0, n) == []
    ensures bet0 == BetOf(b0, bet0, LookedAt(b0, Order(b0, bet0, n), n, null))
  {
  }

  /** On to the next block. */
  lemma LookNext(b0: Books, b: Books, b': Books, order: seq<Major>, v: nat, bet0: Major?, seen: seq<Major>, maj: Major,
                 i: nat, startedBet: bool, bet: Major?, best: int, maj': Major, i': nat, startedBet': bool,
                 grown': bool, size: nat, grant: nat, bet': Major?, best': int)
    requires Looking(b0, b, order, v, bet0, seen, maj, i, startedBet, false, size, grant, bet, best)
    requires Remembered(b, bet0, seen + [maj], bet', best')
    requires Searching(b0, b', order, v + 1, maj', i', startedBet', grown', size, grant)
    requires grown' ==> AtLast(b0, order, v, maj) && HasBytes(b0, maj, size + HEADER)
    ensures Looking(b0, b', order, v + 1, bet0, seen + [maj], maj', i', startedBet', grown', size, grant, bet', best')
  {
    hide Full, NoRoom;
    StandsAt(b0, b, order, v, maj, i, startedBet, false, size, grant);
    StandsAt(b0, b', order, v + 1, maj', i', startedBet', grown', size, grant);
    assert order[..v] + [order[v]] == order[..v + 1];
    if grown' {
      assert order[..|order|] == order;
      RememberAppended(b0, maj', bet0, order, bet', best');
    }
  }

  /** The search ends without a place. */
  lemma LookNone(b0: Books, b: Books, order: seq<Major>, v: nat, bet0: Major?, seen: seq<Major>, maj: Major, i: nat,
                 startedBet: bool, size: nat, grant: nat, bet: Major?, best: int, bet': Major?, best': int)
    requires Looking(b0, b, order, v, bet0, seen, maj, i, startedBet, false, size, grant, bet, best)
    requires Remembered(b, bet0, seen + [maj], bet', best') && NoPlace(b0, order, v, size + HEADER, grant)
    ensures bet' == BetOf(b0, bet0, LookedAt(b0, order, size + HEADER, null))
  {
    hide Full, NoRoom;
    StandsAt(b0, b, order, v, maj, i, startedBet, false, size, grant);
    assert order[..v] + [order[v]] == order[..v + 1] && order[..|order|] == order;
    SeenAll(b0, order, size + HEADER);
    assert LookedAt(b0, order, size + HEADER, null) == order;
  }

  /** The search ends in the block a chunk was placed in: one there was, or the fresh one. */
  lemma LookHit(b0: Books, b: Books, start: Books, order: seq<Major>, v: nat, bet0: Major?, seen: seq<Major>,
                maj: Major, block: Major, i: nat, startedBet: bool, grown: bool, size: nat, grant: nat, bet: Major?,
                best: int, bet': Major?, best': int)
    requires Looking(b0, b, order, v, bet0, seen, maj, i, startedBet, grown, size, grant, bet, best)
    requires Remembered(b, bet0, seen + [maj], bet', best') && Hit(b0, start, order, v, maj, grown, size + HEADER)
    requires Started(b0, start, grant, size) && (start != b0 && grown ==> maj == block)
    requires start != b0 ==> |start.majors| > 0 && block == start.majors[|start.majors| - 1]
    ensures bet' == BetOf(start, bet0,
                          LookedAt(b0, order, size + HEADER, if start == b0 then null else block))
  {
    hide Searching, Full, NoRoom, Started, Seen, FreeIn;
    var n := size + HEADER;
    StandsAt(b0, b, order, v, maj, i, startedBet, grown, size, grant);
    StartedAt(b0, start, block, grant, size);
    assert v < |order| ==> order[..v] + [order[v]] == order[..v + 1] && order[..|order|] == order;
    if start == b0 {
      assert LookedAt(b0, order, n, null) == seen + [maj];
    } else {
      FullPassed(b0, order, n);
      SeenAll(b0, order, n);
      if grown {
        assert LookedAt(b0, order, n, block) == seen + [maj];
      } else {
        RememberAppended(b0, block, bet0, order, bet', best');
        assert LookedAt(b0, order, n, block) == order;
      }
    }
  }

  lemma OrderEmpty(b: Books, bet: Major?, n: nat)
    requires b.majors == [] && (bet != null ==> bet in b.majors)
    ensures Order(b, bet, n) == []
  {
  }

  lemma StartedAt(b0: Books, start: Books, block: Major, grant: nat, size: nat)
    requires Started(b0, start, grant, size)
    requires start != b0 ==> |start.majors| > 0 && block == start.majors[|start.majors| - 1]
    ensures start != b0 ==>
      Full(b0.majors, b0.chunks, size + HEADER) && start == Appended(b0, block) && block !in b0.majors
  {
    hide Full;
  }

  lemma FullPassed(b: Books, order: seq<Major>, n: nat)
    requires Full(b.majors, b.chunks, n) && forall m :: m in order ==> m in b.majors && m in b.chunks
    ensures Passed(b, order, |order|, n)
  {
    hide NoRoom;
  }

  lemma NoRoomNone(b: Books, n: nat)
    ensures NoRoomBefore(b, 0, n)
  {
  }

  lemma EnteredNonEmpty(b0: Books, b: Books, c: Minor, j: nat, content: seq<byte>)
    requires c.block in b.chunks && j <= |b.chunks[c.block]|
    requires forall m :: m in b0.chunks ==> b0.chunks[m] != []
    requires b == b0 || b.chunks == b0.chunks[c.block := []]
    ensures forall m :: m in Entered(b, c, j, content).chunks ==> Entered(b, c, j, content).chunks[m] != []
  {
  }

  /** A malloc adds at most one block and one header. */
  lemma PlacedMajors(b0: Books, start: Books, c: Minor, j: nat, content: seq<byte>, grant: nat, size: nat)
    requires Started(b0, start, grant, size) && c.block in start.chunks && j <= |start.chunks[c.block]|
    requires start != b0 ==> |start.majors| > 0 && c.block == start.majors[|start.majors| - 1]
    ensures Entered(start, c, j, content).majors == if start == b0 then b0.majors else b0.majors + [c.block]
  {
  }

  lemma SurvivingValues(headers: map<nat, Minor>, c: Minor)
    ensures Surviving(headers, c)[c.addr := c].Values <= headers.Values + {c}
  {
  }

  lemma RootOf(root: Major?, ms: seq<Major>)
    requires MajorsLinked(root, ms)
    ensures root == MajorAt(ms, 0)
  {
  }

  /** A fresh block always takes the chunk it was asked for. */
  lemma FreshHasRoom(m: Major, size: nat, req: nat)
    requires req <= MAX_REQUEST && size == PaddedSize(req) && m.pages == PagesFor(size) && BlockFits(m)
    ensures HEADER + size + HEADER <= m.size
    ensures !NoRoom(m, [], size + HEADER)
  {
    RequestArithmetic(req);
    assert FreeAt(m, [], m.addr + HEADER, size + HEADER);
  }

  lemma ChunksAppend(b: Books, headers: map<nat, Minor>, maj: Major)
    requires Shape(b.majors, b.chunks) && Owners(b.chunks, b.owner, headers) && b.view.Keys == b.owner.Keys
    requires ChunksOk(b, headers, null) && maj.usage == HEADER && maj.first == null
    requires var b' := Appended(b, maj); Shape(b'.majors, b'.chunks) && Owners(b'.chunks, b'.owner, headers)
    ensures ChunksOk(Appended(b, maj), headers, null)
  {
    hide Shape, Owners;
  }

  lemma FirstLinked(maj: Major)
    requires maj.prev == null && maj.next == null
    ensures MajorsLinked(maj, [] + [maj])
  {
  }

  /** Make `maj` the last block of the list. */
  method LinkMajor(last: Major, maj: Major, ghost root: Major?, ghost ms: seq<Major>)
    requires MajorsLinked(root, ms) && ms != [] && last == ms[|ms| - 1]
    requires forall i, k :: 0 <= i < k < |ms| ==> ms[i] != ms[k]
    requires maj !in ms && maj.prev == null && maj.next == null
    modifies last`next, maj`prev
    ensures MajorsLinked(root, ms + [maj]) && last.next == maj
  {
    last.next := maj;
    last.next.prev := last;
  }

  // ---------------------------------------------------------------- taking a chunk, or a block, out

  /** The books without chunk `c`, the j-th of its block. */
  ghost function Left(b: Books, c: Minor, j: nat): Books
    requires c.block in b.chunks && j < |b.chunks[c.block]|
  {
    b.(chunks := b.chunks[c.block := RemoveAt<Minor>(b.chunks[c.block], j)],
       owner := b.owner - {Ptr(c)},
       view := b.view - {Ptr(c)})
  }

  lemma LeavePure(b: Books, headers: map<nat, Minor>, c: Minor, j: nat)
    requires Shape(b.majors, b.chunks) && Owners(b.chunks, b.owner, headers) && b.view.Keys == b.owner.Keys
    requires c.block in b.chunks && j < |b.chunks[c.block]| && b.chunks[c.block][j] == c
    ensures Owned(b.owner, c)
    ensures var b' := Left(b, c, j);
      && b'.owner == b.owner - {Ptr(c)} && b'.view == b.view - {Ptr(c)} && b'.majors == b.majors && b'.held == b.held
      && Shape(b'.majors, b'.chunks) && Owners(b'.chunks, b'.owner, headers) && b'.view.Keys == b'.owner.Keys
      && Total(b'.majors, b'.chunks, 0) + c.size == Total(b.majors, b.chunks, 0)
  {
    hide Owners, Placed, Shape, RemoveAt, Weight, Total, IsLive;
    var m := c.block;
    ChunkOwned(b.chunks, b.owner, headers, c);
    LeaveOwners(b.majors, b.chunks, b.owner, headers, c, j);
    KeysOf(b.majors, b.chunks);
    LeaveShape(b.majors, b.chunks, m, j);
    var i := BlockIndex(b.majors, b.chunks, m);
    TotalUpdate(b.majors, i, b.chunks, RemoveAt<Minor>(b.chunks[m], j), 0);
    WeightRemove(b.chunks[m], j, 0);
  }

  lemma ChunkOwned(chunks: map<Major, seq<Minor>>, owner: map<nat, Minor>, headers: map<nat, Minor>, c: Minor)
    requires Owners(chunks, owner, headers) && c.block in chunks && c in chunks[c.block]
    ensures Owned(owner, c) && c.addr in headers && headers[c.addr] == c
  {
  }

  lemma KeysOf(ms: seq<Major>, chunks: map<Major, seq<Minor>>)
    requires Shape(ms, chunks)
    ensures forall m :: m in ms <==> m in chunks
  {
  }

  lemma BlockIndex(ms: seq<Major>, chunks: map<Major, seq<Minor>>, m: Major) returns (k: nat)
    requires Shape(ms, chunks) && m in chunks
    ensures k < |ms| && ms[k] == m && forall i :: 0 <= i < |ms| && i != k ==> ms[i] != ms[k]
  {
    hide Placed, BlockFits, Apart;
    k := IndexOfMajor(ms, m);
  }

  lemma LeaveShape(ms: seq<Major>, chunks: map<Major, seq<Minor>>, m: Major, j: nat)
    requires Shape(ms, chunks) && m in chunks && j < |chunks[m]|
    ensures Shape(ms, chunks[m := RemoveAt<Minor>(chunks[m], j)])
  {
    hide Placed, BlockFits, Apart, RemoveAt;
    PlacedRemove(m, chunks[m], j);
  }

  lemma LeaveOwners(ms: seq<Major>, chunks: map<Major, seq<Minor>>, owner: map<nat, Minor>, headers: map<nat, Minor>,
                    c: Minor, j: nat)
    requires Shape(ms, chunks) && Owners(chunks, owner, headers)
    requires c.block in chunks && j < |chunks[c.block]| && chunks[c.block][j] == c
    ensures Owners(chunks[c.block := RemoveAt<Minor>(chunks[c.block], j)], owner - {Ptr(c)}, headers)
  {
    hide Shape, Placed, RemoveAt;
    var m := c.block;
    KeysOf(ms, chunks);
    ShapeHas(ms, chunks, m);
    PlacedFacts(m, chunks[m]);
    assert c in chunks[m];
    var chunks' := chunks[m := RemoveAt<Minor>(chunks[m], j)];
    var owner' := owner - {Ptr(c)};
    forall p | p in owner' ensures IsLive(chunks', owner'[p]) {
      assert owner[p] != c;
      RemoveContains<Minor>(chunks[m], j, owner[p]);
    }
    forall m', d: Minor | m' in chunks' && d in chunks'[m']
      ensures d.block == m' && Ptr(d) in owner' && owner'[Ptr(d)] == d
    {
      RemoveContains<Minor>(chunks[m], j, d);
    }
  }

  lemma ListedHere(b: Books, headers: map<nat, Minor>, m: Major)
    requires Owners(b.chunks, b.owner, headers) && m in b.chunks
    ensures forall k :: 0 <= k < |b.chunks[m]| ==> b.chunks[m][k] in headers.Values
  {
    InScope(b.chunks, b.owner, headers);
  }

  lemma ChunksLeave(b: Books, headers: map<nat, Minor>, c: Minor, j: nat)
    requires Shape(b.majors, b.chunks) && Owners(b.chunks, b.owner, headers) && b.view.Keys == b.owner.Keys
    requires c.block in b.chunks && j < |b.chunks[c.block]| && b.chunks[c.block][j] == c
    requires Requested(b.owner, b.view)
    requires forall m :: m in b.chunks && m != c.block ==> BlockOk(m, b.chunks[m])
    requires BlockOk(c.block, RemoveAt<Minor>(b.chunks[c.block], j))
    ensures var b' := Left(b, c, j);
      && Shape(b'.majors, b'.chunks) && Owners(b'.chunks, b'.owner, headers) && b'.view.Keys == b'.owner.Keys
      && ChunksOk(b', headers, null)
  {
    hide Shape, Owners, BlockOk, RemoveAt;
    LeavePure(b, headers, c, j);
  }

  lemma MarksSplit(owner: map<nat, Minor>, headers: map<nat, Minor>)
    requires Marks(owner, headers)
    ensures forall a :: a in headers ==> headers[a].magic == if Owned(owner, headers[a]) then MAGIC else DEAD
  {
  }

  lemma LeaveMarks(owner: map<nat, Minor>, headers: map<nat, Minor>, c: Minor)
    requires c.magic == DEAD && Owned(owner, c)
    requires forall a ::
      a in headers && headers[a] != c ==> headers[a].magic == if Owned(owner, headers[a]) then MAGIC else DEAD
    ensures Marks(owner - {Ptr(c)}, headers)
  {
  }

  lemma LeaveBytes(mem: array<byte>, owner: map<nat, Minor>, view: map<nat, seq<byte>>, p: nat)
    requires view.Keys == owner.Keys && Bytes(mem, owner, view)
    ensures Bytes(mem, owner - {p}, view - {p})
  {
    hide BytesAt;
  }

  /** The books without the empty block at position k. */
  ghost function Returned(b: Books, k: nat): Books
    requires k < |b.majors|
  {
    b.(majors := RemoveAt<Major>(b.majors, k), chunks := b.chunks - {b.majors[k]}, held := b.held - {b.majors[k].addr})
  }

  /** Headers are gone with the pages they lay in. */
  function Unmapped(headers: map<nat, Minor>, m: Major): map<nat, Minor> {
    map a | a in headers && !(m.addr <= a < MajorEnd(m)) :: headers[a]
  }

  lemma ReturnHeaders(b: Books, headers: map<nat, Minor>, m: Major)
    requires Shape(b.majors, b.chunks) && Owners(b.chunks, b.owner, headers) && m in b.chunks && b.chunks[m] == []
    ensures Owners(b.chunks - {m}, b.owner, Unmapped(headers, m))
  {
    hide Shape, Placed;
    KeysOf(b.majors, b.chunks);
    forall p | p in b.owner ensures b.owner[p].block != m && !(m.addr <= b.owner[p].addr < MajorEnd(m)) {
      var c := b.owner[p];
      var k := LiveInBlock(b.majors, b.chunks, c);
      BlocksApart(b.majors, b.chunks, c.block, m);
    }
  }

  lemma ReturnMarks(owner: map<nat, Minor>, headers: map<nat, Minor>, m: Major)
    requires Marks(owner, headers)
    ensures Marks(owner, Unmapped(headers, m))
  {
  }

  lemma ChunksReturn(b: Books, headers: map<nat, Minor>, k: nat)
    requires Shape(b.majors, b.chunks) && Owners(b.chunks, b.owner, headers) && b.view.Keys == b.owner.Keys
    requires k < |b.majors| && ChunksOk(b, headers, null)
    requires var b' := Returned(b, k);
      Shape(b'.majors, b'.chunks) && Owners(b'.chunks, b'.owner, Unmapped(headers, b.majors[k]))
      && b'.view.Keys == b'.owner.Keys
    ensures ChunksOk(Returned(b, k), Unmapped(headers, b.majors[k]), null)
  {
    hide Shape, Owners, BlockOk, RemoveAt;
  }

  lemma ReturnPure(b: Books, headers: map<nat, Minor>, k: nat)
    requires Shape(b.majors, b.chunks) && Owners(b.chunks, b.owner, headers) && OnLoan(b.majors, b.held)
    requires k < |b.majors| && b.majors[k] in b.chunks && b.chunks[b.majors[k]] == []
    ensures b.majors[k].addr in b.held && b.held[b.majors[k].addr] == b.majors[k].pages
    ensures var b' := Returned(b, k);
      && b'.owner == b.owner && b'.view == b.view && b'.majors == RemoveAt<Major>(b.majors, k)
      && Shape(b'.majors, b'.chunks) && OnLoan(b'.majors, b'.held)
      && Owners(b'.chunks, b'.owner, Unmapped(headers, b.majors[k]))
      && Total(b'.majors, b'.chunks, 0) == Total(b.majors, b.chunks, 0)
      && TotalSize(b'.majors) + b.majors[k].size == TotalSize(b.majors)
  {
    hide Shape, Owners, OnLoan, RemoveAt;
    var m := b.majors[k];
    MajorsDistinct(b.majors, b.chunks);
    ReturnShape(b.majors, b.chunks, k);
    ReturnOnLoan(b.majors, b.chunks, b.held, k);
    ReturnHeaders(b, headers, m);
    KeysOf(b.majors, b.chunks);
    TotalRemove(b.majors, k, b.chunks, 0);
  }

  lemma ReturnShape(ms: seq<Major>, chunks: map<Major, seq<Minor>>, k: nat)
    requires Shape(ms, chunks) && k < |ms|
    ensures Shape(RemoveAt<Major>(ms, k), chunks - {ms[k]})
  {
    MajorsDistinct(ms, chunks);
    RemoveAtIndex<Major>(ms, k);
    hide RemoveAt;
    var rest, chunks' := RemoveAt<Major>(ms, k), chunks - {ms[k]};
    forall m: Major | m in rest ensures m in chunks' {
      RemoveContains<Major>(ms, k, m);
    }
    forall m: Major | m in chunks' ensures m in rest {
      RemoveContains<Major>(ms, k, m);
    }
  }

  lemma ReturnOnLoan(ms: seq<Major>, chunks: map<Major, seq<Minor>>, held: map<nat, nat>, k: nat)
    requires Shape(ms, chunks) && OnLoan(ms, held) && k < |ms|
    ensures ms[k].addr in held && held[ms[k].addr] == ms[k].pages
    ensures OnLoan(RemoveAt<Major>(ms, k), held - {ms[k].addr})
  {
    hide Shape, Placed, RemoveAt;
    var rest, held' := RemoveAt<Major>(ms, k), held - {ms[k].addr};
    ShapeHas(ms, chunks, ms[k]);
    MajorsDistinct(ms, chunks);
    forall m | m in rest ensures m.addr in held' && held'[m.addr] == m.pages {
      RemoveContains<Major>(ms, k, m);
      assert m in RemoveAt<Major>(ms, k);
      assert m in ms && m != ms[k];
      BlocksApart(ms, chunks, m, ms[k]);
      ShapeHas(ms, chunks, m);
    }
    forall a | a in held' ensures exists m :: m in rest && m.addr == a {
      var m :| m in ms && m.addr == a;
      RemoveContains<Major>(ms, k, m);
    }
  }

  /** The pointer writes that take the block at position k out of the list. */
  method BypassMajor(root: Major?, maj: Major, ghost ms: seq<Major>, ghost k: nat) returns (root': Major?)
    requires MajorsLinked(root, ms) && k < |ms| && ms[k] == maj
    requires forall i, j :: 0 <= i < j < |ms| ==> ms[i] != ms[j]
    modifies ms`prev, ms`next
    ensures MajorsLinked(root', RemoveAt<Major>(ms, k))
  {
    root' := root;
    if root == maj { root' := maj.next; }
    if maj.prev != null { maj.prev.next := maj.next; }
    if maj.next != null { maj.next.prev := maj.prev; }
    RemoveAtIndex<Major>(ms, k);
  }

  /** Store one byte that belongs to no live payload and is no live chunk's hidden byte. */
  method SetByte(mem: array<byte>, at: nat, b: byte, ghost owner: map<nat, Minor>, ghost view: map<nat, seq<byte>>)
    requires view.Keys == owner.Keys && Bytes(mem, owner, view) && at < mem.Length
    requires forall p :: p in owner ==> at < owner[p].addr || End(owner[p]) <= at
    modifies mem
    ensures Bytes(mem, owner, view)
    ensures forall a :: 0 <= a < mem.Length ==> mem[a] == if a == at then b else old(mem[a])
  {
    mem[at] := b;
    forall p | p in owner ensures BytesAt(mem, owner[p], view[p]) {
      assert old(BytesAt(mem, owner[p], view[p]));
    }
  }

  // ---------------------------------------------------------------- the invariant as a whole

  /** The part of the invariant that does not look at the links of the block list. */
  ghost predicate Booked(mem: array<byte>, bet: Major?, acquired: nat, used: nat,
                         headers: map<nat, Minor>, b: Books, skip: Major?)
    reads mem, b.majors`first, b.majors`usage, headers.Values
  {
    && mem.Length == SPACE && b.view.Keys == b.owner.Keys
    && Shape(b.majors, b.chunks)
    && (bet != null ==> bet in b.majors)
    && used == Total(b.majors, b.chunks, 0)
    && acquired == TotalSize(b.majors)
    && OnLoan(b.majors, b.held)
    && Bytes(mem, b.owner, b.view)
    && Owners(b.chunks, b.owner, headers)
    && Marks(b.owner, headers)
    && ChunksOk(b, headers, skip)
  }

  /** Everything that holds between any two steps, except for the chunk list of `skip`: the fields
      of the heap agree with its books. */
  ghost predicate Consistent(mem: array<byte>, root: Major?, bet: Major?, acquired: nat, used: nat,
                             headers: map<nat, Minor>, b: Books, skip: Major?)
    reads mem, b.majors, headers.Values
  {
    MajorsLinked(root, b.majors) && Booked(mem, bet, acquired, used, headers, b, skip)
  }

  lemma AdoptReady(mem: array<byte>, root: Major?, bet: Major?, acquired: nat, used: nat,
                   headers: map<nat, Minor>, b: Books, c: Minor, j: nat)
    requires Consistent(mem, root, bet, acquired, used, headers, b, c.block)
    requires c.block in b.majors && c.block in b.chunks && j <= |b.chunks[c.block]|
    requires BlockOk(c.block, InsertAt(b.chunks[c.block], j, c))
    requires FreeAt(c.block, b.chunks[c.block], c.addr, HEADER + c.size)
    ensures Ptr(c) !in b.view && c.reqSize + PADDING <= c.size && End(c) <= SPACE && c.magic == MAGIC
    ensures forall p :: p in b.owner ==> End(c) <= b.owner[p].addr || End(b.owner[p]) <= c.addr
  {
    hide Shape, Placed, FreeAt, InsertAt, Owners, Marks, Bytes, ChunksOk, Weight, Total, TotalSize, OnLoan,
        MajorsLinked, BlockOk;
    var s := InsertAt(b.chunks[c.block], j, c);
    BlockHas(c.block, s, c) by { InsertContains(b.chunks[c.block], j, c, c); }
    AdoptPure(b.majors, b.chunks, b.owner, headers, c, j);
  }

  lemma AdoptDone(mem: array<byte>, root: Major?, bet: Major?, acquired: nat, used: nat,
                  headers: map<nat, Minor>, b: Books, c: Minor, j: nat, content: seq<byte>)
    requires Consistent(mem, root, bet, acquired, used, headers, b, c.block)
    requires c.block in b.majors && c.block in b.chunks && j <= |b.chunks[c.block]|
    requires BlockOk(c.block, InsertAt(b.chunks[c.block], j, c)) && c !in headers.Values
    requires FreeAt(c.block, b.chunks[c.block], c.addr, HEADER + c.size)
    requires c.reqSize == |content| && BytesAt(mem, c, content)
    ensures Consistent(mem, root, bet, acquired, used + c.size, Surviving(headers, c)[c.addr := c],
                       Entered(b, c, j, content), null)
  {
    hide Shape, Placed, FreeAt, InsertAt, Owners, Marks, Bytes, BytesAt, ChunksOk, Weight, Total, TotalSize,
        OnLoan, MajorsLinked, BlockOk;
    var s := InsertAt(b.chunks[c.block], j, c);
    BlockHas(c.block, s, c) by { InsertContains(b.chunks[c.block], j, c, c); }
    AdoptPure(b.majors, b.chunks, b.owner, headers, c, j);
    MarksInsert(b.owner, headers, c);
    BytesInsert(mem, b.owner, b.view, c, content);
    ChunksInsert(b, headers, c, j, content);
  }

  /** Once the links are set, the fresh block has joined. */
  lemma GrowDone(mem: array<byte>, root: Major?, bet: Major?, acquired: nat, used: nat,
                 headers: map<nat, Minor>, b: Books, maj: Major)
    requires Booked(mem, bet, acquired, used, headers, b, null)
    requires BlockFits(maj) && GrantOk(b.majors, maj.addr, maj.pages) && maj.usage == HEADER && maj.first == null
    requires MajorsLinked(root, b.majors + [maj])
    ensures Consistent(mem, root, bet, acquired + maj.size, used, headers, Appended(b, maj), null)
  {
    hide Shape, Owners, Marks, Bytes, ChunksOk, Total, TotalSize, OnLoan, MajorsLinked;
    AppendPure(b, headers, maj);
    ChunksAppend(b, headers, maj);
  }

  lemma DetachDone(mem: array<byte>, root: Major?, bet: Major?, acquired: nat, used: nat,
                   headers: map<nat, Minor>, b: Books, c: Minor, j: nat)
    requires mem.Length == SPACE && b.view.Keys == b.owner.Keys
    requires Shape(b.majors, b.chunks) && Owners(b.chunks, b.owner, headers) && OnLoan(b.majors, b.held)
    requires MajorsLinked(root, b.majors) && (bet != null ==> bet in b.majors)
    requires used == Total(b.majors, b.chunks, 0) && acquired == TotalSize(b.majors) && Bytes(mem, b.owner, b.view)
    requires c.block in b.chunks && j < |b.chunks[c.block]| && b.chunks[c.block][j] == c && c.magic == DEAD
    requires forall a ::
      a in headers && headers[a] != c ==> headers[a].magic == if Owned(b.owner, headers[a]) then MAGIC else DEAD
    requires Requested(b.owner, b.view)
    requires forall m :: m in b.chunks && m != c.block ==> BlockOk(m, b.chunks[m])
    requires BlockOk(c.block, RemoveAt<Minor>(b.chunks[c.block], j))
    ensures c.size <= used
    ensures Consistent(mem, root, bet, acquired, used - c.size, headers, Left(b, c, j), null)
  {
    hide Shape, Placed, RemoveAt, Owners, Marks, Bytes, Requested, ChunksOk, Weight, Total, TotalSize, OnLoan,
        MajorsLinked, BlockOk, Left;
    LeavePure(b, headers, c, j);
    LeaveMarks(b.owner, headers, c);
    ChunksLeave(b, headers, c, j);
    LeaveBytes(mem, b.owner, b.view, Ptr(c));
  }

  lemma ReleaseDone(mem: array<byte>, root: Major?, bet: Major?, acquired: nat, used: nat,
                    headers: map<nat, Minor>, b: Books, k: nat)
    requires Booked(mem, bet, acquired, used, headers, b, null)
    requires k < |b.majors| && b.majors[k] in b.chunks && b.chunks[b.majors[k]] == []
    requires MajorsLinked(root, RemoveAt<Major>(b.majors, k))
    ensures b.majors[k].addr in b.held && b.held[b.majors[k].addr] == b.majors[k].pages && b.majors[k].size <= acquired
    ensures Consistent(mem, root, if bet == b.majors[k] then null else bet, acquired - b.majors[k].size, used,
                       Unmapped(headers, b.majors[k]), Returned(b, k), null)
  {
    hide Shape, Placed, RemoveAt, Owners, Marks, Bytes, ChunksOk, Weight, Total, TotalSize, OnLoan,
        MajorsLinked, BlockOk, Returned, Unmapped;
    ReturnPure(b, headers, k);
    ReturnMarks(b.owner, headers, b.majors[k]);
    ChunksReturn(b, headers, k);
    if bet != null {
      MajorsDistinct(b.majors, b.chunks);
      RemoveContains<Major>(b.majors, k, bet);
    }
  }

  lemma LeftChunks(b: Books, c: Minor, j: nat)
    requires c.block in b.chunks && j < |b.chunks[c.block]|
    requires forall m :: m in b.chunks ==> b.chunks[m] != []
    ensures Left(b, c, j).majors == b.majors && c.block in Left(b, c, j).chunks
    ensures |Left(b, c, j).chunks[c.block]| == |b.chunks[c.block]| - 1
    ensures forall m :: m in Left(b, c, j).chunks && m != c.block ==> Left(b, c, j).chunks[m] != []
  {
  }

  lemma ReturnedChunks(b: Books, k: nat)
    requires k < |b.majors| && forall m :: m in b.chunks && m != b.majors[k] ==> b.chunks[m] != []
    ensures forall m :: m in Returned(b, k).chunks ==> Returned(b, k).chunks[m] != []
  {
  }

  lemma GrantFits(ms: seq<Major>, maj: Major)
    requires maj.addr != 0 && maj.pages > 0 && maj.size == maj.pages * PAGE && GrantOk(ms, maj.addr, maj.pages)
    ensures BlockFits(maj)
  {
  }

  lemma BookedFacts(mem: array<byte>, bet: Major?, acquired: nat, used: nat, headers: map<nat, Minor>, b: Books,
                    skip: Major?)
    requires Booked(mem, bet, acquired, used, headers, b, skip)
    ensures mem.Length == SPACE && (bet != null ==> bet in b.majors)
    ensures forall i, k :: 0 <= i < k < |b.majors| ==> b.majors[i] != b.majors[k]
    ensures forall m :: m in b.majors <==> m in b.chunks
  {
    hide Owners, Marks, Bytes, ChunksOk, OnLoan, Total, TotalSize;
    MajorsDistinct(b.majors, b.chunks);
    KeysOf(b.majors, b.chunks);
  }

  lemma GrowReady(mem: array<byte>, bet: Major?, acquired: nat, used: nat, headers: map<nat, Minor>, b: Books,
                  grant: nat,
                  pages: nat)
    requires Booked(mem, bet, acquired, used, headers, b, null)
    requires grant != 0 && pages > 0 && GrantOk(b.majors, grant, pages)
    ensures grant !in b.held && forall m :: m in b.majors ==> m.addr != grant
  {
    hide Shape, Owners, Marks, Bytes, ChunksOk, OnLoan, Total, TotalSize, GrantOk;
    GrantFresh(b.majors, b.chunks, b.held, grant, pages);
  }

  // ---------------------------------------------------------------- payload bytes

  /** The word-then-byte copy of liballoc_memcpy: a plain byte copy whenever the target does not
      start inside the source range. */
  method Memcpy(mem: array<byte>, dst: nat, src: nat, n: nat)
    requires dst + n <= mem.Length && src + n <= mem.Length
    requires dst <= src || src + n <= dst
    modifies mem
    ensures forall a :: dst <= a < dst + n ==> mem[a] == old(mem[src + (a - dst)])
    ensures forall a :: 0 <= a < mem.Length && !(dst <= a < dst + n) ==> mem[a] == old(mem[a])
  {
    var d, s, left := dst, src, n;
    while left >= 4
      invariant 0 <= left <= n && d == dst + (n - left) && s == src + (n - left)
      invariant forall a :: dst <= a < d ==> mem[a] == old(mem[src + (a - dst)])
      invariant forall a :: 0 <= a < mem.Length && !(dst <= a < d) ==> mem[a] == old(mem[a])
    {
      mem[d], mem[d + 1], mem[d + 2], mem[d + 3] := mem[s], mem[s + 1], mem[s + 2], mem[s + 3];
      d, s, left := d + 4, s + 4, left - 4;
    }
    while left > 0
      invariant 0 <= left <= n && d == dst + (n - left) && s == src + (n - left)
      invariant forall a :: dst <= a < d ==> mem[a] == old(mem[src + (a - dst)])
      invariant forall a :: 0 <= a < mem.Length && !(dst <= a < d) ==> mem[a] == old(mem[a])
    {
      mem[d] := mem[s];
      d, s, left := d + 1, s + 1, left - 1;
    }
  }

  /** Chunks of different pointers lie apart. */
  ghost predicate OwnersApart(owner: map<nat, Minor>) {
    forall p, q :: p in owner && q in owner && p != q ==>
      End(owner[p]) <= owner[q].addr || End(owner[q]) <= owner[p].addr
  }

  lemma ApartFrom(owner: map<nat, Minor>, p: nat)
    requires OwnersApart(owner) && p in owner
    ensures forall q :: q in owner && q != p ==> End(owner[p]) <= owner[q].addr || End(owner[q]) <= owner[p].addr
  {
  }

  lemma ApartOwners(ms: seq<Major>, chunks: map<Major, seq<Minor>>, owner: map<nat, Minor>, headers: map<nat, Minor>)
    requires Shape(ms, chunks) && Owners(chunks, owner, headers)
    ensures OwnersApart(owner)
    ensures forall p :: p in owner ==> Ptr(owner[p]) == p
  {
    hide Shape, Owners;
    forall p | p in owner ensures IsLive(chunks, owner[p]) && Ptr(owner[p]) == p {
      OwnerLive(chunks, owner, headers, p);
    }
    forall p, q | p in owner && q in owner && p != q
      ensures End(owner[p]) <= owner[q].addr || End(owner[q]) <= owner[p].addr
    {
      ChunksDisjoint(ms, chunks, owner[p], owner[q]);
    }
  }

  /** A store inside one payload. */
  method StoreByte(mem: array<byte>, p: nat, at: nat, b: byte, ghost owner: map<nat, Minor>,
                   ghost view: map<nat, seq<byte>>)
    requires view.Keys == owner.Keys && Bytes(mem, owner, view) && OwnersApart(owner)
    requires p in owner && Ptr(owner[p]) == p && at < |view[p]|
    requires p + at < mem.Length
    modifies mem
    ensures Bytes(mem, owner, view[p := view[p][at := b]])
  {
    hide OwnersApart;
    ApartFrom(owner, p);
    assert BytesAt(mem, owner[p], view[p]);
    mem[p + at] := b;
    assert BytesAt(mem, owner[p], view[p][at := b]);
    forall q | q in owner && q != p ensures BytesAt(mem, owner[q], view[q]) {
      assert old(BytesAt(mem, owner[q], view[q]));
    }
  }

  lemma BytesSplit(mem: array<byte>, owner: map<nat, Minor>, view: map<nat, seq<byte>>, p: nat)
    requires view.Keys == owner.Keys && Bytes(mem, owner, view) && p in owner
    ensures (view - {p}).Keys == (owner - {p}).Keys && Bytes(mem, owner - {p}, view - {p})
      && BytesAt(mem, owner[p], view[p])
  {
    hide BytesAt;
  }

  lemma BytesJoin(mem: array<byte>, owner: map<nat, Minor>, view: map<nat, seq<byte>>, p: nat, content: seq<byte>)
    requires view.Keys == owner.Keys && p in owner && BytesAt(mem, owner[p], content)
    requires (view - {p}).Keys == (owner - {p}).Keys && Bytes(mem, owner - {p}, view - {p})
    ensures Bytes(mem, owner, view[p := content])
  {
    hide BytesAt;
    forall q | q in owner ensures BytesAt(mem, owner[q], view[p := content][q]) {
      assert q != p ==> q in owner - {p};
    }
  }

  lemma BytesPlace(mem: array<byte>, c: Minor, content: seq<byte>)
    requires BytesAt(mem, c, content)
    ensures c.addr < Ptr(c) && Ptr(c) + |content| <= End(c) <= mem.Length
    ensures forall k :: 0 <= k < |content| ==> content[k] == mem[Ptr(c) + k]
  {
  }

  /** The copy leaves chunks away from its target as they were. */
  method CopyApart(mem: array<byte>, dst: nat, src: nat, n: nat, ghost others: map<nat, Minor>,
                   ghost view: map<nat, seq<byte>>)
    requires view.Keys == others.Keys && Bytes(mem, others, view)
    requires forall q :: q in others ==> End(others[q]) <= dst || dst + n <= others[q].addr
    requires dst + n <= mem.Length && src + n <= mem.Length && (dst <= src || src + n <= dst)
    modifies mem
    ensures Bytes(mem, others, view)
    ensures forall a :: dst <= a < dst + n ==> mem[a] == old(mem[src + (a - dst)])
    ensures forall a :: 0 <= a < mem.Length && !(dst <= a < dst + n) ==> mem[a] == old(mem[a])
  {
    Memcpy(mem, dst, src, n);
    forall q | q in others ensures BytesAt(mem, others[q], view[q]) {
      assert old(BytesAt(mem, others[q], view[q]));
    }
  }

  /** Copying the first n bytes of one payload over those of another. */
  method CopyBytes(mem: array<byte>, dst: nat, src: nat, n: nat, ghost owner: map<nat, Minor>,
                   ghost view: map<nat, seq<byte>>)
    requires view.Keys == owner.Keys && Bytes(mem, owner, view) && OwnersApart(owner)
    requires dst in owner && src in owner && Ptr(owner[dst]) == dst && Ptr(owner[src]) == src && dst != src
    requires n <= |view[src]| && n <= |view[dst]|
    modifies mem
    ensures Bytes(mem, owner, view[dst := view[src][..n] + view[dst][n..]])
  {
    hide OwnersApart, Bytes;
    ApartFrom(owner, dst);
    BytesSplit(mem, owner, view, src);
    BytesPlace(mem, owner[src], view[src]);
    BytesSplit(mem, owner, view, dst);
    BytesPlace(mem, owner[dst], view[dst]);
    CopyApart(mem, dst, src, n, owner - {dst}, view - {dst});
    ghost var content := view[src][..n] + view[dst][n..];
    assert BytesAt(mem, owner[dst], content);
    BytesJoin(mem, owner, view, dst, content);
  }

  lemma RequestedSame(owner: map<nat, Minor>, view: map<nat, seq<byte>>, view': map<nat, seq<byte>>)
    requires view.Keys == owner.Keys == view'.Keys && Requested(owner, view)
    requires forall p :: p in view ==> |view'[p]| == |view[p]|
    ensures Requested(owner, view')
  {
  }

  lemma RequestedSplit(owner: map<nat, Minor>, view: map<nat, seq<byte>>)
    requires view.Keys == owner.Keys && Requested(owner, view)
    ensures forall p :: p in owner ==> owner[p].reqSize == |view[p]|
  {
  }

  lemma RequestedJoin(owner: map<nat, Minor>, view: map<nat, seq<byte>>)
    requires view.Keys == owner.Keys && forall p :: p in owner ==> owner[p].reqSize == |view[p]|
    ensures Requested(owner, view)
  {
  }

  lemma OwnersInjective(chunks: map<Major, seq<Minor>>, owner: map<nat, Minor>, headers: map<nat, Minor>)
    requires Owners(chunks, owner, headers)
    ensures forall p :: p in owner ==> Ptr(owner[p]) == p
  {
  }

  lemma ShorterBytes(mem: array<byte>, owner: map<nat, Minor>, view: map<nat, seq<byte>>, p: nat, n: nat)
    requires view.Keys == owner.Keys && Bytes(mem, owner, view) && p in owner && n <= |view[p]|
    ensures Bytes(mem, owner, view[p := view[p][..n]])
  {
    assert BytesAt(mem, owner[p], view[p]);
  }

  lemma PayloadChanged(mem: array<byte>, bet: Major?, acquired: nat, used: nat, headers: map<nat, Minor>,
                       b: Books, view: map<nat, seq<byte>>)
    requires mem.Length == SPACE && b.view.Keys == b.owner.Keys == view.Keys
    requires Shape(b.majors, b.chunks) && Owners(b.chunks, b.owner, headers) && OnLoan(b.majors, b.held)
    requires (bet != null ==> bet in b.majors) && used == Total(b.majors, b.chunks, 0)
      && acquired == TotalSize(b.majors)
    requires Marks(b.owner, headers) && Requested(b.owner, view) && Bytes(mem, b.owner, view)
    requires forall m :: m in b.chunks ==> BlockOk(m, b.chunks[m])
    ensures Booked(mem, bet, acquired, used, headers, b.(view := view), null)
  {
    hide Shape, Owners, OnLoan, Marks, Bytes, BlockOk, Total, TotalSize;
  }
}
