/**
  The two record types of the kernel heap and everything about them that depends only on
  addresses and sizes: where chunks may lie, how much of a block they use, what a free range
  is, and the alignment arithmetic. An address, a size and an owning block are written once,
  when a header is created, so all of this is independent of the mutable link fields.
 */
module HeapLayout {
  import opened AddressSpace

  const PAGE_COUNT: nat := 16          // least number of pages asked of the page hook
  const HEADER: nat := 24              // size of a major header, and of a minor header, on i686
  const ALIGNMENT: nat := 16
  const ALIGN_INFO: nat := 16
  const PADDING: nat := ALIGNMENT + ALIGN_INFO
  const MAGIC: nat := 0xc001_c0de
  const DEAD: nat := 0xdead_dead

  /** A block of pages obtained from the page hook. */
  class Major {
    const addr: nat
    const pages: nat
    const size: nat
    var prev: Major?
    var next: Major?
    var usage: nat
    var first: Minor?

    constructor (addr: nat, pages: nat)
      ensures this.addr == addr && this.pages == pages && size == pages * PAGE
      ensures prev == null && next == null && usage == HEADER && first == null
    {
      this.addr, this.pages, this.size := addr, pages, pages * PAGE;
      prev, next, usage, first := null, null, HEADER, null;
    }
  }

  /** The header in front of one allocation. */
  class Minor {
    const addr: nat
    const block: Major
    const size: nat
    var reqSize: nat
    var magic: nat
    var prev: Minor?
    var next: Minor?

    constructor (addr: nat, block: Major, size: nat, reqSize: nat, prev: Minor?, next: Minor?)
      ensures this.addr == addr && this.block == block && this.size == size
      ensures this.reqSize == reqSize && magic == MAGIC && this.prev == prev && this.next == next
    {
      this.addr, this.block, this.size, this.reqSize := addr, block, size, reqSize;
      this.magic, this.prev, this.next := MAGIC, prev, next;
    }
  }

  function End(c: Minor): nat {
    c.addr + HEADER + c.size
  }

  function MajorEnd(m: Major): nat {
    m.addr + m.size
  }

  // ---------------------------------------------------------------- alignment

  /** The ALIGN macro: the first 16-aligned address with at least ALIGN_INFO bytes before it. */
  function Align(start: nat): nat {
    var q := start + ALIGN_INFO;
    var diff := q % ALIGNMENT;
    if diff != 0 then q + (ALIGNMENT - diff) else q
  }

  /** The pointer handed to the client for a chunk. */
  function Ptr(c: Minor): nat {
    Align(c.addr + HEADER)
  }

  /** Where ALIGN records the distance it moved. */
  function HiddenAt(c: Minor): nat {
    Ptr(c) - ALIGN_INFO
  }

  /** The UNALIGN macro, given the byte found ALIGN_INFO bytes before the pointer. */
  function Unalign(p: nat, hidden: byte): (s: int) {
    if hidden as int < ALIGNMENT + ALIGN_INFO then p - hidden as int else p
  }

  /** For every start address: aligned, moved by 16 to 31 bytes, a distance that fits the hidden
      byte and stays under the threshold UNALIGN tests, so UNALIGN recovers the start. */
  lemma AlignRoundTrip(start: nat)
    ensures Align(start) % ALIGNMENT == 0
    ensures start + ALIGN_INFO <= Align(start) < start + ALIGN_INFO + ALIGNMENT
    ensures 0 <= Align(start) - start < 256
    ensures Unalign(Align(start), (Align(start) - start) as byte) == start
  {
    var q := start + ALIGN_INFO;
    var diff := q % ALIGNMENT;
    if diff != 0 {
      assert q + (ALIGNMENT - diff) == (q / ALIGNMENT + 1) * ALIGNMENT;
      assert ((q / ALIGNMENT + 1) * ALIGNMENT) % ALIGNMENT == 0;
    }
  }

  /** A request padded by ALIGNMENT + ALIGN_INFO holds its hidden byte and all its payload. */
  lemma PayloadInside(c: Minor, n: nat)
    requires n + PADDING <= c.size
    ensures c.addr + HEADER <= HiddenAt(c) < Ptr(c)
    ensures Ptr(c) + n <= End(c)
    ensures Ptr(c) % ALIGNMENT == 0
  {
    AlignRoundTrip(c.addr + HEADER);
  }

  // ---------------------------------------------------------------- request sizes

  // The three 32-bit sums the code forms from a request, with their wrap-around.

  function PaddedSize(req: nat): nat {
    (req + ALIGNMENT + ALIGN_INFO) % SPACE
  }

  /** Bytes a chunk of `size` takes together with its header. */
  function Need(size: nat): nat {
    (size + HEADER) % SPACE
  }

  /** Pages allocate_new_page asks for. */
  function PagesFor(size: nat): nat {
    var st := (size + HEADER + HEADER) % SPACE;
    var n := if st % PAGE == 0 then st / PAGE else st / PAGE + 1;
    if n < PAGE_COUNT then PAGE_COUNT else n
  }

  const MAX_REQUEST: nat := SPACE - 81

  /** None of the sums wraps, and a fresh block of PagesFor pages has room, exactly up to
      MAX_REQUEST. */
  lemma RequestArithmetic(req: nat)
    requires req < SPACE
    ensures req <= MAX_REQUEST <==>
            && PaddedSize(req) == req + 32
            && Need(PaddedSize(req)) == req + 56
            && req + 56 <= PagesFor(PaddedSize(req)) * PAGE - HEADER
  {
    var size := PaddedSize(req);
    if req <= MAX_REQUEST {
      var st := size + 48;
      assert st % SPACE == st;
      assert st == (st / PAGE) * PAGE + st % PAGE;
    } else if size == req + 32 && Need(size) == req + 56 {
      var st := (size + 48) % SPACE;
      assert st == size + 48 - SPACE;
      assert PagesFor(size) == PAGE_COUNT;
    }
  }

  /** Never fewer than PAGE_COUNT pages are asked for, and otherwise no more than hold the request with a
      block's and a chunk's header. */
  lemma PagesLeast(size: nat)
    requires size + HEADER + HEADER < SPACE
    ensures var n := PagesFor(size);
      && PAGE_COUNT <= n && size + HEADER + HEADER <= n * PAGE
      && (PAGE_COUNT < n ==> (n - 1) * PAGE < size + HEADER + HEADER)
  {
    var st := size + HEADER + HEADER;
    assert st == (st / PAGE) * PAGE + st % PAGE;
  }

  // ---------------------------------------------------------------- chunks inside one block

  /** The chunks of `m`, in list order, are address-ordered, disjoint and inside the block. */
  ghost predicate Placed(m: Major, s: seq<Minor>) {
    && (forall j :: 0 <= j < |s| ==>
          s[j].block == m && m.addr + HEADER <= s[j].addr && End(s[j]) <= MajorEnd(m) && PADDING <= s[j].size)
    && (forall i, j :: 0 <= i < j < |s| ==> End(s[i]) <= s[j].addr)
  }

  /** Sum over `s` of the chunk sizes, each with `header` bytes added. */
  ghost function Weight(s: seq<Minor>, header: nat): nat {
    if s == [] then 0 else s[0].size + header + Weight(s[1..], header)
  }

  lemma {:induction false} WeightConcat(s: seq<Minor>, t: seq<Minor>, header: nat)
    ensures Weight(s + t, header) == Weight(s, header) + Weight(t, header)
  {
    if s == [] {
      assert s + t == t;
    } else {
      assert (s + t)[1..] == s[1..] + t;
      WeightConcat(s[1..], t, header);
    }
  }

  /** `s` with `c` put in at position `j`. */
  ghost function InsertAt(s: seq<Minor>, j: nat, c: Minor): seq<Minor>
    requires j <= |s|
  {
    s[..j] + [c] + s[j..]
  }

  /** `s` without its element at position `j`. */
  ghost function RemoveAt<T>(s: seq<T>, j: nat): seq<T>
    requires j < |s|
  {
    s[..j] + s[j + 1..]
  }

  lemma InsertAtIndex(s: seq<Minor>, j: nat, c: Minor)
    requires j <= |s|
    ensures |InsertAt(s, j, c)| == |s| + 1
    ensures forall i {:trigger InsertAt(s, j, c)[i]} :: 0 <= i <= |s| ==>
              InsertAt(s, j, c)[i] == if i < j then s[i] else if i == j then c else s[i - 1]
  {
  }

  lemma InsertContains(s: seq<Minor>, j: nat, c: Minor, d: Minor)
    requires j <= |s|
    ensures d in InsertAt(s, j, c) <==> d in s || d == c
  {
    assert s == s[..j] + s[j..];
  }

  lemma RemoveAtIndex<T>(s: seq<T>, j: nat)
    requires j < |s|
    ensures |RemoveAt(s, j)| == |s| - 1
    ensures forall i {:trigger RemoveAt(s, j)[i]} :: 0 <= i < |s| - 1 ==>
              RemoveAt(s, j)[i] == if i < j then s[i] else s[i + 1]
  {
  }

  lemma WeightInsert(s: seq<Minor>, j: nat, c: Minor, header: nat)
    requires j <= |s|
    ensures Weight(InsertAt(s, j, c), header) == Weight(s, header) + c.size + header
  {
    assert s == s[..j] + s[j..];
    WeightConcat(s[..j], s[j..], header);
    WeightConcat(s[..j] + [c], s[j..], header);
    WeightConcat(s[..j], [c], header);
    assert Weight([c], header) == c.size + header;
  }

  lemma InsertRemove(s: seq<Minor>, j: nat)
    requires j < |s|
    ensures InsertAt(RemoveAt(s, j), j, s[j]) == s
  {
  }

  lemma WeightRemove(s: seq<Minor>, j: nat, header: nat)
    requires j < |s|
    ensures Weight(s, header) == Weight(RemoveAt(s, j), header) + s[j].size + header
  {
    InsertRemove(s, j);
    WeightInsert(RemoveAt(s, j), j, s[j], header);
  }

  /** Address-ordered disjoint chunks between `lo` and `hi` use at most hi - lo bytes. */
  lemma {:induction false} WeightBound(s: seq<Minor>, lo: nat, hi: nat)
    requires lo <= hi
    requires forall j :: 0 <= j < |s| ==> lo <= s[j].addr && End(s[j]) <= hi
    requires forall i, j :: 0 <= i < j < |s| ==> End(s[i]) <= s[j].addr
    ensures Weight(s, HEADER) <= hi - lo
  {
    if s != [] {
      WeightBound(s[1..], End(s[0]), hi);
    }
  }

  /** The same for chunks that fall into two parts, up to `a` and from `b` on. */
  lemma WeightSplit(s: seq<Minor>, k: nat, lo: nat, a: nat, b: nat, hi: nat)
    requires lo <= a <= b <= hi && k <= |s|
    requires forall j :: 0 <= j < k ==> lo <= s[j].addr && End(s[j]) <= a
    requires forall j :: k <= j < |s| ==> b <= s[j].addr && End(s[j]) <= hi
    requires forall i, j :: 0 <= i < j < |s| ==> End(s[i]) <= s[j].addr
    ensures Weight(s, HEADER) <= (a - lo) + (hi - b)
  {
    hide Weight;
    WeightBound(s[..k], lo, a);
    WeightBound(s[k..], b, hi);
    WeightConcat(s[..k], s[k..], HEADER);
    assert s == s[..k] + s[k..];
  }

  // ---------------------------------------------------------------- free ranges

  /** The `n` bytes at `a` lie in the block behind its header and meet no chunk. */
  ghost predicate FreeAt(m: Major, s: seq<Minor>, a: nat, n: nat) {
    && m.addr + HEADER <= a && a + n <= MajorEnd(m)
    && forall c :: c in s ==> a + n <= c.addr || End(c) <= a
  }

  /** Nowhere in the block are there `n` contiguous free bytes. */
  ghost predicate NoRoom(m: Major, s: seq<Minor>, n: nat) {
    forall a :: !FreeAt(m, s, a, n)
  }

  /** Every gap the code measures: in front, between neighbours, behind the last chunk. */
  ghost predicate GapsSmall(m: Major, s: seq<Minor>, n: nat)
    requires s != [] && Placed(m, s)
  {
    && s[0].addr - (m.addr + HEADER) < n
    && (forall j {:trigger End(s[j])} :: 0 <= j < |s| - 1 ==> s[j + 1].addr - End(s[j]) < n)
    && MajorEnd(m) - End(s[|s| - 1]) < n
  }

  /** Where a range `a` falls among the chunks: after the first k of them, before the others. */
  lemma {:induction false} Split(s: seq<Minor>, a: nat, n: nat) returns (k: nat)
    requires forall i, j :: 0 <= i < j < |s| ==> End(s[i]) <= s[j].addr
    requires forall c :: c in s ==> a + n <= c.addr || End(c) <= a
    requires n > 0
    ensures k <= |s|
    ensures forall j :: 0 <= j < k ==> End(s[j]) <= a
    ensures forall j :: k <= j < |s| ==> a + n <= s[j].addr
  {
    k := 0;
    while k < |s| && End(s[k]) <= a
      invariant k <= |s|
      invariant forall j :: 0 <= j < k ==> End(s[j]) <= a
    {
      k := k + 1;
    }
    if k < |s| {
      assert s[k] in s;
    }
  }

  /** A free range lies in one of the measured gaps, which is then large enough. */
  lemma FreeRangeNeedsGap(m: Major, s: seq<Minor>, a: nat, n: nat)
    requires n > 0 && s != [] && Placed(m, s) && FreeAt(m, s, a, n)
    ensures !GapsSmall(m, s, n)
  {
    var k := Split(s, a, n);
    if 0 < k < |s| {
      assert s[(k - 1) + 1].addr - End(s[k - 1]) >= n;
    }
  }

  /** Measuring gaps is complete: if all are too small, no free range exists anywhere. */
  lemma GapsComplete(m: Major, s: seq<Minor>, n: nat)
    requires n > 0 && s != [] && Placed(m, s) && GapsSmall(m, s, n)
    ensures NoRoom(m, s, n)
  {
    forall a: nat | FreeAt(m, s, a, n) ensures false {
      FreeRangeNeedsGap(m, s, a, n);
    }
  }

  lemma FreeRangeNeedsBytes(m: Major, s: seq<Minor>, a: nat, n: nat)
    requires n > 0 && Placed(m, s) && FreeAt(m, s, a, n)
    ensures Weight(s, HEADER) + n <= m.size - HEADER
  {
    var k := Split(s, a, n);
    WeightSplit(s, k, m.addr + HEADER, a, a + n, MajorEnd(m));
  }

  /** The quick test of case 1 is sound: too few free bytes in all means no free range. */
  lemma ShortageMeansNoRoom(m: Major, s: seq<Minor>, n: nat)
    requires n > 0 && Placed(m, s)
    requires m.size - HEADER < Weight(s, HEADER) + n
    ensures NoRoom(m, s, n)
  {
    forall a: nat | FreeAt(m, s, a, n) ensures false {
      FreeRangeNeedsBytes(m, s, a, n);
    }
  }

  /** Putting a chunk between its list neighbours keeps the block in order, and its bytes were
      free before. */
  lemma PlacedInsert(m: Major, s: seq<Minor>, j: nat, c: Minor)
    requires Placed(m, s) && j <= |s| && c.block == m && PADDING <= c.size
    requires m.addr + HEADER <= c.addr && End(c) <= MajorEnd(m)
    requires j > 0 ==> End(s[j - 1]) <= c.addr
    requires j < |s| ==> End(c) <= s[j].addr
    ensures Placed(m, InsertAt(s, j, c))
    ensures FreeAt(m, s, c.addr, HEADER + c.size)
  {
    forall i | 0 <= i < |s| ensures i < j ==> End(s[i]) <= c.addr
      ensures j <= i ==> End(c) <= s[i].addr
    {
      if i < j - 1 {
        assert End(s[i]) <= s[j - 1].addr;
      } else if j < i {
        assert End(s[j]) <= s[i].addr;
      }
    }
    InsertAtIndex(s, j, c);
  }

  lemma PlacedRemove(m: Major, s: seq<Minor>, j: nat)
    requires Placed(m, s) && j < |s|
    ensures Placed(m, RemoveAt(s, j))
  {
    RemoveAtIndex(s, j);
  }

  lemma RemovedGone<T>(s: seq<T>, j: nat)
    requires j < |s| && forall i, k :: 0 <= i < k < |s| ==> s[i] != s[k]
    ensures forall c :: c in RemoveAt(s, j) <==> c in s && c != s[j]
  {
    RemoveAtIndex(s, j);
    var t := RemoveAt(s, j);
    forall c | c in s && c != s[j] ensures c in t {
      var i :| 0 <= i < |s| && s[i] == c;
      assert t[if i < j then i else i - 1] == c;
    }
  }

  lemma RemoveContains<T>(s: seq<T>, j: nat, c: T)
    requires j < |s| && forall i, k :: 0 <= i < k < |s| ==> s[i] != s[k]
    ensures c in RemoveAt(s, j) <==> c in s && c != s[j]
  {
    RemovedGone(s, j);
  }

  lemma PlacedFacts(m: Major, s: seq<Minor>)
    requires Placed(m, s)
    ensures forall i, k :: 0 <= i < k < |s| ==> s[i] != s[k]
    ensures forall i :: 0 <= i < |s| ==>
              s[i].block == m && m.addr + HEADER <= s[i].addr && End(s[i]) <= MajorEnd(m) && PADDING <= s[i].size
  {
  }

  // ---------------------------------------------------------------- all blocks together

  /** Blocks are page multiples inside the address space and pairwise disjoint; every block has
      its own chunk list, in order. */
  ghost predicate Shape(ms: seq<Major>, chunks: map<Major, seq<Minor>>) {
    && (forall i :: 0 <= i < |ms| ==> BlockFits(ms[i]))
    && (forall i, j :: 0 <= i < j < |ms| ==> Apart(ms[i], ms[j]))
    && (forall m :: m in ms ==> m in chunks)
    && (forall m :: m in chunks ==> m in ms)
    && (forall m :: m in chunks ==> Placed(m, chunks[m]))
  }

  ghost predicate BlockFits(m: Major) {
    m.addr > 0 && m.pages > 0 && m.size == m.pages * PAGE && MajorEnd(m) <= SPACE
  }

  ghost predicate Apart(m: Major, m': Major) {
    MajorEnd(m) <= m'.addr || MajorEnd(m') <= m.addr
  }

  ghost predicate IsLive(chunks: map<Major, seq<Minor>>, c: Minor) {
    c.block in chunks && c in chunks[c.block]
  }

  lemma BlocksApart(ms: seq<Major>, chunks: map<Major, seq<Minor>>, m: Major, m': Major)
    requires Shape(ms, chunks) && m in ms && m' in ms && m != m'
    ensures Apart(m, m')
  {
    var i :| 0 <= i < |ms| && ms[i] == m;
    var j :| 0 <= j < |ms| && ms[j] == m';
    if i < j {
      assert Apart(ms[i], ms[j]);
    } else {
      assert Apart(ms[j], ms[i]);
    }
  }

  lemma LivePtr(ms: seq<Major>, chunks: map<Major, seq<Minor>>, c: Minor)
    requires Shape(ms, chunks) && IsLive(chunks, c)
    ensures c.addr + HEADER <= HiddenAt(c) < Ptr(c) <= End(c) <= SPACE
    ensures PADDING <= c.size
  {
    hide Shape;
    var k := LiveInBlock(ms, chunks, c);
    PayloadInside(c, 0);
  }

  lemma IndexOfMajor(ms: seq<Major>, m: Major) returns (k: nat)
    requires m in ms && (forall i :: 0 <= i < |ms| ==> BlockFits(ms[i]))
    requires forall i, j :: 0 <= i < j < |ms| ==> Apart(ms[i], ms[j])
    ensures k < |ms| && ms[k] == m && forall i :: 0 <= i < |ms| && i != k ==> ms[i] != m
  {
    k :| 0 <= k < |ms| && ms[k] == m;
    forall i | 0 <= i < |ms| && i != k ensures ms[i] != m {
      assert if i < k then Apart(ms[i], ms[k]) else Apart(ms[k], ms[i]);
      assert BlockFits(ms[i]);
    }
  }

  lemma LiveInBlock(ms: seq<Major>, chunks: map<Major, seq<Minor>>, c: Minor) returns (k: nat)
    requires Shape(ms, chunks) && IsLive(chunks, c)
    ensures c.block in ms && BlockFits(c.block) && Placed(c.block, chunks[c.block])
    ensures c.block.addr + HEADER <= c.addr && End(c) <= MajorEnd(c.block) <= SPACE
    ensures k < |chunks[c.block]| && chunks[c.block][k] == c
  {
    assert Placed(c.block, chunks[c.block]);
    k :| 0 <= k < |chunks[c.block]| && chunks[c.block][k] == c;
    var i :| 0 <= i < |ms| && ms[i] == c.block;
    assert BlockFits(ms[i]);
  }

  /** Any two different chunks of the heap, in whichever blocks, occupy disjoint ranges. */
  lemma ChunksDisjoint(ms: seq<Major>, chunks: map<Major, seq<Minor>>, c: Minor, d: Minor)
    requires Shape(ms, chunks) && IsLive(chunks, c) && IsLive(chunks, d) && c != d
    ensures End(c) <= d.addr || End(d) <= c.addr
  {
    hide Shape;
    var k := LiveInBlock(ms, chunks, c);
    var k' := LiveInBlock(ms, chunks, d);
    if c.block != d.block {
      BlocksApart(ms, chunks, c.block, d.block);
    }
  }

  /** A new chunk in a free range of one block meets no chunk of any block. */
  lemma FreeRangeDisjoint(ms: seq<Major>, chunks: map<Major, seq<Minor>>, c: Minor, d: Minor)
    requires Shape(ms, chunks) && IsLive(chunks, d) && c.block in ms && c.block in chunks
    requires FreeAt(c.block, chunks[c.block], c.addr, HEADER + c.size)
    ensures End(c) <= d.addr || End(d) <= c.addr
  {
    hide Shape, Placed;
    var k := LiveInBlock(ms, chunks, d);
    if c.block != d.block {
      BlocksApart(ms, chunks, c.block, d.block);
    }
  }

  // ---------------------------------------------------------------- totals over all blocks

  /** Sum of the chunk weights of all blocks in `ms`. */
  ghost function Total(ms: seq<Major>, chunks: map<Major, seq<Minor>>, header: nat): nat {
    if ms == [] then 0 else
      (if ms[0] in chunks then Weight(chunks[ms[0]], header) else 0) + Total(ms[1..], chunks, header)
  }

  ghost function TotalSize(ms: seq<Major>): nat {
    if ms == [] then 0 else ms[0].size + TotalSize(ms[1..])
  }

  lemma {:induction false} TotalSame(ms: seq<Major>, chunks: map<Major, seq<Minor>>, chunks': map<Major, seq<Minor>>,
                                     header: nat)
    requires forall m :: m in ms ==> m in chunks && m in chunks' && chunks'[m] == chunks[m]
    ensures Total(ms, chunks, header) == Total(ms, chunks', header)
  {
    if ms != [] {
      TotalSame(ms[1..], chunks, chunks', header);
    }
  }

  lemma {:induction false} TotalConcat(ms: seq<Major>, ns: seq<Major>, chunks: map<Major, seq<Minor>>, header: nat)
    ensures Total(ms + ns, chunks, header) == Total(ms, chunks, header) + Total(ns, chunks, header)
    ensures TotalSize(ms + ns) == TotalSize(ms) + TotalSize(ns)
  {
    if ms == [] {
      assert ms + ns == ns;
    } else {
      assert (ms + ns)[1..] == ms[1..] + ns;
      TotalConcat(ms[1..], ns, chunks, header);
    }
  }

  /** Changing the chunk list of the block at position k changes the total by its difference. */
  lemma TotalUpdate(ms: seq<Major>, k: nat, chunks: map<Major, seq<Minor>>, s: seq<Minor>, header: nat)
    requires forall m :: m in ms ==> m in chunks
    requires k < |ms| && forall i :: 0 <= i < |ms| && i != k ==> ms[i] != ms[k]
    ensures Total(ms, chunks[ms[k] := s], header) + Weight(chunks[ms[k]], header) ==
      Total(ms, chunks, header) + Weight(s, header)
  {
    var m := ms[k];
    var chunks' := chunks[m := s];
    assert ms == ms[..k] + ([m] + ms[k + 1..]);
    TotalConcat(ms[..k], [m] + ms[k + 1..], chunks, header);
    TotalConcat(ms[..k], [m] + ms[k + 1..], chunks', header);
    TotalConcat([m], ms[k + 1..], chunks, header);
    TotalConcat([m], ms[k + 1..], chunks', header);
    TotalSame(ms[..k], chunks, chunks', header);
    TotalSame(ms[k + 1..], chunks, chunks', header);
    assert Total([m], chunks, header) == Weight(chunks[m], header);
    assert Total([m], chunks', header) == Weight(s, header);
  }

  /** Taking out the block at position k takes its chunks and its size out of the totals. */
  lemma TotalRemove(ms: seq<Major>, k: nat, chunks: map<Major, seq<Minor>>, header: nat)
    requires forall m :: m in ms ==> m in chunks
    requires k < |ms| && forall i :: 0 <= i < |ms| && i != k ==> ms[i] != ms[k]
    ensures Total(RemoveAt<Major>(ms, k), chunks - {ms[k]}, header) + Weight(chunks[ms[k]], header) ==
      Total(ms, chunks, header)
    ensures TotalSize(RemoveAt<Major>(ms, k)) + ms[k].size == TotalSize(ms)
  {
    var m := ms[k];
    var rest := ms[..k] + ms[k + 1..];
    assert ms == ms[..k] + ([m] + ms[k + 1..]);
    TotalConcat(ms[..k], [m] + ms[k + 1..], chunks, header);
    TotalConcat([m], ms[k + 1..], chunks, header);
    TotalConcat(ms[..k], ms[k + 1..], chunks, header);
    TotalSame(rest, chunks, chunks - {m}, header);
    assert Total([m], chunks, header) == Weight(chunks[m], header);
    assert TotalSize([m]) == m.size;
  }

  ghost function TotalPages(ms: seq<Major>): nat {
    if ms == [] then 0 else ms[0].pages + TotalPages(ms[1..])
  }

  lemma {:induction false} SizeIsPages(ms: seq<Major>)
    requires forall m :: m in ms ==> m.size == m.pages * PAGE
    ensures TotalSize(ms) == PAGE * TotalPages(ms)
  {
    if ms != [] {
      assert ms[0] in ms;
      SizeIsPages(ms[1..]);
    }
  }
}
