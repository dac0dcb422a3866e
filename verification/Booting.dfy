/**
  What booting leaves: the first pages of the kernel's half on the first frames, behind the page
  tables the boot code made, all of them marked as allocated. One page of the image, the text
  console, is mapped to the video memory instead of the frame it is recorded on.
 */
module Booting {
  import opened AddressSpace
  import opened PageTables
  import opened Ledger
  import opened KernelPages
  import opened Supply
  import opened Outcomes
  import Extents

  const VIDEO: nat := 0xB8                      // the frame of the video memory
  const IMAGE_TABLE: nat := KERNEL / ENTRIES    // directory entry of the first kernel page

  /** The lengths are in pages, the places are page numbers counted from the kernel's base. Behind the
      image come the page tables and behind those what was allocated while booting. */
  datatype Layout = Layout(end: nat, tables: nat, lower: nat, catalog: nat, console: nat)
  {
    /** The tables cover all pages, and catalog and console are pages of the image. */
    predicate Fits() {
      && catalog < end && console < end && 0 < tables
      && end + tables <= lower <= ENTRIES * tables && ENTRIES * (tables - 1) < lower <= WINDOW - KERNEL
    }
  }

  /** The first n kernel pages on the first n frames, but for those in `early`. */
  function Straight(n: nat, early: set<nat>): (m: map<nat, nat>)
    ensures forall p: nat :: p in m <==> KERNEL <= p < KERNEL + n && p !in early
    ensures forall p: nat :: p in m ==> m[p] == p - KERNEL
    ensures |m| <= n && (early == {} ==> |m| == n)
  {
    if n == 0 then map[]
    else if KERNEL + n - 1 in early then Straight(n - 1, early)
    else Straight(n - 1, early)[KERNEL + n - 1 := n - 1]
  }

  function BootFrames(frames: nat, lower: nat, early: set<nat>): seq<bool> {
    seq(frames, i requires i >= 0 => i < lower && KERNEL + i !in early)
  }

  function BootDir(l: Layout): (dir: seq<PageEntry>)
    ensures |dir| == ENTRIES
  {
    seq(ENTRIES, i requires i >= 0 =>
          if i == CATALOG then PageEntry(true, true, false, l.catalog)
          else if IMAGE_TABLE <= i < IMAGE_TABLE + l.tables then PageEntry(true, true, false, l.end + (i - IMAGE_TABLE))
          else ABSENT)
  }

  /** The k-th table of the image. */
  function BootTable(l: Layout, k: nat): (t: seq<PageEntry>)
    ensures |t| == ENTRIES
  {
    seq(ENTRIES, i requires i >= 0 =>
          if ENTRIES * k + i == l.console then PageEntry(true, true, false, VIDEO)
          else if ENTRIES * k + i < l.lower then PageEntry(true, true, false, ENTRIES * k + i)
          else ABSENT)
  }

  function BootCatalog(l: Layout): (t: seq<PageEntry>)
    ensures |t| == ENTRIES
  {
    seq(ENTRIES, i requires i >= 0 =>
          if IMAGE_TABLE <= i < IMAGE_TABLE + l.tables then PageEntry(true, true, false, l.end + (i - IMAGE_TABLE))
          else ABSENT)
  }

  predicate HoldsTable(l: Layout, f: nat) {
    f == l.catalog || l.end <= f < l.end + l.tables
  }

  function BootTables(l: Layout): map<nat, seq<PageEntry>>
    requires l.Fits()
  {
    map f: nat | f < l.end + l.tables && HoldsTable(l, f) ::
      if f == l.catalog then BootCatalog(l) else BootTable(l, f - l.end)
  }

  /** The pages in `early` were given back before the marking loops ran, and so are not marked. */
  ghost function BootBooks(l: Layout, frames: nat, early: set<nat>, free: set<nat>): Books
    requires l.Fits()
  {
    Books(BootFrames(frames, l.lower, early), BootDir(l), BootTables(l), Straight(l.lower, early), false, Saved(0, 0),
          free, Straight(l.lower, early), {}, {}, Range(KERNEL, l.end + l.tables),
          map[KERNEL + l.console := VIDEO])
  }

  /** What the marking loops leave free. */
  ghost predicate FreeAfter(l: Layout, early: set<nat>, free: set<nat>) {
    forall p: nat {:trigger p in free} :: p in free <==>
      KERNEL <= p < PAGES && !IsWindow(p) && !(p < KERNEL + l.lower && p !in early)
  }

  lemma BootDirAt(l: Layout, d: nat)
    requires l.Fits() && d < ENTRIES
    ensures BootDir(l)[d].present <==> d == CATALOG || IMAGE_TABLE <= d < IMAGE_TABLE + l.tables
    ensures IMAGE_TABLE + l.tables <= CATALOG
    ensures BootDir(l)[d].present ==>
      BootDir(l)[d].frame == if d == CATALOG then l.catalog else l.end + (d - IMAGE_TABLE)
    ensures !BootDir(l)[d].user && (BootDir(l)[d].present ==> BootDir(l)[d].writable)
  {
  }

  lemma BootTablesAt(l: Layout)
    requires l.Fits()
    ensures l.catalog in BootTables(l) && BootTables(l)[l.catalog] == BootCatalog(l)
    ensures forall k {:trigger BootTable(l, k)} :: 0 <= k < l.tables ==>
              l.end + k in BootTables(l) && BootTables(l)[l.end + k] == BootTable(l, k)
  {
    hide BootTable, BootCatalog;
    BootCatalogAt(l);
    forall k | 0 <= k < l.tables ensures l.end + k in BootTables(l) && BootTables(l)[l.end + k] == BootTable(l, k) {
      BootTableAt(l, k);
    }
  }

  lemma BootCatalogAt(l: Layout)
    requires l.Fits()
    ensures l.catalog in BootTables(l) && BootTables(l)[l.catalog] == BootCatalog(l)
  {
    hide BootTable, BootCatalog;
    assert HoldsTable(l, l.catalog);
  }

  lemma BootTableAt(l: Layout, k: nat)
    requires l.Fits() && k < l.tables
    ensures l.end + k in BootTables(l) && BootTables(l)[l.end + k] == BootTable(l, k)
  {
    hide BootTable, BootCatalog;
    assert HoldsTable(l, l.end + k);
  }

  lemma BootTablesOk(l: Layout)
    requires l.Fits()
    ensures TablesOk(BootDir(l), BootTables(l))
  {
    hide BootDir, BootTables, BootTable;
    var dir, tables := BootDir(l), BootTables(l);
    BootDirAt(l, CATALOG);
    BootTablesAt(l);
    forall d | 0 <= d < ENTRIES && dir[d].present
      ensures dir[d].frame in tables && |tables[dir[d].frame]| == ENTRIES
      ensures dir[d].writable && (dir[d].user <==> d * ENTRIES < KERNEL)
      ensures !IsWindow(d * ENTRIES) ==> Shown(dir, tables, d)
    {
      BootDirAt(l, d);
      if d != CATALOG {
        assert |BootTable(l, d - IMAGE_TABLE)| == ENTRIES;
      }
    }
    forall d, d' | 0 <= d < d' < ENTRIES && dir[d].present && dir[d'].present ensures dir[d].frame != dir[d'].frame {
      BootDirAt(l, d);
      BootDirAt(l, d');
    }
  }

  /** The kernel's first pages lead to the first frames, the console to the video memory. */
  lemma BootTranslate(l: Layout, p: nat)
    requires l.Fits() && p < PAGES && !IsWindow(p) && TablesOk(BootDir(l), BootTables(l))
    ensures Translate(BootDir(l), BootTables(l), p) ==
            if KERNEL <= p < KERNEL + l.lower then Some(if p == KERNEL + l.console then VIDEO else p - KERNEL) else None
    ensures Translate(BootDir(l), BootTables(l), p).Some? ==> Rights(BootDir(l), BootTables(l), p)
  {
    hide BootDir, BootTables;
    var d := p / ENTRIES;
    BootDirAt(l, d);
    BootTablesAt(l);
    assert d != CATALOG && p == ENTRIES * d + p % ENTRIES;
    if IMAGE_TABLE <= d < IMAGE_TABLE + l.tables {
      assert |BootTable(l, d - IMAGE_TABLE)| == ENTRIES;
      assert ENTRIES * (d - IMAGE_TABLE) + p % ENTRIES == p - KERNEL;
    }
  }

  /** Only pages that were allocated behind the tables can have been given back. */
  predicate EarlyOk(l: Layout, early: set<nat>) {
    forall p :: p in early ==> KERNEL + l.end + l.tables <= p < KERNEL + l.lower
  }

  lemma BootBits(l: Layout, frames: nat, early: set<nat>)
    requires l.Fits() && l.lower <= frames && EarlyOk(l, early)
    ensures BitsOk(BootFrames(frames, l.lower, early), Straight(l.lower, early), {})
    ensures TableFramesOk(BootFrames(frames, l.lower, early), BootDir(l), {})
  {
    hide Straight;
    var bits, owner := BootFrames(frames, l.lower, early), Straight(l.lower, early);
    forall f | 0 <= f < frames && bits[f] ensures OwnedBySome(owner, f) {
      assert owner[KERNEL + f] == f;
    }
    forall d | 0 <= d < ENTRIES && BootDir(l)[d].present
      ensures BootDir(l)[d].frame < frames && bits[BootDir(l)[d].frame]
    {
      BootDirAt(l, d);
    }
  }

  lemma BootHomes(l: Layout, early: set<nat>)
    requires l.Fits() && EarlyOk(l, early)
    ensures HomesOk(BootDir(l), Straight(l.lower, early), Range(KERNEL, l.end + l.tables))
  {
    hide Straight, BootDir;
    var owner := Straight(l.lower, early);
    forall d | 0 <= d < ENTRIES && BootDir(l)[d].present
      ensures Home(BootDir(l), owner, Range(KERNEL, l.end + l.tables), d)
    {
      BootDirAt(l, d);
      var q := KERNEL + BootDir(l)[d].frame;
      assert q in owner && q in Range(KERNEL, l.end + l.tables) && owner[q] == BootDir(l)[d].frame;
    }
  }

  lemma BootMaps(l: Layout)
    requires l.Fits() && TablesOk(BootDir(l), BootTables(l))
    ensures MapsOk(BootDir(l), BootTables(l), Straight(l.lower, {}), map[KERNEL + l.console := VIDEO])
  {
    hide Straight, BootTables, BootDir, Translate, Rights;
    forall p | 0 <= p < PAGES && !IsWindow(p)
      ensures Translate(BootDir(l), BootTables(l), p) ==
              if KERNEL <= p < KERNEL + l.lower then Some(if p == KERNEL + l.console then VIDEO else p - KERNEL)
              else None
      ensures Translate(BootDir(l), BootTables(l), p).Some? ==> Rights(BootDir(l), BootTables(l), p)
    {
      BootTranslate(l, p);
    }
  }

  /** A page given back before the marking loops is free, and its frame is; but it is still mapped, as
      the test for this that a later mapping makes will find. */
  lemma EarlyStaysMapped(l: Layout, frames: nat, early: set<nat>, free: set<nat>, p: nat)
    requires l.Fits() && l.lower <= frames && EarlyOk(l, early) && FreeAfter(l, early, free) && p in early
    ensures var b := BootBooks(l, frames, early, free);
      && p in b.free && !b.frames[p - KERNEL] && p !in b.ledger
      && TablesOk(b.dir, b.tables) && Translate(b.dir, b.tables, p) == Some(p - KERNEL)
      && var t := b.tables[b.dir[CATALOG].frame][p / ENTRIES].frame;
         t in b.tables && |b.tables[t]| == ENTRIES && b.tables[t][p % ENTRIES].present
  {
    hide BootTables, BootDir, Straight;
    BootTablesOk(l);
    BootTranslate(l, p);
    BootDirAt(l, p / ENTRIES);
    BootDirAt(l, CATALOG);
    assert Shown(BootDir(l), BootTables(l), p / ENTRIES);
  }

  /** Booting leaves frames, tables and records that agree exactly if no page was given back before
      they were marked. */
  lemma BootOk(l: Layout, frames: nat, early: set<nat>, free: set<nat>)
    requires l.Fits() && l.lower <= frames && EarlyOk(l, early) && FreeAfter(l, early, free)
    ensures BootBooks(l, frames, early, free).Ok() <==> early == {}
    ensures early == {} ==> BootBooks(l, frames, early, free).InFlight() == {}
  {
    hide Straight, BootTables, BootDir, TablesOk, BitsOk, TableFramesOk, MapsOk, HomesOk, Translate;
    var b := BootBooks(l, frames, early, free);
    if early == {} {
      BootTablesOk(l);
      BootBits(l, frames, early);
      BootMaps(l);
      BootHomes(l, early);
    } else {
      var p :| p in early;
      EarlyStaysMapped(l, frames, early, free, p);
      if b.Ok() {
        Walked(b, p);
      }
    }
  }

  lemma Walked(b: Books, p: nat)
    requires b.Ok() && p < PAGES && !IsWindow(p) && Translate(b.dir, b.tables, p).Some?
    ensures p in b.owner
  {
    hide HomesOk, RecordsOk, SpaceOk, BitsOk, TableFramesOk;
  }

  /** Booting with nothing given back: an allocator whose state agrees. */
  method Start(l: Layout, frames: nat, capacity: nat, slots: nat) returns (k: PageAllocator)
    requires l.Fits() && l.lower <= frames && 2 <= capacity && l.lower <= slots
    ensures fresh(k) && fresh(k.space) && k.Valid() && k.UserMapped() && !k.lock && k.Now().InFlight() == {}
    ensures k.user == map[] && k.loose == {} && k.slots == slots && k.capacity == capacity
    ensures FreeAfter(l, {}, k.Now().free)
    ensures k.Now() == BootBooks(l, frames, {}, k.Now().free).(saved := k.saved)
  {
    hide Books.Ok, Flight, Extents.Valid, Extents.FreeOf, Straight, BootTables, BootDir, BootFrames;
    var space, ok := Extents.Boot(KERNEL + l.end + l.tables, KERNEL + l.lower, {});
    ghost var free := Extents.FreeOf(space.extents);
    BootOk(l, frames, {}, free);
    k := new PageAllocator(BootFrames(frames, l.lower, {}), BootDir(l), BootTables(l), Straight(l.lower, {}), space,
                           capacity, slots, BootBooks(l, frames, {}, free));
  }

  /** At the console's page, record and table differ. */
  lemma ConsoleElsewhere(l: Layout, frames: nat, free: set<nat>)
    requires l.Fits() && l.lower <= frames && FreeAfter(l, {}, free)
    ensures var b, p := BootBooks(l, frames, {}, free), KERNEL + l.console;
      && FramesAgree(b, map[]) && PagesAgree(b, map[])
      && Recorded(b, map[], p, l.console) && Translate(b.dir, b.tables, p) == Some(VIDEO)
      && (KERNEL + VIDEO < KERNEL + l.lower && l.console != VIDEO ==>
            Recorded(b, map[], KERNEL + VIDEO, VIDEO) && Translate(b.dir, b.tables, KERNEL + VIDEO) == Some(VIDEO))
  {
    hide Books.Ok, Flight, Straight, BootTables, BootDir, BootFrames, FramesAgree, PagesAgree, Translate;
    var b := BootBooks(l, frames, {}, free);
    BootOk(l, frames, {}, free);
    Agreement(b, map[]);
    BootTablesOk(l);
    BootTranslate(l, KERNEL + l.console);
    BootTranslate(l, KERNEL + VIDEO);
  }

  // ---------------------------------------------------------------- the first allocations

  lemma BootClear(frames: nat, lower: nat)
    requires lower <= frames
    ensures |Clear(BootFrames(frames, lower, {}))| == frames - lower
  {
    RangeSize(lower, frames - lower);
    assert Clear(BootFrames(frames, lower, {})) == Range(lower, frames - lower);
  }

  lemma BootStock(l: Layout, frames: nat, slots: nat, es: seq<Extents.Extent>)
    requires l.Fits() && l.lower <= frames && l.lower <= slots && FreeAfter(l, {}, Extents.FreeOf(es))
    ensures var p := PoolOf(BootBooks(l, frames, {}, Extents.FreeOf(es)), slots, es);
      && StockOf(p).frames == frames - l.lower && StockOf(p).pages >= PAGES - WINDOW_END
      && StockOf(p).room == p.room == slots - l.lower
  {
    hide Extents.Valid, Extents.FreeOf, BootTables, BootDir, BootFrames, Clear, Tables, Range;
    BootClear(frames, l.lower);
    TopFree(l, Extents.FreeOf(es));
  }

  lemma TopFree(l: Layout, free: set<nat>)
    requires l.Fits() && FreeAfter(l, {}, free)
    ensures |free| >= PAGES - WINDOW_END
  {
    var top := Range(WINDOW_END, PAGES - WINDOW_END);
    RangeSize(WINDOW_END, PAGES - WINDOW_END);
    assert top <= free;
    MoreOf(top, free);
  }

  /** After any boot, single pages can be had while there are two frames and two slots for each, although
      most free pages have no table. */
  lemma FirstPages(l: Layout, frames: nat, slots: nat, es: seq<Extents.Extent>, n: nat, capacity: nat)
    requires l.Fits() && capacity >= 2 && Extents.Valid(es) && FreeAfter(l, {}, Extents.FreeOf(es))
    requires l.lower + 2 * n <= frames && l.lower + 2 * n <= slots && n <= PAGES - WINDOW_END
    ensures Singles(PoolOf(BootBooks(l, frames, {}, Extents.FreeOf(es)), slots, es), n, capacity).r.Fine?
  {
    hide Extents.Valid, Extents.FreeOf, FreeAfter, BootBooks, PoolOf, Singles, Covered;
    var p := PoolOf(BootBooks(l, frames, {}, Extents.FreeOf(es)), slots, es);
    BootStock(l, frames, slots, es);
    NoNodes(2 * n, p.room, capacity);
    SinglesMean(p, n, capacity);
  }

  /** So the first one is there. */
  lemma FirstPage(l: Layout, frames: nat, slots: nat, es: seq<Extents.Extent>, b: Books, capacity: nat)
    requires l.Fits() && capacity >= 2 && Extents.Valid(es) && FreeAfter(l, {}, Extents.FreeOf(es))
    requires l.lower + 2 <= frames && l.lower + 2 <= slots
    requires b == BootBooks(l, frames, {}, Extents.FreeOf(es)).(saved := b.saved)
    ensures Take(PoolOf(b, slots, es), 1, capacity).r.Fine? && |b.frames| == frames
  {
    hide Extents.Valid, Extents.FreeOf, FreeAfter, Straight, BootTables, BootDir, Singles, Take, Clear, Tables;
    var p := PoolOf(BootBooks(l, frames, {}, Extents.FreeOf(es)), slots, es);
    assert PoolOf(b, slots, es) == p;
    FirstPages(l, frames, slots, es, 1, capacity);
    OneIsSingle(p, capacity);
  }

  // ---------------------------------------------------------------- when saving fails

  function FarExtents(): seq<Extents.Extent> {
    [Extents.Extent(ENTRIES, PAGE * (WINDOW - ENTRIES))]
  }

  lemma FarExtentsOk()
    ensures Extents.Valid(FarExtents()) && NextPage(FarExtents(), 1) == Some(WINDOW - ENTRIES)
    ensures forall p :: p in Extents.FreeOf(FarExtents()) ==> WINDOW - ENTRIES <= p < WINDOW
  {
    Extents.FreeOfOne(FarExtents()[0]);
  }

  /** The books after booting, with the last page's record still to be written, and only pages behind
      a directory entry without a table left free. */
  ghost function FullBooks(l: Layout, frames: nat, far: set<nat>): Books
    requires l.Fits()
  {
    BootBooks(l, frames, {}, far).(ledger := Straight(l.lower - 1, {}))
  }

  /** A page's record not written yet, and fewer pages free. */
  lemma Unwritten(b: Books, p: nat, free': set<nat>)
    requires b.Ok() && p in b.ledger && b.stale == {} && free' <= b.free
    ensures var b' := b.(ledger := b.ledger - {p}, free := free'); b'.Ok() && p in b'.InFlight()
  {
    hide Agree, HomesOk;
    RecordErased(b, p);
    assert b.stale - {p} == b.stale;
    SpaceTaken(b.(ledger := b.ledger - {p}), free');
  }

  lemma FullBooksOk(l: Layout, frames: nat, far: set<nat>)
    requires l.Fits() && l.lower <= frames && l.lower <= WINDOW - KERNEL - ENTRIES
    requires forall p :: p in far ==> WINDOW - ENTRIES <= p < WINDOW
    ensures FullBooks(l, frames, far).Ok() && KERNEL + l.lower - 1 in FullBooks(l, frames, far).InFlight()
  {
    hide Straight, BootTables, BootDir, BootFrames, Books.Ok, Flight;
    var free := set p: nat | KERNEL <= p < PAGES && !IsWindow(p) && !(p < KERNEL + l.lower);
    BootOk(l, frames, {}, free);
    var b, last := BootBooks(l, frames, {}, free), KERNEL + l.lower - 1;
    assert b.ledger - {last} == Straight(l.lower - 1, {});
    Unwritten(b, last, far);
  }

  /** With a full ledger and the only free pages behind a directory entry without a table, one record
      is too many, whatever a node holds and however large the kernel is. */
  method FullLedgerFails(l: Layout, frames: nat, capacity: nat) returns (r: Fault)
    requires l.Fits() && l.lower <= WINDOW - KERNEL - ENTRIES && l.lower + 2 <= frames
    requires 2 <= capacity && l.lower > 1 && (l.lower - 1) % capacity == 0
    ensures r.FailedToSave?
  {
    hide Books.Ok, Flight, Extents.Valid, Extents.FreeOf, Extents.PagesOf, NextPage, Straight, BootTables;
    FarExtentsOk();
    var space := new Extents.VirtualSpace(FarExtents());
    ghost var far := Extents.FreeOf(FarExtents());
    FullBooksOk(l, frames, far);
    var slots := l.lower - 1;
    var k := new PageAllocator(BootFrames(frames, l.lower, {}), BootDir(l), BootTables(l), Straight(slots, {}), space,
                               capacity, slots, FullBooks(l, frames, far));
    assert !k.frames[l.lower] && !k.frames[l.lower + 1] && TwoFree(k.frames);
    BootDirAt(l, (WINDOW - ENTRIES) / ENTRIES);
    assert SaveFails(slots, k.slots, k.space.extents, k.dir, k.frames);
    r := k.AddAllocation(KERNEL + slots, slots, false);
  }
}
