/**
  When an allocation succeeds. What decides it is little: the free extents, which directory entries
  have tables, how many frames are clear and how many slots no record has been made for. Here the
  calls are followed on that alone, without the lock, the saved record and the recursion.
 */
module Outcomes {
  import opened AddressSpace
  import opened PageTables
  import opened Ledger
  import opened Supply
  import Extents

  datatype Fault =
    | Fine
    | NothingAsked         // "Undefined behaviour": zero pages
    | OutOfSpace
    | OutOfFrames
    | DirectoryMissing
    | Permissions
    | AlreadyMapped
    | NotFlushed
    | FailedToSave
    | NotPresent
    | NotAllocated         // "Unallocated page"
    | FrameNotUsed         // "Unallocated frame"
    | UnknownPage
    | OrderFault
    | RingZero             // fork in ring 0
    | NotEmptied           // "Allocations aren't empty after deallocations"

  /** The faults that are a lack of something. */
  predicate Scarce(r: Fault) {
    r.OutOfSpace? || r.OutOfFrames? || r.FailedToSave?
  }

  /** The page an allocation of n pages starts at. */
  function NextPage(es: seq<Extents.Extent>, n: nat): Option<nat>
    requires n > 0
  {
    match Extents.BestFit(es, n)
    case None => None
    case Some(e) => Some(e.begin / PAGE)
  }

  predicate AllUsed(frames: seq<bool>) {
    forall i :: 0 <= i < |frames| ==> frames[i]
  }

  ghost predicate TwoFree(frames: seq<bool>) {
    exists f, g {:trigger frames[f], frames[g]} :: 0 <= f < g < |frames| && !frames[f] && !frames[g]
  }

  datatype Pool = Pool(es: seq<Extents.Extent>, tables: set<nat>, frames: nat, room: nat)

  /** How a call ends, and what it leaves if it succeeds. */
  datatype Outcome = Outcome(r: Fault, pool: Pool)

  function OneFrame(p: Pool): Outcome {
    if p.frames == 0 then Outcome(OutOfFrames, p) else Outcome(Fine, p.(frames := p.frames - 1))
  }

  /** A node for the ledger is on the next free page. It needs a frame, and its own record a slot; a table
      on top of that is too much. */
  function Node(p: Pool, capacity: nat): Outcome
    requires capacity >= 2
  {
    match NextPage(p.es, 1)
    case None => Outcome(OutOfSpace, p)
    case Some(q) =>
      if q / ENTRIES in p.tables then
        if p.frames == 0 then Outcome(OutOfFrames, p)
        else Outcome(Fine, p.(es := Extents.After(p.es, 1), frames := p.frames - 1, room := p.room + capacity - 1))
      else
        Outcome(if p.frames < 2 then OutOfFrames else FailedToSave, p)
  }

  function Record(p: Pool, capacity: nat): Outcome
    requires capacity >= 2
  {
    if p.room > 0 then Outcome(Fine, p.(room := p.room - 1))
    else
      var o := Node(p, capacity);
      if o.r.Fine? then Outcome(Fine, o.pool.(room := o.pool.room - 1)) else o
  }

  /** The table of a page, if it has none. */
  function Table(p: Pool, page: nat, capacity: nat): Outcome
    requires capacity >= 2
  {
    if page / ENTRIES in p.tables then Outcome(Fine, p)
    else
      var o := OneFrame(p);
      if o.r.Fine? then Record(o.pool.(tables := o.pool.tables + {page / ENTRIES}), capacity) else o
  }

  /** Mapping a page that is not mapped yet; the map of a process needs no slot. */
  function Map(p: Pool, page: nat, user: bool, capacity: nat): Outcome
    requires capacity >= 2
  {
    var o := Table(p, page, capacity);
    if o.r.Fine? && !user then Record(o.pool, capacity) else o
  }

  function Page(p: Pool, page: nat, user: bool, capacity: nat): Outcome
    requires capacity >= 2
  {
    var o := OneFrame(p);
    if o.r.Fine? then Map(o.pool, page, user, capacity) else o
  }

  /** n pages, one after the other. */
  function Pages(p: Pool, start: nat, n: nat, user: bool, capacity: nat): Outcome
    requires capacity >= 2
  {
    if n == 0 then Outcome(Fine, p)
    else
      var o := Pages(p, start, n - 1, user, capacity);
      if o.r.Fine? then Page(o.pool, start + n - 1, user, capacity) else o
  }

  /** n pages of the kernel, wherever the best fit has them. */
  function Take(p: Pool, n: nat, capacity: nat): Outcome
    requires capacity >= 2 && n > 0
  {
    match NextPage(p.es, n)
    case None => Outcome(OutOfSpace, p)
    case Some(q) => Pages(p.(es := Extents.After(p.es, n)), q, n, false, capacity)
  }

  /** n times one page. */
  function Singles(p: Pool, n: nat, capacity: nat): Outcome
    requires capacity >= 2
  {
    if n == 0 then Outcome(Fine, p)
    else
      var o := Singles(p, n - 1, capacity);
      if o.r.Fine? then Take(o.pool, 1, capacity) else o
  }

  lemma {:induction false} PagesStop(p: Pool, start: nat, i: nat, n: nat, user: bool, capacity: nat)
    requires capacity >= 2 && i <= n && !Pages(p, start, i, user, capacity).r.Fine?
    ensures Pages(p, start, n, user, capacity) == Pages(p, start, i, user, capacity)
  {
    if i < n {
      PagesStop(p, start, i, n - 1, user, capacity);
    }
  }

  lemma {:induction false} SinglesStop(p: Pool, i: nat, n: nat, capacity: nat)
    requires capacity >= 2 && i <= n && !Singles(p, i, capacity).r.Fine?
    ensures Singles(p, n, capacity) == Singles(p, i, capacity)
  {
    if i < n {
      SinglesStop(p, i, n - 1, capacity);
    }
  }

  lemma NoSingles(p: Pool, capacity: nat)
    requires capacity >= 2
    ensures Singles(p, 0, capacity) == Outcome(Fine, p)
  {
  }

  lemma SinglesNext(p: Pool, n: nat, capacity: nat)
    requires capacity >= 2 && Singles(p, n, capacity).r.Fine?
    ensures Singles(p, n + 1, capacity) == Take(Singles(p, n, capacity).pool, 1, capacity)
  {
    hide Take;
  }

  lemma {:induction false} SinglesThen(p: Pool, n: nat, m: nat, capacity: nat)
    requires capacity >= 2 && Singles(p, n, capacity).r.Fine?
    ensures Singles(p, n + m, capacity) == Singles(Singles(p, n, capacity).pool, m, capacity)
  {
    hide Take;
    if m > 0 {
      assert n + m - 1 == n + (m - 1);
      SinglesThen(p, n, m - 1, capacity);
    }
  }

  // ---------------------------------------------------------------- the allocator's state

  ghost function Clear(frames: seq<bool>): set<nat> {
    set i: nat | i < |frames| && !frames[i]
  }

  ghost function Tables(dir: seq<PageEntry>): set<nat> {
    set d: nat | d < |dir| && dir[d].present
  }

  /** What of the allocator's state decides. */
  ghost function PoolOf(b: Books, slots: nat, es: seq<Extents.Extent>): (p: Pool)
    ensures p.es == es
  {
    var records := |b.ledger| + if b.saveFlag then 1 else 0;
    Pool(es, Tables(b.dir), |Clear(b.frames)|, if records <= slots then slots - records else 0)
  }

  /** A call with this outcome ended with r and left p. */
  predicate Did(o: Outcome, r: Fault, p: Pool) {
    r == o.r && (r.Fine? ==> p == o.pool)
  }

  lemma NextFree(es: seq<Extents.Extent>)
    requires Extents.Valid(es) && NextPage(es, 1).Some?
    ensures NextPage(es, 1).value in Extents.FreeOf(es)
  {
    var i := Extents.UpperBound(es, 0);
    Extents.FreeMember(es, i);
    assert es[i].begin / PAGE in Extents.PagesOf(es[i]);
  }

  lemma NextSome(es: seq<Extents.Extent>)
    requires Extents.Valid(es)
    ensures NextPage(es, 1).Some? <==> Extents.FreeOf(es) != {}
  {
    if NextPage(es, 1).Some? {
      NextFree(es);
    } else if Extents.FreeOf(es) != {} {
      var p :| p in Extents.FreeOf(es);
      var i := Extents.FreeWitness(es, p);
    }
  }

  lemma TwoClear(frames: seq<bool>)
    ensures AllUsed(frames) <==> |Clear(frames)| == 0
    ensures TwoFree(frames) <==> |Clear(frames)| >= 2
  {
    var s := Clear(frames);
    if AllUsed(frames) {
      assert s == {};
    } else {
      var f :| 0 <= f < |frames| && !frames[f];
      assert f in s;
      if TwoFree(frames) {
        var g, h :| 0 <= g < h < |frames| && !frames[g] && !frames[h];
        assert {g, h} <= s && |{g, h}| == 2;
        MoreOf({g, h}, s);
      } else {
        assert s == {f};
      }
    }
  }

  lemma MoreOf(a: set<nat>, b: set<nat>)
    requires a <= b
    ensures |a| <= |b|
  {
    assert b == a + (b - a);
  }

  // ---------------------------------------------------------------- how much it takes

  ghost function StockOf(p: Pool): Stock {
    Stock(p.frames, |Extents.FreeOf(p.es)|, p.room)
  }

  /** Every free page has a table. */
  ghost predicate Covered(p: Pool) {
    forall q {:trigger q in Extents.FreeOf(p.es)} :: q in Extents.FreeOf(p.es) ==> q / ENTRIES in p.tables
  }

  /** A call takes f frames, v pages and the slots of k records, and succeeds when it can: always if no
      node is needed or every free page has a table, and with one frame to spare in any case, unless
      saving a record fails. */
  ghost predicate Costs(p: Pool, o: Outcome, f: nat, v: nat, k: nat, capacity: nat)
    requires capacity >= 2
  {
    && (o.r.Fine? || Scarce(o.r))
    && (o.r.Fine? ==>
          && Suffices(StockOf(p), f, v, k, capacity) && StockOf(o.pool) == Used(StockOf(p), f, v, k, capacity)
          && Extents.Valid(o.pool.es) && (Covered(p) ==> Covered(o.pool)))
    && (Suffices(StockOf(p), f, v, k, capacity) && (Covered(p) || Nodes(k, p.room, capacity) == 0) ==> o.r.Fine?)
    && (Suffices(StockOf(p), f + 1, v, k, capacity) ==> o.r.Fine? || o.r.FailedToSave?)
    && (o.r.FailedToSave? ==> !Covered(p) && Nodes(k, p.room, capacity) > 0)
  }

  lemma CostsThen(p: Pool, o: Outcome, o': Outcome, f: nat, v: nat, k: nat, f': nat, v': nat, k': nat, capacity: nat)
    requires capacity >= 2 && Costs(p, o, f, v, k, capacity)
    requires if o.r.Fine? then Costs(o.pool, o', f', v', k', capacity) else o' == o
    ensures Costs(p, o', f + f', v + v', k + k', capacity)
  {
    hide Suffices, Used, StockOf, Covered, Extents.Valid;
    var s := StockOf(p);
    NodesAdd(k, k', p.room, capacity);
    assert s.room == p.room by { RoomIs(p); }
    SufficesThen(s, f, v, k, f', v', k', capacity);
    SufficesThen(s, f, v, k, f' + 1, v', k', capacity);
    SufficesThen(s, f + 1, v, k, f', v', k', capacity);
    if o.r.Fine? {
      RoomIs(o.pool);
      RoomUsed(s, f, v, k, capacity);
    }
  }

  lemma RoomIs(p: Pool)
    ensures StockOf(p).room == p.room
  {
  }

  lemma RoomUsed(s: Stock, f: nat, v: nat, k: nat, capacity: nat)
    requires capacity >= 2 && Suffices(s, f, v, k, capacity)
    ensures Used(s, f, v, k, capacity).room == Rest(k, s.room, capacity)
  {
  }

  lemma CostsNothing(p: Pool, capacity: nat)
    requires capacity >= 2 && Extents.Valid(p.es)
    ensures Costs(p, Outcome(Fine, p), 0, 0, 0, capacity)
  {
  }

  lemma FrameCosts(p: Pool, capacity: nat)
    requires capacity >= 2 && Extents.Valid(p.es)
    ensures Costs(p, OneFrame(p), 1, 0, 0, capacity)
  {
    hide Extents.Valid, Extents.FreeOf;
  }

  lemma OneRecord(room: nat, capacity: nat)
    requires capacity >= 2
    ensures Nodes(1, room, capacity) == if room == 0 then 1 else 0
    ensures Rest(1, room, capacity) == if room == 0 then capacity - 2 else room - 1
  {
  }

  /** What the best fit takes out of the free space. */
  lemma SpaceLess(p: Pool, n: nat)
    requires Extents.Valid(p.es) && n > 0 && NextPage(p.es, n).Some?
    ensures var p' := p.(es := Extents.After(p.es, n));
      && Extents.Valid(p'.es) && StockOf(p).pages == StockOf(p').pages + n && (Covered(p) ==> Covered(p'))
    ensures var q := NextPage(p.es, n).value; forall i :: q <= i < q + n ==> i in Extents.FreeOf(p.es)
  {
    hide Extents.Valid, Extents.FreeOf, Extents.PagesOf, Extents.After, Extents.BestFit;
    Extents.AfterExact(p.es, n);
    var begin := Extents.BestFit(p.es, n).value.begin;
    var got := Extents.PagesOf(Extents.Extent(n, begin));
    ExtentPages(n, begin);
    var free := Extents.FreeOf(p.es);
    assert |free - got| == |free| - |got|;
  }

  lemma ExtentPages(n: nat, begin: nat)
    requires begin % PAGE == 0 && begin + PAGE * n <= SPACE
    ensures Extents.PagesOf(Extents.Extent(n, begin)) == Range(begin / PAGE, n)
    ensures |Extents.PagesOf(Extents.Extent(n, begin))| == n
  {
    RangeSize(begin / PAGE, n);
  }

  predicate Within(p: nat, start: nat, n: nat) {
    start <= p < start + n
  }

  function Range(start: nat, n: nat): set<nat> {
    set p: nat | p < start + n && Within(p, start, n)
  }

  lemma {:induction false} RangeSize(start: nat, n: nat)
    ensures |Range(start, n)| == n
  {
    if n > 0 {
      RangeSize(start, n - 1);
      assert Range(start, n) == Range(start, n - 1) + {start + n - 1};
    } else {
      assert Range(start, 0) == {};
    }
  }

  lemma RecordCosts(p: Pool, capacity: nat)
    requires capacity >= 2 && Extents.Valid(p.es)
    ensures Costs(p, Record(p, capacity), 0, 0, 1, capacity)
  {
    hide Extents.Valid, Extents.FreeOf, Extents.BestFit, Nodes, Rest, Extents.After, Covered;
    OneRecord(p.room, capacity);
    var o := Record(p, capacity);
    if p.room > 0 {
      SameCover(p, o.pool);
    } else {
      NextSome(p.es);
      if NextPage(p.es, 1).Some? {
        SpaceLess(p, 1);
        CoveredNext(p);
        SameCover(p.(es := Extents.After(p.es, 1)), o.pool);
      } else {
        assert StockOf(p).pages == 0;
      }
    }
  }

  lemma CoveredNext(p: Pool)
    requires Extents.Valid(p.es) && NextPage(p.es, 1).Some?
    ensures Covered(p) ==> NextPage(p.es, 1).value / ENTRIES in p.tables
  {
    NextFree(p.es);
  }

  lemma SameCover(p: Pool, p': Pool)
    ensures p.es == p'.es && p.tables <= p'.tables && Covered(p) ==> Covered(p')
  {
  }

  // ---------------------------------------------------------------- tables and ranges

  /** The directory entries of n pages. */
  function Parts(start: nat, n: nat): set<nat> {
    if n == 0 then {} else Parts(start, n - 1) + {(start + n - 1) / ENTRIES}
  }

  /** How many of them have no table yet. */
  function NewTables(tables: set<nat>, start: nat, n: nat): nat {
    |Parts(start, n) - tables|
  }

  lemma {:induction false} PartsMore(start: nat, i: nat, n: nat)
    requires i <= n
    ensures Parts(start, i) <= Parts(start, n)
  {
    if i < n {
      PartsMore(start, i, n - 1);
    }
  }

  lemma TablesStep(tables: set<nat>, tables': set<nat>, start: nat, i: nat)
    requires tables' == tables + Parts(start, i)
    ensures NewTables(tables, start, i + 1) ==
            NewTables(tables, start, i) + if (start + i) / ENTRIES in tables' then 0 else 1
  {
    var d := (start + i) / ENTRIES;
    if d in tables' {
      assert Parts(start, i + 1) - tables == Parts(start, i) - tables;
    } else {
      assert Parts(start, i + 1) - tables == (Parts(start, i) - tables) + {d};
    }
  }

  /** A table costs a frame and a record if there is none; the directory has it then. */
  lemma TableCosts(p: Pool, page: nat, capacity: nat)
    requires capacity >= 2 && Extents.Valid(p.es)
    ensures var t := if page / ENTRIES in p.tables then 0 else 1; Costs(p, Table(p, page, capacity), t, 0, t, capacity)
    ensures Table(p, page, capacity).r.Fine? ==> Table(p, page, capacity).pool.tables == p.tables + {page / ENTRIES}
  {
    hide Costs, Covered, Extents.Valid, Extents.FreeOf, Record;
    if page / ENTRIES in p.tables {
      CostsNothing(p, capacity);
      assert p.tables == p.tables + {page / ENTRIES};
    } else {
      FrameCosts(p, capacity);
      if OneFrame(p).r.Fine? {
        var p1 := OneFrame(p).pool;
        var p2 := p1.(tables := p1.tables + {page / ENTRIES});
        MoreTables(p1, p2, capacity);
        CostsThen(p, OneFrame(p), Outcome(Fine, p2), 1, 0, 0, 0, 0, 0, capacity);
        RecordCosts(p2, capacity);
        RecordTables(p2, capacity);
      }
      CostsThen(p, if OneFrame(p).r.Fine? then Outcome(Fine, OneFrame(p).pool.(tables := p.tables + {page / ENTRIES}))
                   else OneFrame(p),
                Table(p, page, capacity), 1, 0, 0, 0, 0, 1, capacity);
    }
  }

  lemma MoreTables(p: Pool, p': Pool, capacity: nat)
    requires capacity >= 2 && Extents.Valid(p.es) && p' == p.(tables := p'.tables) && p.tables <= p'.tables
    ensures Costs(p, Outcome(Fine, p'), 0, 0, 0, capacity)
  {
  }

  lemma RecordTables(p: Pool, capacity: nat)
    requires capacity >= 2
    ensures Record(p, capacity).r.Fine? ==> Record(p, capacity).pool.tables == p.tables
  {
    hide NextPage, Extents.After;
  }

  lemma PageCosts(p: Pool, page: nat, user: bool, capacity: nat)
    requires capacity >= 2 && Extents.Valid(p.es)
    ensures var t, k := if page / ENTRIES in p.tables then 0 else 1, if user then 0 else 1;
      Costs(p, Page(p, page, user, capacity), 1 + t, 0, k + t, capacity)
    ensures Page(p, page, user, capacity).r.Fine? ==>
      Page(p, page, user, capacity).pool.tables == p.tables + {page / ENTRIES}
  {
    hide Costs, Covered, Extents.Valid, Extents.FreeOf, Record, Table;
    var t, k := if page / ENTRIES in p.tables then 0 else 1, if user then 0 else 1;
    FrameCosts(p, capacity);
    var o := OneFrame(p);
    if o.r.Fine? {
      CostsValid(p, o, 1, 0, 0, capacity);
      TableCosts(o.pool, page, capacity);
      var o' := Table(o.pool, page, capacity);
      if o'.r.Fine? {
        CostsValid(o.pool, o', t, 0, t, capacity);
        RecordCosts(o'.pool, capacity);
        CostsNothing(o'.pool, capacity);
        RecordTables(o'.pool, capacity);
      }
      CostsThen(o.pool, o', Map(o.pool, page, user, capacity), t, 0, t, 0, 0, k, capacity);
    }
    CostsThen(p, o, Page(p, page, user, capacity), 1, 0, 0, t, 0, k + t, capacity);
  }

  lemma CostsValid(p: Pool, o: Outcome, f: nat, v: nat, k: nat, capacity: nat)
    requires capacity >= 2 && Costs(p, o, f, v, k, capacity) && o.r.Fine?
    ensures Extents.Valid(o.pool.es) && (Covered(p) ==> Covered(o.pool))
  {
  }

  /** A frame for every page, k records for every page of the kernel, and both for every new table. */
  lemma {:induction false} PagesCosts(p: Pool, start: nat, n: nat, user: bool, capacity: nat)
    requires capacity >= 2 && Extents.Valid(p.es)
    ensures var t := NewTables(p.tables, start, n);
      Costs(p, Pages(p, start, n, user, capacity), n + t, 0, (if user then 0 else n) + t, capacity)
    ensures Pages(p, start, n, user, capacity).r.Fine? ==>
      Pages(p, start, n, user, capacity).pool.tables == p.tables + Parts(start, n)
  {
    hide Costs, Covered, Extents.Valid, Extents.FreeOf, Page, NewTables;
    if n == 0 {
      CostsNothing(p, capacity);
      assert NewTables(p.tables, start, 0) == 0 by { NoTables(p.tables, start); }
      assert p.tables == p.tables + Parts(start, 0);
    } else {
      PagesCosts(p, start, n - 1, user, capacity);
      var o, t := Pages(p, start, n - 1, user, capacity), NewTables(p.tables, start, n - 1);
      var k := if user then 0 else n - 1;
      var t', k' := if (start + n - 1) / ENTRIES in p.tables + Parts(start, n - 1) then 0 else 1, if user then 0 else 1;
      TablesStep(p.tables, p.tables + Parts(start, n - 1), start, n - 1);
      if o.r.Fine? {
        CostsValid(p, o, n - 1 + t, 0, k + t, capacity);
        PageCosts(o.pool, start + n - 1, user, capacity);
        assert Parts(start, n) == Parts(start, n - 1) + {(start + n - 1) / ENTRIES};
      }
      CostsThen(p, o, Pages(p, start, n, user, capacity), n - 1 + t, 0, k + t, 1 + t', 0, k' + t', capacity);
    }
  }

  lemma NoTables(tables: set<nat>, start: nat)
    ensures NewTables(tables, start, 0) == 0
  {
    assert Parts(start, 0) - tables == {};
  }

  // ---------------------------------------------------------------- the kernel's own pages

  /** Once the space is there, n pages take n frames and n records, and both for every new table. */
  lemma TakeCosts(p: Pool, n: nat, capacity: nat)
    requires capacity >= 2 && n > 0 && Extents.Valid(p.es) && NextPage(p.es, n).Some?
    ensures var t := NewTables(p.tables, NextPage(p.es, n).value, n);
      Costs(p, Take(p, n, capacity), n + t, n, n + t, capacity)
    ensures Covered(p) ==> NewTables(p.tables, NextPage(p.es, n).value, n) == 0
  {
    hide Costs, Covered, Extents.Valid, Extents.FreeOf, Pages, NewTables, Extents.BestFit, Extents.After;
    SpaceLess(p, n);
    var q, p' := NextPage(p.es, n).value, p.(es := Extents.After(p.es, n));
    var t := NewTables(p.tables, q, n);
    SpaceCosts(p, p', n, capacity);
    PagesCosts(p', q, n, false, capacity);
    CostsThen(p, Outcome(Fine, p'), Take(p, n, capacity), 0, n, 0, n + t, 0, n + t, capacity);
    if Covered(p) {
      CoveredParts(p, q, n);
    }
  }

  lemma SpaceCosts(p: Pool, p': Pool, n: nat, capacity: nat)
    requires capacity >= 2 && p' == p.(es := p'.es) && Extents.Valid(p'.es) && (Covered(p) ==> Covered(p'))
    requires StockOf(p).pages == StockOf(p').pages + n
    ensures Costs(p, Outcome(Fine, p'), 0, n, 0, capacity)
  {
    hide Covered, Extents.Valid, Extents.FreeOf;
  }

  lemma {:induction false} CoveredParts(p: Pool, start: nat, n: nat)
    requires Covered(p) && forall i :: start <= i < start + n ==> i in Extents.FreeOf(p.es)
    ensures Parts(start, n) <= p.tables && NewTables(p.tables, start, n) == 0
  {
    if n > 0 {
      CoveredParts(p, start, n - 1);
      assert start + n - 1 in Extents.FreeOf(p.es);
    }
    assert Parts(start, n) - p.tables == {};
  }

  /** The outcome of a request for n pages, decided by the supply alone if every free page has a table.
      Otherwise t new tables may be needed, and saving a record may fail, if a node is needed. */
  lemma TakeMeans(p: Pool, n: nat, capacity: nat)
    requires capacity >= 2 && n > 0 && Extents.Valid(p.es) && NextPage(p.es, n).Some?
    ensures var o, s, t := Take(p, n, capacity), StockOf(p), NewTables(p.tables, NextPage(p.es, n).value, n);
      && (Covered(p) ==> (o.r.Fine? <==> Suffices(s, n, n, n, capacity)))
      && (o.r.Fine? ==> Suffices(s, n + t, n, n + t, capacity))
      && (Suffices(s, n + t, n, n + t, capacity) && Nodes(n + t, p.room, capacity) == 0 ==> o.r.Fine?)
      && (Suffices(s, n + t + 1, n, n + t, capacity) ==> o.r.Fine? || o.r.FailedToSave?)
      && (o.r.FailedToSave? ==> !Covered(p) && Nodes(n + t, p.room, capacity) > 0)
  {
    hide Covered, Extents.Valid, Extents.FreeOf, Take, NewTables, Suffices;
    TakeCosts(p, n, capacity);
  }

  lemma NoSpace(p: Pool, n: nat, capacity: nat)
    requires capacity >= 2 && n > 0 && NextPage(p.es, n).None?
    ensures Take(p, n, capacity).r == OutOfSpace
  {
  }

  /** Saving fails for a single page exactly when its record, or that of its table, finds no slot, and the
      page a node would get has no table, not even the one just made, while two more frames are clear. */
  lemma OneSaves(p: Pool, capacity: nat)
    requires capacity >= 3 && Extents.Valid(p.es) && NextPage(p.es, 1).Some?
    ensures var q, next := NextPage(p.es, 1).value, NextPage(Extents.After(p.es, 1), 1);
      var t := if q / ENTRIES in p.tables then 0 else 1;
      Take(p, 1, capacity).r.FailedToSave? <==>
        p.room < 1 + t && next.Some? && next.value / ENTRIES !in p.tables + {q / ENTRIES} && 3 + t <= p.frames
  {
    hide Extents.Valid, Extents.BestFit, Extents.After;
    var q, p' := NextPage(p.es, 1).value, p.(es := Extents.After(p.es, 1));
    assert Pages(p', q, 1, false, capacity) == Page(p', q, false, capacity) by {
      assert Pages(p', q, 0, false, capacity) == Outcome(Fine, p');
    }
  }

  // ---------------------------------------------------------------- pages taken one at a time

  /** n pages one at a time, t of them with a new table. */
  ghost predicate SinglesWith(p: Pool, n: nat, t: nat, capacity: nat)
    requires capacity >= 2
  {
    t <= n && (Covered(p) ==> t == 0) && Costs(p, Singles(p, n, capacity), n + t, n, n + t, capacity)
  }

  lemma {:induction false} SinglesCosts(p: Pool, n: nat, capacity: nat) returns (t: nat)
    requires capacity >= 2 && Extents.Valid(p.es)
    ensures SinglesWith(p, n, t, capacity)
  {
    hide Costs, Covered, Extents.Valid, Extents.FreeOf, Take;
    if n == 0 {
      CostsNothing(p, capacity);
      return 0;
    }
    t := SinglesCosts(p, n - 1, capacity);
    var o, t' := Singles(p, n - 1, capacity), 0;
    if o.r.Fine? {
      CostsValid(p, o, n - 1 + t, n - 1, n - 1 + t, capacity);
      t' := OneCosts(o.pool, capacity);
    }
    CostsThen(p, o, Singles(p, n, capacity), n - 1 + t, n - 1, n - 1 + t, 1 + t', 1, 1 + t', capacity);
    t := t + t';
  }

  lemma OneCosts(p: Pool, capacity: nat) returns (t: nat)
    requires capacity >= 2 && Extents.Valid(p.es)
    ensures t <= 1 && (Covered(p) ==> t == 0) && Costs(p, Take(p, 1, capacity), 1 + t, 1, 1 + t, capacity)
  {
    hide Covered, Extents.Valid, Extents.FreeOf, Pages;
    t := 0;
    NextSome(p.es);
    if NextPage(p.es, 1).Some? {
      TakeCosts(p, 1, capacity);
      OneTable(p.tables, NextPage(p.es, 1).value);
      t := NewTables(p.tables, NextPage(p.es, 1).value, 1);
    } else {
      assert StockOf(p).pages == 0;
    }
  }

  lemma OneIsSingle(p: Pool, capacity: nat)
    requires capacity >= 2
    ensures Singles(p, 1, capacity) == Take(p, 1, capacity)
  {
    hide Take;
    assert Singles(p, 0, capacity) == Outcome(Fine, p);
  }

  lemma OneTable(tables: set<nat>, q: nat)
    ensures NewTables(tables, q, 1) == if q / ENTRIES in tables then 0 else 1
  {
    assert Parts(q, 1) == {q / ENTRIES};
    if q / ENTRIES in tables {
      assert Parts(q, 1) - tables == {};
    } else {
      assert Parts(q, 1) - tables == {q / ENTRIES};
    }
  }

  /** For n pages one at a time it is the same; there may be a new table for each. */
  lemma SinglesMean(p: Pool, n: nat, capacity: nat)
    requires capacity >= 2 && Extents.Valid(p.es)
    ensures var o, s := Singles(p, n, capacity), StockOf(p);
      && (Covered(p) ==> (o.r.Fine? <==> Suffices(s, n, n, n, capacity)))
      && (o.r.Fine? ==> Suffices(s, n, n, n, capacity))
      && (Suffices(s, 2 * n, n, 2 * n, capacity) && Nodes(2 * n, p.room, capacity) == 0 ==> o.r.Fine?)
      && (Suffices(s, 2 * n + 1, n, 2 * n, capacity) ==> o.r.Fine? || o.r.FailedToSave?)
      && (o.r.FailedToSave? ==> !Covered(p) && Nodes(2 * n, p.room, capacity) > 0)
  {
    hide Covered, Extents.Valid, Extents.FreeOf, Singles, Suffices;
    var t := SinglesCosts(p, n, capacity);
    var s := StockOf(p);
    NodesAdd(n + t, n - t, s.room, capacity);
    if Suffices(s, n + t, n, n + t, capacity) {
      SufficesLess(s, n, n, n, n + t, n, n + t, capacity);
    }
    if Suffices(s, 2 * n + 1, n, 2 * n, capacity) {
      SufficesLess(s, n + t + 1, n, n + t, 2 * n + 1, n, 2 * n, capacity);
    }
    if Suffices(s, 2 * n, n, 2 * n, capacity) {
      SufficesLess(s, n + t, n, n + t, 2 * n, n, 2 * n, capacity);
    }
  }

  /** And for n pages of a process at a given place. */
  lemma PagesMean(p: Pool, start: nat, n: nat, capacity: nat)
    requires capacity >= 2 && Extents.Valid(p.es)
    ensures var o, s, t := Pages(p, start, n, true, capacity), StockOf(p), NewTables(p.tables, start, n);
      && (Covered(p) ==> (o.r.Fine? <==> Suffices(s, n + t, 0, t, capacity)))
      && (o.r.Fine? ==> Suffices(s, n + t, 0, t, capacity))
      && (Suffices(s, n + t, 0, t, capacity) && Nodes(t, p.room, capacity) == 0 ==> o.r.Fine?)
      && (Suffices(s, n + t + 1, 0, t, capacity) ==> o.r.Fine? || o.r.FailedToSave?)
      && (o.r.FailedToSave? ==> !Covered(p) && Nodes(t, p.room, capacity) > 0)
  {
    hide Covered, Extents.Valid, Extents.FreeOf, Pages, NewTables, Suffices;
    PagesCosts(p, start, n, true, capacity);
  }
}
