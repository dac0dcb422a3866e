/**
  The page allocator. Its record of kernel mappings is a map whose nodes live in pages taken from
  the allocator itself: storing a record may take a page, whose own records are then saved for
  later. A panic of the kernel is a fault here; what is stored after a fault is of no interest.
 */
module KernelPages {
  import opened AddressSpace
  import opened PageTables
  import opened Ledger
  import opened Supply
  import opened Outcomes
  import Extents

  /** Rank of the call: nothing called under the lock takes it again. */
  function Rank(lock: bool): nat {
    if lock then 0 else 1
  }

  class PageAllocator {
    var frames: seq<bool>
    var lastFrame: nat
    var dir: seq<PageEntry>
    var tables: map<nat, seq<PageEntry>>
    var ledger: map<nat, nat>            // kernel pages to frames
    var user: map<nat, nat>              // pages of the current process to frames
    var saveFlag: bool
    var saved: Saved
    var lock: bool
    var slots: nat                       // of the ledger's nodes, used and unused
    const capacity: nat                  // slots of one node
    const space: Extents.VirtualSpace
    ghost var owner: map<nat, nat>
    ghost var loose: set<nat>
    ghost var stale: set<nat>
    ghost const image: set<nat>
    ghost const alias: map<nat, nat>

    ghost function Now(): Books
      reads this, space
    {
      Books(frames, dir, tables, ledger, saveFlag, saved, Extents.FreeOf(space.extents), owner, loose, stale, image,
            alias)
    }

    /** What there is for allocations. */
    ghost function Supply(): Pool
      reads this, space
    {
      PoolOf(Now(), slots, space.extents)
    }

    ghost predicate Valid()
      reads this, space
    {
      Now().Ok() && RoomOk(|ledger|, slots, saveFlag, lock) && space.Ok() && 2 <= capacity
    }

    /** Booting leaves frames, tables and records that agree. */
    constructor (frames: seq<bool>, dir: seq<PageEntry>, tables: map<nat, seq<PageEntry>>, ledger: map<nat, nat>,
                 space: Extents.VirtualSpace, capacity: nat, slots: nat, ghost boot: Books)
      requires boot.Ok() && !boot.saveFlag && space.Ok() && 2 <= capacity && |ledger| <= slots
      requires boot == boot.(frames := frames, dir := dir, tables := tables, ledger := ledger,
          free := Extents.FreeOf(space.extents))
      ensures Valid() && Now() == boot.(saved := saved) && Now().InFlight() == boot.InFlight()
      ensures this.space == space && !lock && this.slots == slots && this.capacity == capacity && user == map[]
    {
      hide Books.Ok, Flight, Extents.FreeOf, Extents.Valid;
      this.frames, lastFrame, this.dir, this.tables, this.ledger, user := frames, 0, dir, tables, ledger, map[];
      saveFlag, saved, lock := false, Saved(0, 0), false;
      this.slots, this.capacity, this.space := slots, capacity, space;
      owner, loose, stale, image, alias := boot.owner, boot.loose, boot.stale, boot.image, boot.alias;
      new;
      SavedUnused(boot, saved);
    }

    method AllocateFrame() returns (f: nat, r: Fault)
      requires Valid()
      modifies `frames, `lastFrame, `loose
      ensures r.Fine? || r.OutOfFrames?
      ensures r.OutOfFrames? <==> AllUsed(old(frames))
      ensures r.OutOfFrames? ==> Now() == old(Now())
      ensures r.Fine? ==> Valid() && TookFrame(old(Now()), Now(), f) && Now().InFlight() == old(Now().InFlight())
      ensures r.Fine? ==> lastFrame == (old(lastFrame) + f) % |frames|
    {
      hide Books.Ok, Flight, Extents.FreeOf, Extents.Valid;
      var i := 0;
      while i < |frames|
        invariant i <= |frames| && frames == old(frames) && loose == old(loose)
        invariant forall j :: 0 <= j < i ==> frames[j]
      {
        var index := (lastFrame + i) % |frames|;
        if !frames[i] {
          FrameTaken(Now(), i);
          frames := frames[i := true];
          lastFrame := index;
          loose := loose + {i};
          return i, Fine;
        }
        i := i + 1;
      }
      return 0, OutOfFrames;
    }

    /** Deal with the record put aside, if there is one. Under the lock it is only put aside again. */
    method Flush() returns (r: Fault)
      requires Valid()
      modifies this, space
      ensures r.Fine? && Valid() && lock == old(lock) && slots == old(slots)
      ensures space.extents == old(space.extents) && user == old(user)
      ensures Now().InFlight() == old(Now().InFlight())
      ensures old(lock) ==> Now() == old(Now())
      ensures !old(lock) ==> Now() == old(Now()).(saveFlag := false, ledger := ledger)
      ensures !old(lock) ==>
        ledger == if old(saveFlag) then old(ledger)[old(saved.page) := old(saved.frame)] else old(ledger)
      ensures !old(lock) ==> |ledger| == |old(ledger)| + if old(saveFlag) then 1 else 0
      ensures Grew(old(Now()), Now(), {}) && (Ready(old(Now())) ==> Ready(Now()))
      decreases Rank(lock), 2, if saveFlag then 1 else 0, 0
    {
      hide Books.Ok, Flight, Extents.FreeOf, Extents.Valid, SaveFails, Ready, Grew;
      ghost var b0 := Now();
      r := Fine;
      if saveFlag {
        SavedTaken(b0);
        saveFlag := false;
        r := AddAllocation(saved.page, saved.frame, false);
      }
      Flushed(b0, Now());
    }

    /** A record goes to the ledger, to the process's map, or, under the lock, to the side. A record
        put aside earlier is dealt with first. */
    method AddAllocation(from: nat, to: nat, userspace: bool) returns (r: Fault)
      requires Valid() && from in owner && owner[from] == to
      requires if userspace then from < KERNEL && !lock && from !in user else from in Now().InFlight()
      modifies this, space
      ensures r.Fine? || Scarce(r)
      ensures r.Fine? ==> Valid() && Grew(old(Now()), Now(), {}) && lock == old(lock) && loose == old(loose)
      ensures r.Fine? ==> Now().InFlight() == old(Now().InFlight()) - {from}
      ensures r.Fine? ==> user == if userspace then old(user)[from := to] else old(user)
      ensures r.Fine? && !lock && !userspace ==> from in ledger
      ensures !old(lock) && !userspace ==> Did(Record(old(Supply()), capacity), r, Supply())
      ensures !old(lock) && userspace ==> Supply() == old(Supply())
      ensures !old(lock) && userspace ==> r.Fine?
      ensures r.OutOfFrames? ==> AllUsed(frames)
      ensures r.OutOfSpace? ==> NextPage(space.extents, 1).None?
      ensures r.Fine? ==> dir == old(dir)
      ensures old(lock) ==> ledger == old(ledger) && slots == old(slots) && space.extents == old(space.extents)
      ensures old(lock) ==> r == if old(saveFlag) then FailedToSave else Fine
      ensures old(lock) && r.Fine? ==> Now() == old(Now()).(saveFlag := true, saved := Saved(from, to))
      ensures !old(lock) && !userspace && !old(saveFlag) && |old(ledger)| < old(slots) ==>
                r.Fine? && Now() == old(Now()).(ledger := old(ledger)[from := to]) && slots == old(slots)
                && space.extents == old(space.extents)
      ensures !old(lock) && !userspace ==>
                (r.FailedToSave? <==> SaveFails(|old(ledger)| + if old(saveFlag) then 1 else 0, old(slots),
                                                old(space.extents), old(dir), old(frames)))
      ensures !old(lock) && r.FailedToSave? ==> !Ready(old(Now()))
      decreases Rank(lock), 2, if saveFlag then 1 else 0, 1
    {
      hide Books.Ok, Flight, Extents.FreeOf, Extents.Valid, SaveFails, Ready, Grew, PoolOf, Record, AllUsed, NextPage;
      ghost var b0, s0, es := Now(), slots, space.extents;
      UserPage(b0, from);
      r := Flush();
      ghost var b1 := Now();
      if !lock {
        if saveFlag {
          return NotFlushed;
        }
        SameSupply(b0, b1, s0, es);
        if userspace {
          user := user[from := to];
          r := Fine;
        } else {
          r := EmplaceLedger(from, to);
          if r == Fine {
            GrewTrans(b0, b1, Now(), {}, {}, {});
          }
        }
      } else {
        if saveFlag {
          return FailedToSave;
        }
        RecordSaved(Now(), from);
        saved := Saved(from, to);
        saveFlag := true;
        Flushed(b0, Now());
        r := Fine;
      }
    }

    /** Insert into the ledger: its allocator takes a page, under the lock, when no slot is free. */
    method EmplaceLedger(from: nat, to: nat) returns (r: Fault)
      requires Valid() && from in owner && owner[from] == to && from in Now().InFlight()
      requires !lock && !saveFlag
      modifies this, space
      ensures r.Fine? || Scarce(r)
      ensures r.Fine? ==> Valid() && Grew(old(Now()), Now(), {}) && !lock && loose == old(loose)
      ensures r.Fine? ==> Now().InFlight() == old(Now().InFlight()) - {from} && user == old(user) && from in ledger
      ensures |old(ledger)| < old(slots) ==>
                r.Fine? && Now() == old(Now()).(ledger := old(ledger)[from := to]) && slots == old(slots)
                && space.extents == old(space.extents)
      ensures Did(Record(old(Supply()), capacity), r, Supply())
      ensures r.OutOfFrames? ==> AllUsed(frames)
      ensures r.OutOfSpace? ==> NextPage(space.extents, 1).None?
      ensures r.Fine? ==> dir == old(dir)
      ensures r.FailedToSave? <==> SaveFails(|old(ledger)|, old(slots), old(space.extents), old(dir), old(frames))
      ensures r.FailedToSave? ==> !Ready(old(Now()))
      decreases Rank(lock), 2, 0, 0
    {
      hide Books.Ok, Flight, Extents.FreeOf, Extents.Valid, Ready, Grew, PoolOf, Record, Did, AllUsed, SaveFails,
          NextPage, Stored;
      ghost var b0, es, s0 := Now(), space.extents, slots;
      if |ledger| == slots {
        r := StoreWithNode(from, to);
      } else {
        WriteRecord(from, to);
        StoredRoom(b0, es, Now(), s0, from, to, capacity);
        r := Fine;
      }
      StoredMeans(b0, es, Now(), space.extents, s0, slots, from, capacity, r);
    }

    /** A record, when there is no slot for it. */
    method StoreWithNode(from: nat, to: nat) returns (r: Fault)
      requires Valid() && from in owner && owner[from] == to && from in Now().InFlight()
      requires !lock && !saveFlag && |ledger| == slots
      modifies this, space
      ensures r.Fine? || Scarce(r)
      ensures Stored(old(Now()), old(space.extents), Now(), space.extents, old(slots), slots, from, capacity, r)
      ensures r.Fine? ==> Valid() && !lock && user == old(user)
      ensures r.OutOfFrames? ==> AllUsed(frames)
      ensures r.OutOfSpace? ==> NextPage(space.extents, 1).None?
      decreases Rank(lock), 1
    {
      hide Books.Ok, Flight, Extents.FreeOf, Extents.Valid, Ready, Grew, AllUsed, NodeTaken, NodeOutcome, NodeSpace,
          NextPage, Stored;
      ghost var b0, es, s0 := Now(), space.extents, slots;
      r := TakeNode();
      if r != Fine {
        StoredNot(b0, es, Now(), space.extents, s0, slots, from, capacity, r);
        return;
      }
      ghost var b1 := Now();
      GrewKeeps(b0, b1, {}, from);
      NodeLedger(b0, b1);
      WriteRecord(from, to);
      StoredNode(b0, es, b1, Now(), space.extents, s0, from, to, capacity);
    }

    /** A new node for the ledger. The page is taken under the lock. */
    method TakeNode() returns (r: Fault)
      requires Valid() && !lock && !saveFlag && |ledger| == slots
      modifies this, space
      ensures r.Fine? || Scarce(r)
      ensures NodeOutcome(old(Now()), old(space.extents), r)
      ensures r.Fine? ==> Valid() && Grew(old(Now()), Now(), {}) && !lock && loose == old(loose) && user == old(user)
      ensures r.Fine? ==> Now().InFlight() == old(Now().InFlight()) && slots == old(slots) + capacity
      ensures r.Fine? ==> NodeTaken(old(Now()), Now())
      ensures r.Fine? ==> NodeSpace(old(space.extents), space.extents)
      ensures r.OutOfFrames? ==> AllUsed(frames)
      ensures r.OutOfSpace? ==> NextPage(space.extents, 1).None?
      ensures r.FailedToSave? ==> !Ready(old(Now()))
      ensures !r.Fine? ==> slots == old(slots)
      decreases Rank(lock), 0
    {
      hide Books.Ok, Flight, Extents.FreeOf, Extents.Valid, TwoFree, Ready, Grew, HasTable, AllUsed, NodeTaken,
          NodeOutcome, NodeSpace;
      ghost var b0, es := Now(), space.extents;
      lock := true;
      var node;
      node, r := AllocatePages(1);
      lock := false;
      if r != Fine {
        if r == FailedToSave {
          NodeNotReady(b0, es);
        }
        return;
      }
      slots := slots + capacity;
    }

    /** Write a record into a slot that is free. */
    method WriteRecord(from: nat, to: nat)
      requires Valid() && from in owner && owner[from] == to && from in Now().InFlight()
      requires |ledger| + (if saveFlag then 1 else 0) < slots
      modifies `ledger
      ensures Valid() && from !in old(ledger) && ledger == old(ledger)[from := to]
      ensures Grew(old(Now()), Now(), {}) && Now().InFlight() == old(Now().InFlight()) - {from}
    {
      hide Books.Ok, Flight, Extents.FreeOf, Extents.Valid, Grew;
      ghost var b0 := Now();
      GrewSame(b0);
      RecordWritten(b0, from);
      ledger := ledger[from := to];
      RecordGrew(b0, b0, from);
    }

    /** Replace directory, tables and what the kernel knows of them. */
    method SetMaps(newDir: seq<PageEntry>, newTables: map<nat, seq<PageEntry>>,
                   ghost newOwner: map<nat, nat>, ghost newLoose: set<nat>, ghost newStale: set<nat>)
      requires Valid()
      requires Now().(dir := newDir, tables := newTables, owner := newOwner, loose := newLoose, stale := newStale).Ok()
      modifies `dir, `tables, `owner, `loose, `stale
      ensures Valid()
      ensures Now() ==
        old(Now()).(dir := newDir, tables := newTables, owner := newOwner, loose := newLoose, stale := newStale)
    {
      hide Books.Ok, Flight, Extents.FreeOf, Extents.Valid;
      dir, tables, owner, loose, stale := newDir, newTables, newOwner, newLoose, newStale;
    }

    /** Enter a new table into the catalog and the directory. */
    method InstallTable(d: nat, table: nat, userspace: bool)
      requires Valid() && d < ENTRIES && !HasTable(dir, d * ENTRIES) && !IsWindow(d * ENTRIES) && table in loose
      requires userspace <==> d * ENTRIES < KERNEL
      modifies `dir, `tables, `owner, `loose, `stale
      ensures Valid() && MadeTable(old(Now()), Now(), d, table)
      ensures Now().InFlight() == old(Now().InFlight()) + {WINDOW + d} && WINDOW + d !in old(Now().InFlight())
    {
      hide Books.Ok, Flight, Extents.FreeOf, Extents.Valid, RoomOk;
      Looked(Now(), d * ENTRIES);
      TableMade(Now(), d, table);
      SetMaps(dir[d := PageEntry(true, true, userspace, table)], WithTable(dir, tables, d, table, Zeros()),
              owner[WINDOW + d := table], loose - {table}, stale);
    }

    /** Enter a page into its table, as found through the window. */
    method InstallEntry(page: nat, frame: nat, userspace: bool) returns (r: Fault)
      requires Valid() && page < PAGES && !IsWindow(page) && HasTable(dir, page) && (userspace <==> page < KERNEL)
      requires frame in loose && page !in Now().free && (page !in owner ==> page !in ledger)
      modifies `dir, `tables, `owner, `loose, `stale
      ensures r == if page in old(owner) then AlreadyMapped else Fine
      ensures r.Fine? ==> Valid() && MadeEntry(old(Now()), Now(), page, frame)
      ensures r.Fine? ==>
        Now().InFlight() - {page} == old(Now().InFlight()) && (page in Now().InFlight() <==> KERNEL <= page)
      ensures r.Fine? && userspace ==> Now().InFlight() == old(Now().InFlight())
    {
      hide Books.Ok, Flight, Extents.FreeOf, Extents.Valid, RoomOk;
      Looked(Now(), page);
      var t := tables[dir[CATALOG].frame][page / ENTRIES].frame;
      if tables[t][page % ENTRIES].present {
        return AlreadyMapped;
      }
      PageMapped(Now(), page, frame, userspace);
      SetMaps(dir, tables[t := tables[t][page % ENTRIES := PageEntry(true, true, userspace, frame)]],
              owner[page := frame], loose - {frame}, stale);
      r := Fine;
    }

    /** A frame for a page's table, entered but not recorded yet. */
    method FrameTable(page: nat, userspace: bool) returns (table: nat, r: Fault)
      requires Valid() && page < PAGES && !IsWindow(page) && (userspace <==> page < KERNEL) && !HasTable(dir, page)
      modifies `frames, `lastFrame, `dir, `tables, `owner, `loose, `stale
      ensures r == if AllUsed(old(frames)) then OutOfFrames else Fine
      ensures r.OutOfFrames? ==> AllUsed(frames)
      ensures r.Fine? ==> Valid() && Tabled(old(Now()), Now(), page, table)
    {
      hide Books.Ok, Flight, Extents.FreeOf, Extents.Valid, Ready, Grew, AllUsed, RoomOk, MadeTable,
          TookFrame, HasTable, IsWindow, Tabled;
      ghost var b0 := Now();
      table, r := AllocateFrame();
      if r != Fine {
        return;
      }
      ghost var b1 := Now();
      TookTable(b0, b1, page, table);
      InstallTable(page / ENTRIES, table, userspace);
      TableReady(b0, b1, Now(), page, table);
    }

    /** A table for a page that has none. */
    method MakeTable(page: nat, userspace: bool) returns (r: Fault)
      requires Valid() && page < PAGES && !IsWindow(page) && (userspace <==> page < KERNEL) && !HasTable(dir, page)
      requires lock ==> !saveFlag
      modifies this, space
      ensures r.Fine? || Scarce(r)
      ensures r.Fine? ==>
        Valid() && Settled(old(Now()), Now()) && HasTable(dir, page) && lock == old(lock) && user == old(user)
      ensures !old(lock) ==> Did(Table(old(Supply()), page, capacity), r, Supply())
      ensures r.OutOfFrames? ==> AllUsed(frames)
      ensures r.OutOfSpace? ==> NextPage(space.extents, 1).None?
      ensures old(lock) ==> ledger == old(ledger) && slots == old(slots)
      ensures old(lock) ==> r == if AllUsed(old(frames)) then OutOfFrames else Fine
      ensures old(lock) && r.Fine? ==> saveFlag
      ensures !old(lock) && r.FailedToSave? ==> !Ready(old(Now()))
      decreases Rank(lock), 3
    {
      hide Books.Ok, Flight, Extents.FreeOf, Extents.Valid, Ready, Grew, AllUsed, SaveFails, RoomOk, Settled,
          HasTable, IsWindow, Tabled, PoolOf, Record, NextPage;
      ghost var b0, s0, es := Now(), slots, space.extents;
      var table;
      table, r := FrameTable(page, userspace);
      if r != Fine {
        NoTableSupply(b0, s0, es, page, capacity);
        return;
      }
      ghost var b1 := Now();
      TableInFlight(b0, b1, page, table);
      TableSupply(b0, b1, s0, es, page, table, capacity);
      r := AddAllocation(WINDOW + page / ENTRIES, table, false);
      if r == Fine {
        TableSettled(b0, b1, Now(), page, table);
      }
    }

    /** The directory's part of mapping a page. */
    method EnsureTable(page: nat, userspace: bool, mark: bool) returns (r: Fault)
      requires Valid() && page < PAGES && !IsWindow(page) && (userspace <==> page < KERNEL)
      requires lock ==> mark && !saveFlag
      modifies this, space
      ensures r.Fine? || r.DirectoryMissing? || Scarce(r)
      ensures r.DirectoryMissing? <==> !mark && !HasTable(old(dir), page)
      ensures HasTable(old(dir), page) ==> r.Fine? && Now() == old(Now()) && slots == old(slots) && user == old(user)
      ensures HasTable(old(dir), page) ==> space.extents == old(space.extents)
      ensures r.Fine? ==>
        Valid() && Settled(old(Now()), Now()) && HasTable(dir, page) && lock == old(lock) && user == old(user)
      ensures !old(lock) && mark ==> Did(Table(old(Supply()), page, capacity), r, Supply())
      ensures r.OutOfFrames? ==> AllUsed(frames)
      ensures r.OutOfSpace? ==> NextPage(space.extents, 1).None?
      ensures old(lock) ==> ledger == old(ledger) && slots == old(slots)
      ensures old(lock) ==> (r.Fine? <==> HasTable(old(dir), page) || !AllUsed(old(frames)))
      ensures old(lock) ==> (r.OutOfFrames? <==> !HasTable(old(dir), page) && AllUsed(old(frames)))
      ensures old(lock) && r.Fine? ==> (saveFlag <==> !HasTable(old(dir), page))
      ensures !old(lock) && r.FailedToSave? ==> !Ready(old(Now()))
      decreases Rank(lock), 4
    {
      hide Books.Ok, Flight, Extents.FreeOf, Extents.Valid, Ready, Grew, AllUsed, SaveFails, RoomOk, TwoFree,
          Settled, PoolOf, Record, NextPage;
      ghost var b0 := Now();
      SettledSame(b0);
      TableThere(b0, slots, space.extents, page, capacity);
      Looked(Now(), page);
      var d := page / ENTRIES;
      if !dir[d].present {
        if !mark {
          return DirectoryMissing;
        }
        r := MakeTable(page, userspace);
      } else if userspace && dir[d].user != userspace {
        r := Permissions;
      } else {
        r := Fine;
      }
    }

    /** The table's part of mapping a page, and its record. */
    method FillEntry(page: nat, frame: nat, userspace: bool, mark: bool) returns (r: Fault)
      requires Valid() && page < PAGES && !IsWindow(page) && HasTable(dir, page)
      requires (userspace <==> page < KERNEL) && (mark || userspace)
      requires frame in loose && page !in Now().free && (page !in owner ==> page !in ledger)
      requires lock ==> mark && !userspace
      requires mark && userspace && page !in owner ==> page !in user
      modifies this, space
      ensures r.Fine? || r.AlreadyMapped? || Scarce(r)
      ensures r.AlreadyMapped? <==> page in old(owner)
      ensures r.Fine? ==> Valid() && Mapping(old(Now()), Now(), page, frame) && lock == old(lock)
      ensures r.Fine? ==> user == if mark && userspace then old(user)[page := frame] else old(user)
      ensures r.Fine? && !lock && !userspace ==> page in ledger
      ensures !mark ==> !Scarce(r)
      ensures r.Fine? && !mark ==> Now() == old(Now()).(tables := tables, owner := old(owner)[page := frame],
          loose := old(loose) - {frame})
      ensures !old(lock) && mark && !userspace && page !in old(owner) ==>
        Did(Record(old(Supply()), capacity), r, Supply())
      ensures !old(lock) && mark && userspace && page !in old(owner) ==> r.Fine? && Supply() == old(Supply())
      ensures r.OutOfFrames? ==> AllUsed(frames)
      ensures r.OutOfSpace? ==> NextPage(space.extents, 1).None?
      ensures r.Fine? ==> dir == old(dir)
      ensures old(lock) ==> ledger == old(ledger) && slots == old(slots)
      ensures old(lock) && r.Fine? ==> saveFlag && frames == old(frames) && space.extents == old(space.extents)
      ensures old(lock) && page !in old(owner) ==> r == if old(saveFlag) then FailedToSave else Fine
      ensures !old(lock) && r.FailedToSave? ==> !Ready(old(Now()))
      decreases Rank(lock), 3
    {
      hide Books.Ok, Flight, Extents.FreeOf, Extents.Valid, Ready, Grew, SaveFails, HasTable, IsWindow,
          RoomOk, TwoFree, Mapping, PoolOf, Record, AllUsed, NextPage;
      ghost var b0, s0, es := Now(), slots, space.extents;
      r := InstallEntry(page, frame, userspace);
      if r != Fine {
        return;
      }
      ghost var b1 := Now();
      EntryMapping(b0, b1, page, frame);
      SameSupply(b0, b1, s0, es);
      if mark {
        r := AddAllocation(page, frame, userspace);
        if r == Fine {
          RecordMapping(b0, b1, Now(), page, frame);
        }
      }
    }

    /** Map a page to a frame; with `mark`, record it. */
    method MemoryMap(page: nat, frame: nat, userspace: bool, mark: bool) returns (r: Fault)
      requires Valid() && page < PAGES && !IsWindow(page) && (userspace <==> page < KERNEL) && (mark || userspace)
      requires frame in loose && page !in Now().free && page !in ledger
      requires lock ==> mark && !userspace && !saveFlag
      requires mark && userspace && page !in owner ==> page !in user
      modifies this, space
      ensures r.Fine? || r.DirectoryMissing? || r.AlreadyMapped? || Scarce(r)
      ensures r.DirectoryMissing? <==> !mark && !HasTable(old(dir), page)
      ensures r.AlreadyMapped? <==> page in old(owner)
      ensures r.Fine? ==> Valid() && Mapping(old(Now()), Now(), page, frame) && lock == old(lock)
      ensures r.Fine? ==> user == if mark && userspace then old(user)[page := frame] else old(user)
      ensures r.Fine? && !lock && !userspace ==> page in ledger
      ensures !mark ==> !Scarce(r)
      ensures r.Fine? && !mark ==> Now() == old(Now()).(tables := tables, owner := old(owner)[page := frame],
          loose := old(loose) - {frame})
      ensures !old(lock) && mark && page !in old(owner) ==>
        Did(Map(old(Supply()), page, userspace, capacity), r, Supply())
      ensures r.OutOfFrames? ==> AllUsed(frames)
      ensures r.OutOfSpace? ==> !old(lock) && NextPage(space.extents, 1).None?
      ensures old(lock) && r.Fine? ==>
        saveFlag && frames == old(frames) && dir == old(dir) && space.extents == old(space.extents)
      ensures old(lock) && page !in old(owner) ==>
        (r.Fine? <==> HasTable(old(dir), page))
      ensures old(lock) ==> ledger == old(ledger) && slots == old(slots)
      ensures old(lock) && page !in old(owner) ==>
                (r.FailedToSave? <==> !HasTable(old(dir), page) && !AllUsed(old(frames)))
                && (r.Fine? ==> HasTable(old(dir), page))
      ensures !old(lock) && r.FailedToSave? ==> !Ready(old(Now()))
      decreases Rank(lock), 5
    {
      hide Books.Ok, Flight, Extents.FreeOf, Extents.Valid, Ready, Grew, AllUsed, SaveFails, HasTable,
          IsWindow, RoomOk, Mapping, Settled, PoolOf, Record, Table, NextPage;
      ghost var b0 := Now();
      Looked(b0, page);
      r := EnsureTable(page, userspace, mark);
      if r != Fine {
        return;
      }
      ghost var b1 := Now();
      StillUnmapped(b0, b1, page);
      r := FillEntry(page, frame, userspace, mark);
      if r == Fine {
        LaterMapping(b0, b1, Now(), page, frame);
      }
    }

    /** Back a free kernel page with a frame. */
    method MapFresh(page: nat) returns (r: Fault)
      requires Valid() && KERNEL <= page < PAGES && !IsWindow(page)
      requires page !in owner && page !in Now().free && page !in ledger
      requires lock ==> !saveFlag
      modifies this, space
      ensures r.Fine? || Scarce(r)
      ensures r.Fine? ==>
        Valid() && Grew(old(Now()), Now(), {page}) && lock == old(lock) && loose == old(loose) && user == old(user)
      ensures r.Fine? ==> page in owner && Now().InFlight() == old(Now().InFlight()) && (!lock ==> page in ledger)
      ensures !old(lock) ==> Did(Page(old(Supply()), page, false, capacity), r, Supply())
      ensures r.OutOfFrames? ==> AllUsed(frames)
      ensures r.OutOfSpace? ==> !old(lock) && NextPage(space.extents, 1).None?
      ensures old(lock) && r.Fine? ==> NodeMapped(old(Now()), Now()) && space.extents == old(space.extents)
      ensures old(lock) ==> ledger == old(ledger) && slots == old(slots)
      ensures old(lock) ==> (r.FailedToSave? <==> !HasTable(old(dir), page) && TwoFree(old(frames)))
      ensures old(lock) ==> (r.Fine? <==> HasTable(old(dir), page) && !AllUsed(old(frames)))
      ensures !old(lock) && r.FailedToSave? ==> !Ready(old(Now()))
      decreases Rank(lock), 6
    {
      hide Books.Ok, Flight, Extents.FreeOf, Extents.Valid, Ready, Grew, TwoFree, AllUsed, RoomOk, Mapping,
          TookFrame, HasTable, PoolOf, Map, Clear, NextPage;
      ghost var b0, s0, es := Now(), slots, space.extents;
      var frame;
      NoFrames(frames);
      frame, r := AllocateFrame();
      if r != Fine {
        NoSupply(b0, s0, es);
        return;
      }
      ghost var b1 := Now();
      FrameGrew(b0, b1, frame);
      TookSupply(b0, b1, frame, s0, es);
      r := MemoryMap(page, frame, false, true);
      if r == Fine {
        FreshMapping(b0, b1, Now(), page, frame);
      }
    }

    /** Back a range of pages taken out of the free space. */
    method MapAll(origin: nat, n: nat) returns (r: Fault)
      requires Valid() && (lock ==> n == 1 && !saveFlag)
      requires forall p :: origin <= p < origin + n ==> Vacant(Now(), p)
      modifies this, space
      ensures r.Fine? || Scarce(r)
      ensures r.Fine? ==> Valid() && Grew(old(Now()), Now(), Range(origin, n)) && lock == old(lock)
      ensures r.Fine? ==> loose == old(loose) && user == old(user) && Now().InFlight() == old(Now().InFlight())
      ensures r.Fine? ==> forall p :: origin <= p < origin + n ==> p in owner && (!lock ==> p in ledger)
      ensures !old(lock) ==> Did(Pages(old(Supply()), origin, n, false, capacity), r, Supply())
      ensures r.OutOfFrames? ==> AllUsed(frames)
      ensures r.OutOfSpace? ==> !old(lock) && NextPage(space.extents, 1).None?
      ensures old(lock) && r.Fine? ==> NodeMapped(old(Now()), Now()) && space.extents == old(space.extents)
      ensures old(lock) ==> (r.Fine? <==> HasTable(old(dir), origin) && !AllUsed(old(frames)))
      ensures old(lock) ==> ledger == old(ledger) && slots == old(slots)
      ensures old(lock) ==> (r.FailedToSave? <==> TwoFree(old(frames)) && !HasTable(old(dir), origin))
      ensures !old(lock) && r.FailedToSave? ==> !Ready(old(Now()))
      decreases Rank(lock), 7
    {
      hide Books.Ok, Flight, Extents.FreeOf, Extents.Valid, Ready, Grew, TwoFree, HasTable, RoomOk, Vacant,
          Range, MappedSome, PoolOf, Page, Clear, AllUsed, NextPage;
      ghost var b0, p0, locked := Now(), Supply(), lock;
      MapStart(b0, origin, n, lock);
      var i := 0;
      while i < n
        invariant i <= n && Valid() && lock == locked == old(lock) && user == old(user)
        invariant MappedSome(b0, Now(), origin, i, n, lock)
        invariant lock ==> ledger == old(ledger) && slots == old(slots)
        invariant i == 0 ==> Now() == b0
        invariant !lock ==> Pages(p0, origin, i, false, capacity) == Outcome(Fine, Supply())
        invariant lock ==> space.extents == old(space.extents)
        invariant lock && i > 0 ==> HasTable(b0.dir, origin) && !AllUsed(b0.frames) && NodeMapped(b0, Now())
      {
        ghost var b := Now();
        MapNext(b0, b, origin, i, n, lock);
        r := MapFresh(origin + i);
        if r != Fine {
          if !locked {
            PagesStop(p0, origin, i + 1, n, false, capacity);
          }
          return;
        }
        MapStep(b0, b, Now(), origin, i, n, lock);
        i := i + 1;
      }
      MapDone(b0, Now(), origin, n, lock);
      r := Fine;
    }

    /** n fresh kernel pages, each backed by a frame that was in no use. */
    method AllocatePages(n: nat) returns (origin: nat, r: Fault)
      requires Valid() && (lock ==> n == 1 && !saveFlag)
      modifies this, space
      ensures r.Fine? || r.NothingAsked? || Scarce(r)
      ensures r.NothingAsked? <==> n == 0
      ensures r.Fine? ==>
        Valid() && Grew(old(Now()), Now(), {}) && lock == old(lock) && loose == old(loose) && user == old(user)
      ensures r.Fine? ==> Now().InFlight() == old(Now().InFlight())
      ensures r.Fine? ==>
        forall p :: origin <= p < origin + n ==> p in old(Now().free) && p in owner && (!lock ==> p in ledger)
      ensures !old(lock) && n > 0 ==> Did(Take(old(Supply()), n, capacity), r, Supply())
      ensures r.OutOfFrames? ==> AllUsed(frames)
      ensures r.OutOfSpace? ==> NextPage(space.extents, 1).None? || (n > 1 && NextPage(old(space.extents), n).None?)
      ensures old(lock) && r.Fine? ==> NodeTaken(old(Now()), Now())
      ensures old(lock) && r.Fine? ==> NodeSpace(old(space.extents), space.extents)
      ensures old(lock) ==> NodeOutcome(old(Now()), old(space.extents), r)
      ensures old(lock) ==> ledger == old(ledger) && slots == old(slots)
      ensures !old(lock) && r.FailedToSave? ==> !Ready(old(Now()))
      decreases Rank(lock), 8
    {
      hide Books.Ok, Flight, Extents.FreeOf, Extents.Valid, Ready, Grew, TwoFree, HasTable, RoomOk, Vacant, Range,
          Pages, Clear, Tables, AllUsed, Extents.After, Extents.BestFit, PoolOf, TookSpace;
      ghost var b0, es := Now(), space.extents;
      if n == 0 {
        return 0, NothingAsked;
      }
      origin, r := TakeSpace(n);
      if r != Fine {
        return;
      }
      ghost var b1 := Now();
      SpaceSupply(b0, b1, slots, es, space.extents, origin, n);
      r := MapAll(origin, n);
      if r == Fine {
        GrewTrans(b0, b1, Now(), {}, Range(origin, n), Range(origin, n));
        GrewOnFree(b0, Now(), Range(origin, n));
      }
    }

    /** n pages of the free space, still to be mapped. */
    method TakeSpace(n: nat) returns (origin: nat, r: Fault)
      requires Valid() && n > 0
      modifies space
      ensures r == if NextPage(old(space.extents), n).None? then OutOfSpace else Fine
      ensures r.OutOfSpace? ==> space.extents == old(space.extents)
      ensures r.Fine? ==> NextPage(old(space.extents), n) == Some(origin)
      ensures r.Fine? ==> space.extents == Extents.After(old(space.extents), n)
      ensures r.Fine? ==> Valid() && TookSpace(old(Now()), Now(), origin, n)
    {
      hide Books.Ok, Flight, Extents.FreeOf, Extents.PagesOf, Extents.Valid, RoomOk, Extents.After, TookSpace;
      ghost var b0 := Now();
      var address := space.Allocate(n);
      if address.None? {
        return 0, OutOfSpace;
      }
      origin := address.value / PAGE;
      SpaceTaken(b0, Now().free);
      SpaceGone(b0, Now(), address.value, n);
      r := Fine;
    }

    // ---------------------------------------------------------------- giving back

    /** Unmap a page. Its frame stays in use; a record of it, if not erased before, is now stale. */
    method MemoryUnmap(page: nat) returns (r: Fault)
      requires Valid() && page < PAGES && !IsWindow(page) && page !in image && (saveFlag ==> page != saved.page)
      modifies `dir, `tables, `owner, `loose, `stale
      ensures r ==
        if !HasTable(old(dir), page) then DirectoryMissing else if page in old(owner) then Fine else NotPresent
      ensures page in old(owner) ==> HasTable(old(dir), page)
      ensures r.Fine? ==> Valid() && Unmade(old(Now()), Now(), page)
      ensures r.Fine? ==> Now().InFlight() == old(Now().InFlight()) - {page}
    {
      hide Books.Ok, Flight, Extents.FreeOf, Extents.Valid, Unmade, RoomOk;
      Looked(Now(), page);
      if !dir[page / ENTRIES].present {
        return DirectoryMissing;
      }
      var t := tables[dir[CATALOG].frame][page / ENTRIES].frame;
      var e := tables[t][page % ENTRIES];
      if !e.present {
        return NotPresent;
      }
      RemoveEntry(page, t, e.(present := false));
      r := Fine;
    }

    /** Overwrite a page's entry with one that is not present. */
    method RemoveEntry(page: nat, t: nat, e: PageEntry)
      requires Valid() && page in owner && !IsWindow(page) && page !in image && (saveFlag ==> page != saved.page)
        && !e.present
      requires HasTable(dir, page) && t == dir[page / ENTRIES].frame
      modifies `dir, `tables, `owner, `loose, `stale
      ensures Valid() && Unmade(old(Now()), Now(), page) && Now().InFlight() == old(Now().InFlight()) - {page}
    {
      hide Books.Ok, Flight, Extents.FreeOf, Extents.Valid, Unmade, RoomOk;
      PageUnmapped(Now(), page, e);
      SetMaps(dir, tables[t := tables[t][page % ENTRIES := e]], owner - {page}, loose + {owner[page]},
              if page in ledger then stale + {page} else stale);
    }

    /** The pages of the current process are mapped, and no other user pages are. */
    ghost predicate UserMapped()
      reads this
    {
      UserOk(owner, user)
    }

    /** Erase a page's record from the ledger. */
    method EraseFromLedger(page: nat)
      requires Valid() && page in ledger
      modifies `ledger, `stale
      ensures Valid() && Erased(old(Now()), Now(), page)
      ensures Now().InFlight() - {page} == old(Now().InFlight())
      ensures (saveFlag ==> page != saved.page) && (page in owner <==> page !in old(stale))
      ensures page in owner ==> owner[page] == old(ledger)[page]
    {
      hide Books.Ok, Flight, Extents.FreeOf, Extents.Valid, Erased;
      RecordErased(Now(), page);
      stale, ledger := stale - {page}, ledger - {page};
    }

    /** Look a page up and erase its record; None is "Unallocated page". */
    method EraseRecord(page: nat) returns (frame: Option<nat>)
      requires Valid() && UserMapped() && page < PAGES
      modifies `ledger, `user, `stale
      ensures frame == if page in old(ledger) then Some(old(ledger)[page])
                       else if page in old(user) then Some(old(user)[page])
                       else None
      ensures user == if page in old(ledger) then old(user) else old(user) - {page}
      ensures Valid() && Erased(old(Now()), Now(), page)
      ensures frame.Some? ==> Now().InFlight() - {page} == old(Now().InFlight())
      ensures frame.Some? ==> (saveFlag ==> page != saved.page) && (page in owner <==> page !in old(stale))
      ensures frame.Some? && page in owner ==> owner[page] == frame.value
    {
      hide Books.Ok, Flight, Extents.FreeOf, Extents.Valid, UserOk, Erased, RoomOk;
      UserFacts(Now(), user, page);
      if page in ledger {
        frame := Some(ledger[page]);
        EraseFromLedger(page);
      } else if page in user {
        frame := Some(user[page]);
        user := user - {page};
      } else {
        frame := None;
      }
    }

    /** Clear a frame's bit. The books stay in order exactly if no page is on the frame. */
    method DeallocateFrame(frame: nat) returns (r: Fault)
      requires Valid() && frame < |frames|
      modifies `frames, `loose
      ensures r == if old(frames)[frame] then Fine else FrameNotUsed
      ensures r.Fine? ==> Cleared(old(Now()), Now(), frame) && Now().InFlight() == old(Now().InFlight())
      ensures r.Fine? ==> (Valid() <==> frame in old(loose))
      ensures !r.Fine? ==> Now() == old(Now())
    {
      hide Books.Ok, Extents.FreeOf, Extents.Valid;
      if !frames[frame] {
        return FrameNotUsed;
      }
      FrameCleared(Now(), frame);
      frames := frames[frame := false];
      loose := loose - {frame};
      r := Fine;
    }

    /** Give a page back: record, mapping and frame go; its address is not used again. */
    method DeallocateSinglePage(page: nat) returns (r: Fault)
      requires Valid() && UserMapped() && page < PAGES && !IsWindow(page) && page !in image
      modifies this
      ensures r.NotAllocated? <==> page !in old(ledger) && page !in old(user)
      ensures r.Fine? <==> page !in old(stale) && (page in old(ledger) || page in old(user))
      ensures r.Fine? ==> Valid() && UserMapped() && GaveBack(old(Now()), Now(), page)
      ensures r.Fine? ==> Now().InFlight() == old(Now().InFlight()) && user == old(user) - {page}
      ensures r.Fine? ==> lock == old(lock) && slots == old(slots)
    {
      hide Books.Ok, Flight, Extents.FreeOf, Extents.Valid, UserOk, Erased, Unmade, GaveBack, RoomOk, HasTable, Cleared;
      ghost var b0, u0 := Now(), user;
      UserFacts(b0, user, page);
      var frame := EraseRecord(page);
      if frame.None? {
        return NotAllocated;
      }
      ghost var b1 := Now();
      r := MemoryUnmap(page);
      if r != Fine {
        return;
      }
      ghost var b2 := Now();
      GivenBack(b0, b1, b2, page, u0, user);
      r := DeallocateFrame(frame.value);
    }

    /** Give n pages back, one after another. */
    method DeallocatePages(origin: nat, n: nat) returns (r: Fault)
      requires Valid() && UserMapped() && origin + n <= PAGES
      requires forall p :: origin <= p < origin + n ==> !IsWindow(p) && p !in image
      modifies this
      ensures r.Fine? <==> forall p :: origin <= p < origin + n ==> Returnable(old(Now()), old(user), p)
      ensures r.Fine? ==> Valid() && UserMapped() && lock == old(lock) && Now().InFlight() == old(Now().InFlight())
      ensures r.Fine? ==> GaveBackAll(old(Now()), old(user), Now(), user, origin, n)
    {
      hide Books.Ok, Flight, Extents.FreeOf, Extents.Valid, UserOk, GaveBackAll, GaveBack, Returnable, RoomOk;
      ghost var b0, u0 := Now(), user;
      NoneGivenBack(b0, u0, origin);
      var i := 0;
      while i < n
        invariant i <= n && Valid() && UserMapped() && lock == old(lock) && Now().InFlight() == b0.InFlight()
        invariant GaveBackAll(b0, u0, Now(), user, origin, i)
        invariant forall p :: origin <= p < origin + i ==> Returnable(b0, u0, p)
      {
        ghost var b, u := Now(), user;
        SameReturnable(b0, u0, b, u, origin, i);
        r := DeallocateSinglePage(origin + i);
        if r != Fine {
          return;
        }
        OneGivenBack(b0, u0, b, u, Now(), user, origin, i);
        i := i + 1;
      }
      r := Fine;
    }

    // ---------------------------------------------------------------- pages of processes

    /** A page for the current process, on a fresh frame. */
    method MapUser(page: nat) returns (r: Fault)
      requires Valid() && UserMapped() && !lock && page < KERNEL
      modifies this, space
      ensures r.Fine? || r.AlreadyMapped? || Scarce(r)
      ensures if page in old(user) then !r.Fine? else !r.AlreadyMapped?
      ensures r.Fine? ==>
        Valid() && UserMapped() && !lock && loose == old(loose) && Now().InFlight() == old(Now().InFlight())
      ensures r.Fine? ==> Grew(old(Now()), Now(), {page}) && page in owner && user == old(user)[page := owner[page]]
      ensures page !in old(user) ==> Did(Page(old(Supply()), page, true, capacity), r, Supply())
      ensures r.OutOfFrames? ==> AllUsed(frames)
      ensures r.OutOfSpace? ==> NextPage(space.extents, 1).None?
      ensures r.FailedToSave? ==> !Ready(old(Now()))
    {
      hide Books.Ok, Flight, Extents.FreeOf, Extents.Valid, UserOk, Ready, Grew, HasTable, PoolOf, Map, AllUsed,
          NextPage;
      ghost var b0, s0, u0, es := Now(), slots, user, space.extents;
      UserPlace(b0, user, page);
      var frame;
      frame, r := AllocateFrame();
      if r != Fine {
        NoSupply(b0, s0, es);
        return;
      }
      ghost var b1 := Now();
      FrameGrew(b0, b1, frame);
      TookSupply(b0, b1, frame, s0, es);
      r := MemoryMap(page, frame, true, true);
      if r == Fine {
        GrewTrans(b0, b1, Now(), {}, {page}, {page});
        UserGrew(b0, Now(), u0, page);
      }
    }

    /** n pages for the current process at a given place. */
    method AllocateAt(start: nat, n: nat) returns (r: Fault)
      requires Valid() && UserMapped() && !lock && start + n <= KERNEL
      modifies this, space
      ensures r.Fine? || r.AlreadyMapped? || Scarce(r)
      ensures r.AlreadyMapped? ==> exists p :: start <= p < start + n && p in old(user)
      ensures r.Fine? ==>
        Valid() && UserMapped() && !lock && loose == old(loose) && Now().InFlight() == old(Now().InFlight())
      ensures r.Fine? ==> Grew(old(Now()), Now(), Range(start, n)) && AddedPages(old(user), user, start, n)
      ensures (forall p :: start <= p < start + n ==> p !in old(user)) ==>
        Did(Pages(old(Supply()), start, n, true, capacity), r, Supply())
      ensures r.OutOfFrames? ==> AllUsed(frames)
      ensures r.OutOfSpace? ==> NextPage(space.extents, 1).None?
      ensures r.FailedToSave? ==> !Ready(old(Now()))
    {
      hide Books.Ok, Flight, Extents.FreeOf, Extents.Valid, UserOk, Ready, Grew, HasTable, Range, AllUsed,
          AddedPages, NextPage, RoomOk, PoolOf, Page;
      ghost var b0, p0, u0 := Now(), Supply(), user;
      NoneYet(b0, start);
      NoneAdded(u0, start);
      var i := 0;
      while i < n
        invariant i <= n && Valid() && UserMapped() && !lock && loose == b0.loose && Now().InFlight() == b0.InFlight()
        invariant Grew(b0, Now(), Range(start, i)) && AddedPages(u0, user, start, i)
        invariant Pages(p0, start, i, true, capacity) == Outcome(Fine, Supply())
      {
        ghost var b1, u1 := Now(), user;
        GrewReady(b0, b1, Range(start, i));
        AddedNext(u0, u1, start, i);
        r := MapUser(start + i);
        if r != Fine {
          if start + i !in u0 {
            PagesStop(p0, start, i + 1, n, true, capacity);
          }
          return;
        }
        RangeMore(b0, b1, Now(), start, i);
        AddedMore(u0, u1, user, start, i, owner[start + i]);
        i := i + 1;
      }
      r := Fine;
    }

    /** kernel_page_to_frame: unknown are pages that have no record, or none in the ledger yet. */
    method KernelPageToFrame(page: nat) returns (frame: nat, r: Fault)
      requires Valid()
      ensures r == if page in ledger then Fine else UnknownPage
      ensures r.Fine? ==> frame == ledger[page] && (page !in stale ==> page in owner && frame == owner[page])
      ensures r.UnknownPage? && KERNEL <= page && page in owner && page !in Now().InFlight() ==>
        saveFlag && saved == Saved(page, owner[page])
    {
      hide Agree, HomesOk, SpaceOk, Extents.FreeOf;
      if page !in ledger {
        return 0, UnknownPage;
      }
      return ledger[page], Fine;
    }

    /** Unmap the pages of the current process; their frames stay in use. No panic is possible. */
    method UserspaceDisable() returns (r: Fault)
      requires Valid() && UserMapped() && !lock
      modifies this
      ensures r.Fine? && Valid() && SwitchedOff(old(Now()), Now(), user) && Now().InFlight() == old(Now().InFlight())
      ensures user == old(user) && !lock && slots == old(slots)
    {
      hide Books.Ok, Flight, Extents.FreeOf, Extents.Valid, UserOk, HasTable, Unmade, PartlyOff;
      ghost var b0 := Now();
      OffStart(b0, user);
      var todo := user.Keys;
      while todo != {}
        invariant todo <= user.Keys && Valid() && user == old(user) && !lock && slots == old(slots)
        invariant PartlyOff(b0, Now(), user, todo) && Now().InFlight() == b0.InFlight()
        decreases |todo|
      {
        var page :| page in todo;
        ghost var b1 := Now();
        OffNext(b0, b1, user, todo, page);
        r := MemoryUnmap(page);
        if r != Fine {
          return;
        }
        OffDone(b0, b1, Now(), user, todo, page);
        todo := todo - {page};
      }
      OffEnd(b0, Now(), user);
      r := Fine;
    }

    /** Map the pages of the current process to their frames. The one thing that could go wrong is a
        directory entry that is missing. */
    method UserspaceEnable() returns (r: Fault)
      requires Valid() && !lock && Dormant(Now(), user)
      modifies this, space
      ensures r.Fine? || r.DirectoryMissing?
      ensures r.DirectoryMissing? <==> exists p :: p in old(user) && !HasTable(old(dir), p)
      ensures r.Fine? ==>
        Valid() && UserMapped() && SwitchedOn(old(Now()), Now(), user) && Now().InFlight() == old(Now().InFlight())
      ensures r.Fine? ==> user == old(user) && !lock
    {
      hide Books.Ok, Flight, Extents.FreeOf, Extents.Valid, UserOk, HasTable, PartlyOn, Dormant, Grew;
      ghost var b0 := Now();
      OnStart(b0, user);
      var todo := user.Keys;
      while todo != {}
        invariant todo <= user.Keys && Valid() && user == old(user) && !lock
        invariant PartlyOn(b0, Now(), user, todo) && Now().InFlight() == b0.InFlight()
        invariant forall p :: p in user && p !in todo ==> HasTable(b0.dir, p)
        decreases |todo|
      {
        var page :| page in todo;
        ghost var b1 := Now();
        OnNext(b0, b1, user, todo, page);
        r := MemoryMap(page, user[page], true, false);
        if r != Fine {
          assert page in old(user) && !HasTable(b0.dir, page);
          return;
        }
        OnDone(b0, b1, Now(), user, todo, page);
        todo := todo - {page};
      }
      OnEnd(b0, Now(), user);
      r := Fine;
    }
  }

  /** Writing a record fails exactly when no slot is free, the page the best fit picks for a new
      node has no table, and there are frames for both. */
  ghost predicate SaveFails(records: nat, slots: nat, es: seq<Extents.Extent>, dir: seq<PageEntry>, frames: seq<bool>) {
    && records == slots && TwoFree(frames)
    && NextPage(es, 1).Some? && !HasTable(dir, NextPage(es, 1).value)
  }

  /** A page was mapped for a node under the lock: its frame is gone, and its record saved. */
  ghost predicate NodeMapped(a: Books, b: Books) {
    && |Clear(b.frames)| + 1 == |Clear(a.frames)| && b.saveFlag
    && b.dir == a.dir && b.ledger == a.ledger && b.free == a.free
  }

  ghost predicate NodeTaken(a: Books, b: Books) {
    && |Clear(b.frames)| + 1 == |Clear(a.frames)| && b.saveFlag
    && b.dir == a.dir && b.ledger == a.ledger && |b.free| + 1 == |a.free|
  }

  ghost predicate NodeSpace(es: seq<Extents.Extent>, es': seq<Extents.Extent>) {
    NextPage(es, 1).Some? && es' == Extents.After(es, 1)
  }

  /** The outcome of taking a page under the lock. */
  ghost predicate NodeOutcome(a: Books, es: seq<Extents.Extent>, r: Fault) {
    && (r.OutOfSpace? <==> NextPage(es, 1).None?)
    && (r.Fine? <==> NextPage(es, 1).Some? && HasTable(a.dir, NextPage(es, 1).value) && !AllUsed(a.frames))
    && (r.FailedToSave? <==> NextPage(es, 1).Some? && !HasTable(a.dir, NextPage(es, 1).value) && TwoFree(a.frames))
  }

  lemma NodeNotReady(b: Books, es: seq<Extents.Extent>)
    requires Extents.Valid(es) && b.free == Extents.FreeOf(es) && NodeOutcome(b, es, FailedToSave)
    ensures !Ready(b)
  {
    NotReady(b, es);
  }

  /** What storing a record in the ledger comes to. */
  ghost predicate Stored(a: Books, es: seq<Extents.Extent>, b: Books, es': seq<Extents.Extent>, s: nat, s': nat,
                         from: nat, capacity: nat, r: Fault)
    requires capacity >= 2
  {
    && Did(Record(PoolOf(a, s, es), capacity), r, PoolOf(b, s', es'))
    && (r.FailedToSave? <==> SaveFails(|a.ledger|, s, es, a.dir, a.frames))
    && (r.FailedToSave? ==> !Ready(a))
    && (r.Fine? ==> Grew(a, b, {}) && b.loose == a.loose && b.dir == a.dir && from in b.ledger
                    && b.InFlight() == a.InFlight() - {from})
  }

  lemma StoredRoom(a: Books, es: seq<Extents.Extent>, b: Books, s: nat, from: nat, to: nat, capacity: nat)
    requires capacity >= 2 && |a.ledger| < s && !a.saveFlag && from !in a.ledger
    requires b == a.(ledger := a.ledger[from := to]) && Grew(a, b, {}) && b.InFlight() == a.InFlight() - {from}
    ensures Stored(a, es, b, es, s, s, from, capacity, Fine)
  {
    hide Grew, Flight, Clear, Tables, NextPage;
    assert |b.ledger| == |b.ledger.Keys| == |a.ledger.Keys + {from}| == |a.ledger| + 1;
  }

  lemma StoredNot(a: Books, es: seq<Extents.Extent>, b: Books, es': seq<Extents.Extent>, s: nat, s': nat, from: nat,
                  capacity: nat, r: Fault)
    requires capacity >= 2 && |a.ledger| == s && !a.saveFlag && !r.Fine? && Scarce(r)
    requires Extents.Valid(es) && a.free == Extents.FreeOf(es) && NodeOutcome(a, es, r)
    ensures Stored(a, es, b, es', s, s', from, capacity, r)
  {
    hide Grew, Flight, NextPage, Clear, Ready, Extents.FreeOf, Extents.Valid, Extents.After;
    TwoClear(a.frames);
    if r == FailedToSave {
      NotReady(a, es);
    }
    if NextPage(es, 1).Some? {
      TableKnown(a.dir, NextPage(es, 1).value);
    }
  }

  lemma TableKnown(dir: seq<PageEntry>, page: nat)
    ensures HasTable(dir, page) <==> page / ENTRIES in Tables(dir)
  {
  }

  lemma StoredNode(a: Books, es: seq<Extents.Extent>, b: Books, c: Books, es': seq<Extents.Extent>, s: nat, from: nat,
                   to: nat, capacity: nat)
    requires capacity >= 2 && |a.ledger| == s && !a.saveFlag && from !in a.ledger
    requires Extents.Valid(es) && a.free == Extents.FreeOf(es) && NodeOutcome(a, es, Fine) && NodeTaken(a, b)
    requires NodeSpace(es, es')
    requires Grew(a, b, {}) && b.loose == a.loose && b.InFlight() == a.InFlight()
    requires c == b.(ledger := b.ledger[from := to]) && Grew(b, c, {}) && c.InFlight() == b.InFlight() - {from}
    ensures Stored(a, es, c, es', s, s + capacity, from, capacity, Fine)
  {
    hide Grew, Flight, Clear, Ready, Extents.FreeOf, Extents.Valid, Extents.After, Extents.BestFit;
    TwoClear(a.frames);
    TableKnown(a.dir, NextPage(es, 1).value);
    assert |c.ledger| == |c.ledger.Keys| == |a.ledger.Keys + {from}| == |a.ledger| + 1;
    GrewTrans(a, b, c, {}, {}, {});
  }

  lemma StoredMeans(a: Books, es: seq<Extents.Extent>, b: Books, es': seq<Extents.Extent>, s: nat, s': nat, from: nat,
                    capacity: nat, r: Fault)
    requires capacity >= 2 && Stored(a, es, b, es', s, s', from, capacity, r)
    ensures Did(Record(PoolOf(a, s, es), capacity), r, PoolOf(b, s', es'))
    ensures r.FailedToSave? <==> SaveFails(|a.ledger|, s, es, a.dir, a.frames)
    ensures r.FailedToSave? ==> !Ready(a)
    ensures r.Fine? ==> Grew(a, b, {}) && b.loose == a.loose && b.dir == a.dir && from in b.ledger
    ensures r.Fine? ==> b.InFlight() == a.InFlight() - {from}
  {
    hide Flight, Grew, Ready;
  }

  lemma NodeLedger(a: Books, b: Books)
    requires NodeTaken(a, b)
    ensures b.ledger == a.ledger && b.dir == a.dir && b.saveFlag
  {
  }

  lemma NotReady(b: Books, es: seq<Extents.Extent>)
    requires Extents.Valid(es) && b.free == Extents.FreeOf(es)
    requires NextPage(es, 1).Some? && !HasTable(b.dir, NextPage(es, 1).value)
    ensures !Ready(b)
  {
    NextFree(es);
  }

  lemma PagesAre(n: nat, address: nat)
    requires address % PAGE == 0 && address + PAGE * n <= SPACE
    ensures forall p :: address / PAGE <= p < address / PAGE + n ==> p in Extents.PagesOf(Extents.Extent(n, address))
    ensures address / PAGE + n <= PAGES
  {
  }

  lemma SavedUnused(b: Books, saved: Saved)
    requires b.Ok() && !b.saveFlag
    ensures b.(saved := saved).Ok() && b.(saved := saved).InFlight() == b.InFlight()
  {
    hide Agree, HomesOk, SpaceOk;
  }

  lemma UserPage(b: Books, p: nat)
    ensures p < KERNEL ==> p !in b.InFlight()
  {
  }

  lemma GrewSame(a: Books)
    ensures Grew(a, a, {})
  {
  }

  lemma Flushed(a: Books, b: Books)
    requires b == a.(saveFlag := b.saveFlag, saved := b.saved, ledger := b.ledger)
    requires b.ledger == a.ledger
      || (a.saved.page in a.owner && a.saved.page !in a.ledger
          && b.ledger == a.ledger[a.saved.page := a.saved.frame])
    ensures Grew(a, b, {}) && (Ready(a) ==> Ready(b))
  {
    GrewReady(a, b, {});
  }

  lemma RecordGrew(a: Books, b: Books, p: nat)
    requires Grew(a, b, {}) && p in b.owner && p !in b.ledger
    ensures Grew(a, b.(ledger := b.ledger[p := b.owner[p]]), {})
  {
  }

  lemma MadeTableGrew(a: Books, b: Books, c: Books, d: nat, f: nat)
    requires Grew(a, b, {}) && MadeTable(b, c, d, f) && f in b.loose
    ensures Grew(a, c, {}) && (Ready(a) ==> Ready(c))
  {
    GrewReady(a, c, {});
  }

  lemma NoFrames(frames: seq<bool>)
    ensures AllUsed(frames) ==> !TwoFree(frames)
  {
  }

  lemma FrameGrew(a: Books, b: Books, f: nat)
    requires TookFrame(a, b, f)
    ensures f in b.loose && b.owner == a.owner && b.ledger == a.ledger && b.free == a.free && b.dir == a.dir
    ensures Grew(a, b, {}) && b.loose - {f} == a.loose && (Ready(a) ==> Ready(b)) && !AllUsed(a.frames)
    ensures !AllUsed(b.frames) <==> TwoFree(a.frames)
  {
    GrewReady(a, b, {});
    if !AllUsed(b.frames) {
      var g :| 0 <= g < |b.frames| && !b.frames[g];
      assert f < g && !a.frames[f] && !a.frames[g];
    }
    if TwoFree(a.frames) {
      var g, h :| 0 <= g < h < |a.frames| && !a.frames[g] && !a.frames[h];
      assert !b.frames[h];
    }
  }

  // ---------------------------------------------------------------- what the steps take

  lemma SameSupply(a: Books, b: Books, s: nat, es: seq<Extents.Extent>)
    requires b.frames == a.frames && b.dir == a.dir
    requires |b.ledger| + (if b.saveFlag then 1 else 0) == |a.ledger| + if a.saveFlag then 1 else 0
    ensures PoolOf(a, s, es) == PoolOf(b, s, es)
  {
  }

  lemma TookSupply(a: Books, b: Books, f: nat, s: nat, es: seq<Extents.Extent>)
    requires TookFrame(a, b, f)
    ensures |Clear(b.frames)| + 1 == |Clear(a.frames)|
    ensures OneFrame(PoolOf(a, s, es)) == Outcome(Fine, PoolOf(b, s, es))
  {
    assert f in Clear(a.frames) && Clear(b.frames) == Clear(a.frames) - {f};
  }

  lemma NoSupply(a: Books, s: nat, es: seq<Extents.Extent>)
    requires AllUsed(a.frames)
    ensures OneFrame(PoolOf(a, s, es)).r == OutOfFrames
  {
    assert Clear(a.frames) == {};
  }

  lemma NoTableSupply(a: Books, s: nat, es: seq<Extents.Extent>, page: nat, capacity: nat)
    requires capacity >= 2 && AllUsed(a.frames) && !HasTable(a.dir, page)
    ensures Table(PoolOf(a, s, es), page, capacity).r == OutOfFrames
  {
    NoSupply(a, s, es);
    TableKnown(a.dir, page);
  }

  /** When a table has been made, its record is what is left to do. */
  lemma TableSupply(a: Books, b: Books, s: nat, es: seq<Extents.Extent>, page: nat, f: nat, capacity: nat)
    requires capacity >= 2 && Tabled(a, b, page, f) && !HasTable(a.dir, page)
    ensures Table(PoolOf(a, s, es), page, capacity) == Record(PoolOf(b, s, es), capacity)
  {
    hide Record, Clear, Tables, Grew, Flight, Ready;
    TableKnown(a.dir, page);
  }

  lemma TableThere(a: Books, s: nat, es: seq<Extents.Extent>, page: nat, capacity: nat)
    requires capacity >= 2
    ensures HasTable(a.dir, page) ==> Table(PoolOf(a, s, es), page, capacity) == Outcome(Fine, PoolOf(a, s, es))
  {
    TableKnown(a.dir, page);
  }

  /** n pages were cut off the free space, and are vacant now. */
  ghost predicate TookSpace(a: Books, b: Books, origin: nat, n: nat) {
    && b == a.(free := b.free) && Grew(a, b, {}) && |b.free| + n == |a.free| && Range(origin, n) <= a.free
    && forall p :: origin <= p < origin + n ==> Vacant(b, p) && p in a.free
  }

  lemma SpaceGone(a: Books, b: Books, address: nat, n: nat)
    requires a.Ok() && address % PAGE == 0 && address + PAGE * n <= SPACE
    requires var got := Extents.PagesOf(Extents.Extent(n, address)); got <= a.free && b == a.(free := a.free - got)
    ensures TookSpace(a, b, address / PAGE, n)
  {
    hide Books.Ok, Extents.PagesOf, Grew, Ready, Vacant, Range;
    PagesAre(n, address);
    TakenPages(a, b, Extents.PagesOf(Extents.Extent(n, address)), address / PAGE, n);
    FreeTaken(a, b, n, address);
  }

  lemma SpaceSupply(a: Books, b: Books, s: nat, es: seq<Extents.Extent>, es': seq<Extents.Extent>, origin: nat, n: nat)
    requires TookSpace(a, b, origin, n)
    ensures PoolOf(b, s, es') == PoolOf(a, s, es).(es := es')
    ensures Grew(a, b, {}) && (Ready(a) ==> Ready(b)) && b.InFlight() == a.InFlight() && |b.free| + n == |a.free|
    ensures b == a.(free := b.free) && Range(origin, n) <= a.free
    ensures forall p :: origin <= p < origin + n ==> Vacant(b, p) && p in a.free
  {
    hide Range, Vacant;
    GrewReady(a, b, {});
  }

  /** n pages leave the free space. */
  lemma FreeTaken(a: Books, b: Books, n: nat, address: nat)
    requires address % PAGE == 0 && address + PAGE * n <= SPACE
    requires var got := Extents.PagesOf(Extents.Extent(n, address)); got <= a.free && b == a.(free := a.free - got)
    ensures |b.free| + n == |a.free|
  {
    var got := Extents.PagesOf(Extents.Extent(n, address));
    ExtentPages(n, address);
    assert |a.free - got| == |a.free| - |got|;
  }

  /** What mapping a page comes to: the page is on its frame, and nothing new is in flight. */
  ghost predicate Mapping(a: Books, b: Books, p: nat, f: nat) {
    && Grew(a, b, {p}) && b.loose == a.loose - {f}
    && p in b.owner && b.owner[p] == f && HasTable(b.dir, p)
    && b.InFlight() == a.InFlight()
  }

  lemma EntryMapping(a: Books, b: Books, p: nat, f: nat)
    requires MadeEntry(a, b, p, f) && HasTable(a.dir, p)
    ensures b.InFlight() == a.InFlight() ==> Mapping(a, b, p, f)
    ensures Ready(a) ==> Ready(b)
  {
    GrewReady(a, b, {p});
  }

  lemma RecordMapping(a: Books, b: Books, c: Books, p: nat, f: nat)
    requires MadeEntry(a, b, p, f) && HasTable(a.dir, p) && b.InFlight() - {p} == a.InFlight()
    requires Grew(b, c, {}) && c.loose == b.loose && c.InFlight() == b.InFlight() - {p}
    ensures Mapping(a, c, p, f)
  {
    hide Flight;
    GrewTrans(a, b, c, {p}, {}, {p});
    GrewKeeps(b, c, {}, p);
  }

  lemma FreshMapping(a: Books, b: Books, c: Books, p: nat, f: nat)
    requires TookFrame(a, b, f) && a.InFlight() == b.InFlight() && Mapping(b, c, p, f)
    ensures Grew(a, c, {p}) && c.loose == a.loose && p in c.owner && c.InFlight() == a.InFlight() && HasTable(c.dir, p)
  {
    hide Flight, Grew;
    FrameGrew(a, b, f);
    GrewTrans(a, b, c, {}, {p}, {p});
  }

  lemma LaterMapping(a: Books, b: Books, c: Books, p: nat, f: nat)
    requires Settled(a, b) && Mapping(b, c, p, f)
    ensures Mapping(a, c, p, f)
  {
    hide Flight, Grew;
    GrewTrans(a, b, c, {}, {p}, {p});
  }

  lemma StillUnmapped(a: Books, b: Books, p: nat)
    requires Settled(a, b) && !IsWindow(p) && p !in a.free
    ensures p in b.owner <==> p in a.owner
    ensures p !in b.free && (p !in a.owner && p !in a.ledger ==> p !in b.ledger)
    ensures b.loose == a.loose && (Ready(a) ==> Ready(b))
  {
    hide Flight;
    GrewReady(a, b, {});
  }

  /** What a call comes to that maps whatever it needs for itself. */
  ghost predicate Settled(a: Books, b: Books) {
    Grew(a, b, {}) && b.loose == a.loose && b.InFlight() == a.InFlight()
  }

  lemma SettledSame(a: Books)
    ensures Settled(a, a)
  {
    hide Flight;
    GrewSame(a);
  }

  lemma TookTable(a: Books, b: Books, page: nat, f: nat)
    requires TookFrame(a, b, f) && !HasTable(a.dir, page) && page < PAGES && !IsWindow(page)
    ensures var d := page / ENTRIES;
      d < ENTRIES && !IsWindow(d * ENTRIES) && (d * ENTRIES < KERNEL <==> page < KERNEL)
      && !HasTable(b.dir, d * ENTRIES)
    ensures f in b.loose && b.saveFlag == a.saveFlag && b.ledger == a.ledger && !AllUsed(a.frames)
  {
    FrameGrew(a, b, f);
  }

  /** Page's table is there, and its own record is all that is new in flight. */
  ghost predicate Tabled(a: Books, b: Books, page: nat, f: nat) {
    && Grew(a, b, {}) && (Ready(a) ==> Ready(b)) && b.loose == a.loose && b.saveFlag == a.saveFlag
    && b.ledger == a.ledger && Tables(b.dir) == Tables(a.dir) + {page / ENTRIES}
    && |Clear(b.frames)| + 1 == |Clear(a.frames)| && b.free == a.free
    && var w := WINDOW + page / ENTRIES;
       w in b.owner && b.owner[w] == f && b.InFlight() == a.InFlight() + {w} && w !in a.InFlight()
       && HasTable(b.dir, page)
  }

  lemma TableReady(a: Books, b: Books, c: Books, page: nat, f: nat)
    requires TookFrame(a, b, f) && page / ENTRIES < ENTRIES && MadeTable(b, c, page / ENTRIES, f)
      && b.InFlight() == a.InFlight()
    requires c.InFlight() == b.InFlight() + {WINDOW + page / ENTRIES} && WINDOW + page / ENTRIES !in b.InFlight()
    ensures Tabled(a, c, page, f)
  {
    hide Flight, Costs, Clear;
    FrameGrew(a, b, f);
    TookSupply(a, b, f, 0, []);
    MadeTableGrew(a, b, c, page / ENTRIES, f);
  }

  lemma TableInFlight(a: Books, b: Books, page: nat, f: nat)
    requires Tabled(a, b, page, f)
    ensures var w := WINDOW + page / ENTRIES; w in b.owner && b.owner[w] == f && w in b.InFlight()
    ensures b.saveFlag == a.saveFlag && b.ledger == a.ledger && (Ready(a) ==> Ready(b))
  {
    hide Flight;
  }

  lemma TableSettled(a: Books, b: Books, c: Books, page: nat, f: nat)
    requires Tabled(a, b, page, f)
    requires Grew(b, c, {}) && c.loose == b.loose && c.InFlight() == b.InFlight() - {WINDOW + page / ENTRIES}
    ensures Settled(a, c) && HasTable(c.dir, page)
  {
    hide Flight, Grew;
    GrewTrans(a, b, c, {}, {}, {});
    GrewKeeps(b, c, {}, page);
  }

  /** A page that may be mapped for the kernel. */
  ghost predicate Vacant(b: Books, p: nat) {
    KERNEL <= p < PAGES && !IsWindow(p) && p !in b.owner && p !in b.ledger && p !in b.free
  }

  /** What was cut off the free space is vacant. */
  lemma TakenPages(a: Books, b: Books, got: set<nat>, origin: nat, n: nat)
    requires a.Ok() && b == a.(free := a.free - got) && got <= a.free
    requires forall p :: origin <= p < origin + n ==> p in got
    ensures Grew(a, b, {}) && (Ready(a) ==> Ready(b)) && Range(origin, n) <= a.free
    ensures forall p :: origin <= p < origin + n ==> Vacant(b, p)
    ensures forall p :: origin <= p < origin + n ==> p in a.free
  {
    hide Agree, HomesOk, RecordsOk;
    forall p | origin <= p < origin + n ensures Vacant(b, p) && p in a.free {
      assert p in got;
    }
  }

  /** The first i pages of a range of n are mapped, the others still vacant. */
  ghost predicate MappedSome(a: Books, b: Books, origin: nat, i: nat, n: nat, lock: bool) {
    && Grew(a, b, Range(origin, i)) && b.loose == a.loose && b.InFlight() == a.InFlight()
    && (forall p :: origin <= p < origin + i ==> p in b.owner && (!lock ==> p in b.ledger))
    && (forall p :: origin + i <= p < origin + n ==> Vacant(b, p))
  }

  lemma MapStart(a: Books, origin: nat, n: nat, lock: bool)
    requires forall p :: origin <= p < origin + n ==> Vacant(a, p)
    ensures MappedSome(a, a, origin, 0, n, lock)
  {
    hide Flight;
    NoneYet(a, origin);
  }

  lemma MapNext(a: Books, b: Books, origin: nat, i: nat, n: nat, lock: bool)
    requires MappedSome(a, b, origin, i, n, lock) && i < n
    ensures KERNEL <= origin + i < PAGES && !IsWindow(origin + i) && (Ready(a) ==> Ready(b))
      && b.InFlight() == a.InFlight()
    ensures origin + i !in b.owner && origin + i !in b.ledger && origin + i !in b.free
  {
    hide Flight;
    assert Vacant(b, origin + i);
    GrewReady(a, b, Range(origin, i));
  }

  lemma MapStep(a: Books, b: Books, c: Books, origin: nat, i: nat, n: nat, lock: bool)
    requires MappedSome(a, b, origin, i, n, lock) && i < n
    requires Grew(b, c, {origin + i}) && c.loose == b.loose && c.InFlight() == b.InFlight()
    requires origin + i in c.owner && (!lock ==> origin + i in c.ledger)
    ensures MappedSome(a, c, origin, i + 1, n, lock)
  {
    hide Flight;
    GrewTrans(a, b, c, Range(origin, i), {origin + i}, Range(origin, i + 1));
    forall p | origin + i < p < origin + n ensures Vacant(c, p) {
      assert Vacant(b, p);
    }
  }

  lemma MapDone(a: Books, b: Books, origin: nat, n: nat, lock: bool)
    requires MappedSome(a, b, origin, n, n, lock)
    ensures Grew(a, b, Range(origin, n)) && b.loose == a.loose && b.InFlight() == a.InFlight()
    ensures forall p :: origin <= p < origin + n ==> p in b.owner && (!lock ==> p in b.ledger)
  {
  }

  lemma UserFacts(b: Books, user: map<nat, nat>, page: nat)
    requires b.Ok() && UserOk(b.owner, user)
    ensures page in user ==>
              page < KERNEL && page in b.owner && b.owner[page] == user[page] && page !in b.ledger && page !in b.stale
    ensures page in user && b.saveFlag ==> page != b.saved.page
    ensures page in b.ledger ==> page !in user && KERNEL <= page
    ensures page !in b.ledger ==> page !in b.stale && Erased(b, b, page)
    ensures page !in user ==> user - {page} == user
    ensures page in user ==> page !in b.InFlight() && b.InFlight() - {page} == b.InFlight()
  {
    hide Agree, HomesOk, SpaceOk;
  }

  lemma GivenBack(a: Books, b: Books, c: Books, page: nat, user: map<nat, nat>, user': map<nat, nat>)
    requires a.Ok() && c.Ok() && Erased(a, b, page) && Unmade(b, c, page)
    requires UserOk(a.owner, user) && user' == if page in a.ledger then user else user - {page}
    ensures var f := a.owner[page];
      && f < |c.frames| && c.frames[f] && f in c.loose
      && forall d :: Cleared(c, d, f) ==> GaveBack(a, d, page) && UserOk(d.owner, user')
    ensures user' == user - {page}
  {
    hide Books.Ok, Flight;
    UserFacts(a, user, page);
    LooseAgain(a, page);
    FrameReturned(c, a.owner[page]);
    assert b.stale - {page} == b.stale;
  }

  lemma LooseAgain(b: Books, page: nat)
    requires b.Ok() && page in b.owner
    ensures b.owner[page] !in b.loose && b.loose + {b.owner[page]} - {b.owner[page]} == b.loose && page !in b.stale
  {
    hide TablesOk, TableFramesOk, MapsOk, HomesOk, SpaceOk;
  }

  // ---------------------------------------------------------------- giving a range back

  /** There is a record of the page, and it is not stale. */
  ghost predicate Returnable(b: Books, user: map<nat, nat>, p: nat) {
    p !in b.stale && (p in b.ledger || p in user)
  }

  /** Records and mappings of the n pages from first on are gone, and everything else is as it was. */
  ghost predicate GaveBackAll(a: Books, user: map<nat, nat>, b: Books, user': map<nat, nat>, first: nat, n: nat) {
    && (forall p {:trigger p in b.ledger} :: p in b.ledger <==> p in a.ledger && !Within(p, first, n))
    && (forall p {:trigger b.ledger[p]} :: p in b.ledger && p in a.ledger ==> b.ledger[p] == a.ledger[p])
    && (forall p {:trigger p in b.owner} :: p in b.owner <==> p in a.owner && !Within(p, first, n))
    && (forall p {:trigger b.owner[p]} :: p in b.owner && p in a.owner ==> b.owner[p] == a.owner[p])
    && (forall p {:trigger p in user'} :: p in user' <==> p in user && !Within(p, first, n))
    && |b.frames| == |a.frames|
    && b.dir == a.dir && b.free == a.free && b.loose == a.loose && b.stale == a.stale && b.image == a.image
    && b.saveFlag == a.saveFlag && b.saved == a.saved
  }

  lemma NoneGivenBack(a: Books, user: map<nat, nat>, first: nat)
    ensures GaveBackAll(a, user, a, user, first, 0)
  {
  }

  lemma SameReturnable(a: Books, user: map<nat, nat>, b: Books, user': map<nat, nat>, first: nat, n: nat)
    requires GaveBackAll(a, user, b, user', first, n)
    ensures Returnable(a, user, first + n) <==> Returnable(b, user', first + n)
    ensures Returnable(b, user', first + n) <==> first + n !in b.stale && (first + n in b.ledger || first + n in user')
  {
  }

  lemma OneGivenBack(a: Books, user: map<nat, nat>, b: Books, user1: map<nat, nat>, c: Books, user2: map<nat, nat>,
                     first: nat, n: nat)
    requires GaveBackAll(a, user, b, user1, first, n) && GaveBack(b, c, first + n) && user2 == user1 - {first + n}
    ensures GaveBackAll(a, user, c, user2, first, n + 1)
  {
  }

  // ---------------------------------------------------------------- switching address spaces

  ghost function FramesOf(user: map<nat, nat>): (s: set<nat>) {
    set p | p in user :: user[p]
  }

  /** The frames of all pages but those in todo. */
  ghost function FramesBut(user: map<nat, nat>, todo: set<nat>): set<nat> {
    set p | p in user && p !in todo :: user[p]
  }

  /** The pages from start on were added to the map, and were not in it. */
  ghost predicate AddedPages(user: map<nat, nat>, user': map<nat, nat>, start: nat, n: nat) {
    && (forall p {:trigger p in user'} {:trigger p in user} :: p in user' <==> p in user || start <= p < start + n)
    && (forall p {:trigger p in user} {:trigger user'[p]} :: p in user && p in user' ==> user'[p] == user[p])
    && (forall p {:trigger p in user} :: p in user ==> !(start <= p < start + n))
  }

  lemma NoneAdded(user: map<nat, nat>, start: nat)
    ensures AddedPages(user, user, start, 0)
  {
  }

  lemma AddedNext(user: map<nat, nat>, user': map<nat, nat>, start: nat, i: nat)
    requires AddedPages(user, user', start, i)
    ensures start + i in user' <==> start + i in user
  {
  }

  lemma AddedMore(user: map<nat, nat>, user1: map<nat, nat>, user2: map<nat, nat>, start: nat, i: nat, f: nat)
    requires AddedPages(user, user1, start, i) && start + i !in user1 && user2 == user1[start + i := f]
    ensures AddedPages(user, user2, start, i + 1)
  {
  }

  /** Before and after switching a process's address space off. */
  ghost predicate SwitchedOff(a: Books, b: Books, user: map<nat, nat>) {
    && (forall p {:trigger p in b.owner} :: p in b.owner <==> p in a.owner && KERNEL <= p)
    && (forall p {:trigger b.owner[p]} :: p in b.owner && p in a.owner ==> b.owner[p] == a.owner[p])
    && b.loose == a.loose + FramesOf(user)
    && b == a.(tables := b.tables, owner := b.owner, loose := b.loose)
  }

  ghost predicate SwitchedOn(a: Books, b: Books, user: map<nat, nat>) {
    && (forall p {:trigger p in b.owner} :: p in b.owner <==> p in a.owner || p in user)
    && (forall p {:trigger p in a.owner} :: p in a.owner ==> b.owner[p] == a.owner[p])
    && b.loose == a.loose - FramesOf(user)
    && b == a.(tables := b.tables, owner := b.owner, loose := b.loose)
  }

  /** No user page is mapped, and the process's frames are kept for it. */
  ghost predicate Dormant(b: Books, user: map<nat, nat>) {
    && (forall p {:trigger p in b.owner} :: p in b.owner ==> KERNEL <= p)
    && (forall p {:trigger p in user} {:trigger user[p]} :: p in user ==> p < KERNEL && user[p] in b.loose)
    && (forall p, q {:trigger user[p], user[q]} :: p in user && q in user && p != q ==> user[p] != user[q])
  }

  /** The pages still to do are mapped, the others are not. */
  ghost predicate PartlyOff(a: Books, b: Books, user: map<nat, nat>, todo: set<nat>) {
    && UserOk(a.owner, user)
    && (forall p {:trigger p in b.owner} {:trigger p in a.owner} ::
          p in b.owner <==> p in a.owner && (KERNEL <= p || p in todo))
    && (forall p {:trigger b.owner[p]} :: p in b.owner && p in a.owner ==> b.owner[p] == a.owner[p])
    && b.loose == a.loose + FramesBut(user, todo)
    && b == a.(tables := b.tables, owner := b.owner, loose := b.loose)
  }

  lemma OffStart(a: Books, user: map<nat, nat>)
    requires UserOk(a.owner, user)
    ensures PartlyOff(a, a, user, user.Keys)
  {
    assert FramesBut(user, user.Keys) == {};
  }

  lemma OffNext(a: Books, b: Books, user: map<nat, nat>, todo: set<nat>, page: nat)
    requires PartlyOff(a, b, user, todo) && page in todo && todo <= user.Keys && a.Ok() && b.Ok()
    ensures page < KERNEL && page in b.owner && page !in b.image && page !in b.ledger
      && (b.saveFlag ==> page != b.saved.page)
    ensures b.owner[page] == user[page] && b.InFlight() - {page} == b.InFlight()
  {
    hide Agree, HomesOk;
  }

  lemma OffDone(a: Books, b: Books, c: Books, user: map<nat, nat>, todo: set<nat>, page: nat)
    requires PartlyOff(a, b, user, todo) && page in todo && todo <= user.Keys && Unmade(b, c, page) && page !in b.ledger
    requires b.owner[page] == user[page]
    ensures PartlyOff(a, c, user, todo - {page})
  {
    var s, t := FramesBut(user, todo), FramesBut(user, todo - {page});
    assert user[page] in t;
    assert t == s + {user[page]};
  }

  lemma OffEnd(a: Books, b: Books, user: map<nat, nat>)
    requires PartlyOff(a, b, user, {})
    ensures SwitchedOff(a, b, user)
  {
    assert FramesBut(user, {}) == FramesOf(user);
  }

  ghost predicate PartlyOn(a: Books, b: Books, user: map<nat, nat>, todo: set<nat>) {
    && Dormant(a, user)
    && (forall p {:trigger p in b.owner} {:trigger p in a.owner} ::
          p in b.owner <==> p in a.owner || (p in user && p !in todo))
    && (forall p {:trigger b.owner[p]} :: p in b.owner && p in a.owner ==> b.owner[p] == a.owner[p])
    && (forall p {:trigger b.owner[p]} :: p in b.owner && p in user ==> b.owner[p] == user[p])
    && b.loose == a.loose - FramesBut(user, todo)
    && b == a.(tables := b.tables, owner := b.owner, loose := b.loose)
  }

  lemma OnStart(a: Books, user: map<nat, nat>)
    requires Dormant(a, user)
    ensures PartlyOn(a, a, user, user.Keys)
  {
    assert FramesBut(user, user.Keys) == {};
  }

  lemma OnNext(a: Books, b: Books, user: map<nat, nat>, todo: set<nat>, page: nat)
    requires PartlyOn(a, b, user, todo) && page in todo && todo <= user.Keys && a.Ok()
    ensures page < KERNEL && user[page] in b.loose && page !in b.owner && page !in b.free && page !in b.ledger
    ensures b.dir == a.dir
  {
    hide Agree, HomesOk;
  }

  lemma OnDone(a: Books, b: Books, c: Books, user: map<nat, nat>, todo: set<nat>, page: nat)
    requires PartlyOn(a, b, user, todo) && page in todo && todo <= user.Keys && page !in b.owner
    requires c == b.(tables := c.tables, owner := b.owner[page := user[page]], loose := b.loose - {user[page]})
    ensures PartlyOn(a, c, user, todo - {page})
  {
    var s, t := FramesBut(user, todo), FramesBut(user, todo - {page});
    assert user[page] in t;
    assert t == s + {user[page]};
  }

  lemma OnEnd(a: Books, b: Books, user: map<nat, nat>)
    requires PartlyOn(a, b, user, {})
    ensures SwitchedOn(a, b, user) && UserOk(b.owner, user)
  {
    assert FramesBut(user, {}) == FramesOf(user);
  }

  lemma UserPlace(b: Books, user: map<nat, nat>, page: nat)
    requires b.Ok() && UserOk(b.owner, user) && page < KERNEL
    ensures page !in b.free && page !in b.ledger && (page in b.owner <==> page in user)
  {
    hide Agree, HomesOk;
  }

  lemma NoneYet(a: Books, start: nat)
    ensures Grew(a, a, Range(start, 0))
  {
    assert Range(start, 0) == {};
  }

  lemma RangeMore(a: Books, b: Books, c: Books, start: nat, i: nat)
    requires Grew(a, b, Range(start, i)) && Grew(b, c, {start + i})
    ensures Grew(a, c, Range(start, i + 1))
  {
    GrewTrans(a, b, c, Range(start, i), {start + i}, Range(start, i + 1));
  }

  lemma UserGrew(b: Books, d: Books, user: map<nat, nat>, page: nat)
    requires Grew(b, d, {page}) && b.Ok() && UserOk(b.owner, user) && page < KERNEL && page in d.owner
    ensures UserOk(d.owner, user[page := d.owner[page]])
  {
    hide Agree, HomesOk, RecordsOk;
  }

  // ---------------------------------------------------------------- what it amounts to

  /** Some record says that page p is on frame f. */
  ghost predicate Recorded(b: Books, user: map<nat, nat>, p: nat, f: nat) {
    || (p in b.ledger && p !in b.stale && b.ledger[p] == f)
    || (b.saveFlag && b.saved == Saved(p, f))
    || (p in user && user[p] == f)
  }

  lemma RecordedOwner(b: Books, user: map<nat, nat>, p: nat, f: nat)
    requires b.Ok() && b.InFlight() == {} && UserOk(b.owner, user)
    ensures Recorded(b, user, p, f) <==> p in b.owner && b.owner[p] == f
  {
    hide Agree, HomesOk, SpaceOk;
    assert p in b.owner && KERNEL <= p ==> p in b.ledger || (b.saveFlag && p == b.saved.page) || p in b.InFlight();
  }

  /** A frame's bit is set exactly when a record names it or it is kept for a process that waits, and
      not both; no two records name the same frame. */
  ghost predicate FramesAgree(b: Books, user: map<nat, nat>) {
    && (forall f: nat {:trigger b.frames[f]} :: f < |b.frames| ==>
          (b.frames[f] <==> f in b.loose || exists p: nat :: Recorded(b, user, p, f)))
    && (forall p: nat, f: nat {:trigger Recorded(b, user, p, f)} :: Recorded(b, user, p, f) ==> f !in b.loose)
    && (forall p: nat, q: nat, f: nat :: Recorded(b, user, p, f) && Recorded(b, user, q, f) ==> p == q)
  }

  /** Every recorded page is present, and on the frame recorded unless it is an alias of another;
      outside the windows no other page is present. */
  ghost predicate PagesAgree(b: Books, user: map<nat, nat>) {
    && |b.dir| == ENTRIES && TablesOk(b.dir, b.tables)
    && (forall p: nat, f: nat {:trigger Recorded(b, user, p, f)} :: Recorded(b, user, p, f) ==>
          && p < PAGES && Translate(b.dir, b.tables, p).Some?
          && (Translate(b.dir, b.tables, p).value == f <==> p !in b.alias || b.alias[p] == f))
    && (forall p: nat {:trigger Translate(b.dir, b.tables, p)} ::
          p < PAGES && !IsWindow(p) && Translate(b.dir, b.tables, p).Some? ==> exists f: nat :: Recorded(b, user, p, f))
  }

  /** Between calls the records agree with frames and tables. */
  lemma Agreement(b: Books, user: map<nat, nat>)
    requires b.Ok() && b.InFlight() == {} && UserOk(b.owner, user)
    ensures FramesAgree(b, user) && PagesAgree(b, user)
  {
    hide Books.Ok, Flight, Recorded, UserOk;
    forall p: nat, f: nat ensures Recorded(b, user, p, f) <==> p in b.owner && b.owner[p] == f {
      RecordedOwner(b, user, p, f);
    }
    AgreementOfFrames(b, user);
    AgreementOfPages(b, user);
  }

  lemma AgreementOfFrames(b: Books, user: map<nat, nat>)
    requires b.Ok()
    requires forall p: nat, f: nat :: Recorded(b, user, p, f) <==> p in b.owner && b.owner[p] == f
    ensures FramesAgree(b, user)
  {
    hide TablesOk, TableFramesOk, MapsOk, HomesOk, RecordsOk, SpaceOk, Recorded;
    forall f: nat | f < |b.frames| ensures b.frames[f] <==> f in b.loose || exists p: nat :: Recorded(b, user, p, f) {
      if b.frames[f] && f !in b.loose {
        assert OwnedBySome(b.owner, f);
        var p :| p in b.owner && b.owner[p] == f;
        assert Recorded(b, user, p, f);
      }
    }
  }

  lemma AgreementOfPages(b: Books, user: map<nat, nat>)
    requires b.Ok()
    requires forall p: nat, f: nat :: Recorded(b, user, p, f) <==> p in b.owner && b.owner[p] == f
    ensures PagesAgree(b, user)
  {
    hide TablesOk, TableFramesOk, BitsOk, HomesOk, RecordsOk, SpaceOk, Recorded, Translate;
    assert forall p: nat {:trigger p in b.owner} :: p in b.owner ==> Recorded(b, user, p, b.owner[p]);
  }
}
