/**
  The kernel's record of its own mappings. A record is either in the ledger or, when it was made
  while the ledger's storage was itself taking a page, set aside as the one saved record; a
  mapping whose record is still to be written is in flight.
 */
module Ledger {
  import opened AddressSpace
  import opened PageTables

  datatype Saved = Saved(page: nat, frame: nat)

  /** Records name kernel pages and their frames. Stale records outlive the mapping they were made
      for. The saved record is of a mapping that exists and is not in the ledger yet. */
  ghost predicate RecordsOk(owner: map<nat, nat>, ledger: map<nat, nat>, saveFlag: bool, saved: Saved,
                            stale: set<nat>) {
    && (forall p {:trigger p in ledger} :: p in ledger ==> KERNEL <= p < PAGES)
    && (forall p {:trigger p in ledger} {:trigger ledger[p]} :: p in ledger && p !in stale ==>
          p in owner && owner[p] == ledger[p])
    && (forall p {:trigger p in stale} :: p in stale ==> p in ledger && p !in owner && !IsWindow(p))
    && (saveFlag ==>
          && saved.page in owner && owner[saved.page] == saved.frame
          && saved.page !in ledger && KERNEL <= saved.page)
  }

  ghost function Flight(owner: map<nat, nat>, ledger: map<nat, nat>, saveFlag: bool, saved: Saved): set<nat> {
    set p | p in owner && KERNEL <= p && p !in ledger && !(saveFlag && p == saved.page)
  }

  /** The ledger fits its slots, and a record waiting to be saved finds one free. */
  predicate RoomOk(records: nat, slots: nat, saveFlag: bool, lock: bool) {
    records <= slots && (saveFlag && !lock ==> records < slots)
  }

  /** Free pages are kernel pages that nothing else refers to. */
  ghost predicate SpaceOk(free: set<nat>, owner: map<nat, nat>, ledger: map<nat, nat>, image: set<nat>) {
    && (forall p {:trigger p in free} :: p in free ==>
          KERNEL <= p < PAGES && !IsWindow(p) && p !in owner && p !in ledger && p !in image)
    && (forall p {:trigger p in image} :: p in image ==> KERNEL <= p)
  }

  ghost predicate Home(dir: seq<PageEntry>, owner: map<nat, nat>, image: set<nat>, d: nat)
    requires |dir| == ENTRIES && d < ENTRIES
  {
    || (WINDOW + d in owner && owner[WINDOW + d] == dir[d].frame)
    || exists q {:trigger owner[q]} :: q in owner && q in image && owner[q] == dir[d].frame
  }

  /** Every table's frame is owned by the table's window page or by a page of the kernel image. */
  ghost predicate HomesOk(dir: seq<PageEntry>, owner: map<nat, nat>, image: set<nat>)
    requires |dir| == ENTRIES
  {
    forall d {:trigger dir[d]} :: 0 <= d < ENTRIES && dir[d].present ==> Home(dir, owner, image, d)
  }

  /** Nobody else's page is on a table's frame. */
  lemma NotATable(frames: seq<bool>, dir: seq<PageEntry>, owner: map<nat, nat>, loose: set<nat>, image: set<nat>,
                  p: nat)
    requires |dir| == ENTRIES && HomesOk(dir, owner, image) && BitsOk(frames, owner, loose)
    requires p in owner && !IsWindow(p) && p !in image
    ensures forall d {:trigger dir[d]} :: 0 <= d < ENTRIES && dir[d].present ==> dir[d].frame != owner[p]
  {
    forall d | 0 <= d < ENTRIES && dir[d].present ensures dir[d].frame != owner[p] {
      assert Home(dir, owner, image, d);
    }
  }

  /** Everything the kernel knows, as values. `alias` are the pages of the image that are mapped to
      another frame than the one they own. */
  datatype Books = Books(frames: seq<bool>, dir: seq<PageEntry>, tables: map<nat, seq<PageEntry>>,
                         ledger: map<nat, nat>, saveFlag: bool, saved: Saved, free: set<nat>,
                         owner: map<nat, nat>, loose: set<nat>, stale: set<nat>, image: set<nat>,
                         alias: map<nat, nat>)
  {
    ghost predicate Ok() {
      && Agree(frames, dir, tables, owner, alias, loose)
      && HomesOk(dir, owner, image)
      && RecordsOk(owner, ledger, saveFlag, saved, stale)
      && SpaceOk(free, owner, ledger, image)
      && alias.Keys <= image
    }

    ghost function InFlight(): set<nat> {
      Flight(owner, ledger, saveFlag, saved)
    }
  }

  // ---------------------------------------------------------------- one step each

  lemma FrameTaken(b: Books, f: nat)
    requires b.Ok() && f < |b.frames| && !b.frames[f]
    ensures f !in b.loose
    ensures var b' := b.(frames := b.frames[f := true], loose := b.loose + {f});
      b'.Ok() && b'.InFlight() == b.InFlight()
  {
    hide Agree, HomesOk, RecordsOk, SpaceOk;
    TakeFrame(b.frames, b.dir, b.tables, b.owner, b.alias, b.loose, f);
  }

  lemma TableMade(b: Books, d: nat, f: nat)
    requires b.Ok() && d < ENTRIES && |b.dir| == ENTRIES && !b.dir[d].present && !IsWindow(d * ENTRIES) && f in b.loose
    ensures b.dir[CATALOG].frame in b.tables && |b.tables[b.dir[CATALOG].frame]| == ENTRIES
    ensures WINDOW + d !in b.owner && WINDOW + d !in b.InFlight()
    ensures var b' := b.(dir := WithDir(b.dir, d, f), tables := WithTable(b.dir, b.tables, d, f, Zeros()),
                         owner := b.owner[WINDOW + d := f], loose := b.loose - {f});
      b'.Ok() && b'.InFlight() == b.InFlight() + {WINDOW + d}
  {
    hide Agree, WithTable;
    NewTable(b.frames, b.dir, b.tables, b.owner, b.alias, b.loose, d, f, Zeros());
    var dir', owner' := WithDir(b.dir, d, f), b.owner[WINDOW + d := f];
    forall e | 0 <= e < ENTRIES && dir'[e].present ensures Home(dir', owner', b.image, e) {
      if e != d {
        assert Home(b.dir, b.owner, b.image, e);
        if !(WINDOW + e in b.owner && b.owner[WINDOW + e] == b.dir[e].frame) {
          var q :| q in b.owner && q in b.image && b.owner[q] == b.dir[e].frame;
          assert owner'[q] == dir'[e].frame;
        }
      }
    }
  }

  lemma PageMapped(b: Books, p: nat, f: nat, user: bool)
    requires b.Ok() && p < PAGES && !IsWindow(p) && |b.dir| == ENTRIES && b.dir[p / ENTRIES].present
    requires p !in b.owner && p !in b.ledger && p !in b.free && f in b.loose && (user <==> p < KERNEL)
    ensures b.dir[p / ENTRIES].frame in b.tables && |b.tables[b.dir[p / ENTRIES].frame]| == ENTRIES
    ensures var b' := b.(tables := WithEntry(b.dir, b.tables, p, PageEntry(true, true, user, f)),
                         owner := b.owner[p := f], loose := b.loose - {f});
      && b'.Ok() && b'.InFlight() - {p} == b.InFlight() && (p in b'.InFlight() <==> KERNEL <= p)
      && (p < KERNEL ==> b'.InFlight() == b.InFlight())
  {
    hide Agree, WithEntry;
    Mapped(b.frames, b.dir, b.tables, b.owner, b.alias, b.loose, p, f, user);
    var owner' := b.owner[p := f];
    forall e | 0 <= e < ENTRIES && b.dir[e].present ensures Home(b.dir, owner', b.image, e) {
      assert Home(b.dir, b.owner, b.image, e);
      if !(WINDOW + e in b.owner && b.owner[WINDOW + e] == b.dir[e].frame) {
        var q :| q in b.owner && q in b.image && b.owner[q] == b.dir[e].frame;
        assert owner'[q] == b.dir[e].frame;
      }
    }
  }

  /** A page is unmapped; a record of it becomes stale. */
  lemma PageUnmapped(b: Books, p: nat, e: PageEntry)
    requires b.Ok() && p in b.owner && !IsWindow(p) && p !in b.image && !e.present
    requires b.saveFlag ==> p != b.saved.page
    ensures p < PAGES && |b.dir| == ENTRIES && b.dir[p / ENTRIES].present
    ensures b.dir[p / ENTRIES].frame in b.tables && |b.tables[b.dir[p / ENTRIES].frame]| == ENTRIES
    ensures var b' := b.(tables := WithEntry(b.dir, b.tables, p, e), owner := b.owner - {p},
                         loose := b.loose + {b.owner[p]},
                         stale := if p in b.ledger then b.stale + {p} else b.stale);
      b'.Ok() && b'.InFlight() == b.InFlight() - {p} && Unmade(b, b', p)
  {
    hide WithEntry, TablesOk, TableFramesOk, MapsOk, BitsOk, Translate;
    NotATable(b.frames, b.dir, b.owner, b.loose, b.image, p);
    Unmapped(b.frames, b.dir, b.tables, b.owner, b.alias, b.loose, p, e);
    var owner' := b.owner - {p};
    forall d | 0 <= d < ENTRIES && b.dir[d].present ensures Home(b.dir, owner', b.image, d) {
      assert Home(b.dir, b.owner, b.image, d);
      if !(WINDOW + d in b.owner && b.owner[WINDOW + d] == b.dir[d].frame) {
        var q :| q in b.owner && q in b.image && b.owner[q] == b.dir[d].frame;
        assert owner'[q] == b.dir[d].frame;
      }
    }
  }

  /** Erasing a record leaves the mapping, if there still is one, in flight. */
  lemma RecordErased(b: Books, p: nat)
    requires b.Ok() && p in b.ledger
    ensures KERNEL <= p < PAGES && (b.saveFlag ==> p != b.saved.page) && p !in b.InFlight()
      && (p in b.owner <==> p !in b.stale)
    ensures p !in b.stale ==> b.owner[p] == b.ledger[p]
    ensures |b.ledger - {p}| == |b.ledger| - 1
    ensures var b' := b.(ledger := b.ledger - {p}, stale := b.stale - {p});
      b'.Ok() && b'.InFlight() - {p} == b.InFlight() && Erased(b, b', p)
  {
    hide TablesOk, TableFramesOk, MapsOk, BitsOk, HomesOk;
  }

  lemma FrameReturned(b: Books, f: nat)
    requires b.Ok() && f in b.loose
    ensures f < |b.frames| && b.frames[f]
    ensures var b' := b.(frames := b.frames[f := false], loose := b.loose - {f});
      b'.Ok() && b'.InFlight() == b.InFlight()
  {
    hide Agree, HomesOk, RecordsOk, SpaceOk;
    ReturnFrame(b.frames, b.dir, b.tables, b.owner, b.alias, b.loose, f);
  }

  /** Clearing the bit of a frame keeps the bookkeeping exactly if no page is on the frame. */
  lemma FrameCleared(b: Books, f: nat)
    requires b.Ok() && f < |b.frames| && b.frames[f]
    ensures b.(frames := b.frames[f := false], loose := b.loose - {f}).Ok() <==> f in b.loose
  {
    hide TablesOk, TableFramesOk, MapsOk, HomesOk, RecordsOk, SpaceOk;
    if f in b.loose {
      FrameReturned(b, f);
    } else {
      assert OwnedBySome(b.owner, f);
    }
  }

  lemma RecordSaved(b: Books, p: nat)
    requires b.Ok() && !b.saveFlag && p in b.InFlight()
    ensures var b' := b.(saveFlag := true, saved := Saved(p, b.owner[p]));
      b'.Ok() && b'.InFlight() == b.InFlight() - {p}
  {
    hide Agree, HomesOk, SpaceOk;
  }

  lemma SavedTaken(b: Books)
    requires b.Ok() && b.saveFlag
    ensures b.(saveFlag := false).Ok() && b.(saveFlag := false).InFlight() == b.InFlight() + {b.saved.page}
    ensures b.saved.page !in b.InFlight() && b.saved.page !in b.ledger
    ensures b.saved.page in b.owner && b.owner[b.saved.page] == b.saved.frame
  {
    hide Agree, HomesOk, SpaceOk;
  }

  lemma RecordWritten(b: Books, p: nat)
    requires b.Ok() && p in b.InFlight()
    ensures p in b.owner && p !in b.ledger
    ensures var b' := b.(ledger := b.ledger[p := b.owner[p]]); b'.Ok() && b'.InFlight() == b.InFlight() - {p}
  {
    hide TablesOk, TableFramesOk, MapsOk, HomesOk;
  }

  lemma SpaceTaken(b: Books, free': set<nat>)
    requires b.Ok() && free' <= b.free
    ensures b.(free := free').Ok() && b.(free := free').InFlight() == b.InFlight()
  {
    hide Agree, HomesOk, RecordsOk;
  }

  ghost predicate TookFrame(a: Books, b: Books, f: nat) {
    && f < |a.frames| && !a.frames[f] && (forall i :: 0 <= i < f ==> a.frames[i])
    && f !in a.loose && b == a.(frames := a.frames[f := true], loose := a.loose + {f})
  }

  ghost predicate MadeTable(a: Books, b: Books, d: nat, f: nat) {
    && d < |a.dir| && d < ENTRIES && !a.dir[d].present && WINDOW + d !in a.owner
    && b == a.(dir := WithDir(a.dir, d, f), tables := b.tables,
               owner := a.owner[WINDOW + d := f], loose := a.loose - {f})
  }

  ghost predicate MadeEntry(a: Books, b: Books, p: nat, f: nat) {
    p !in a.owner && b == a.(tables := b.tables, owner := a.owner[p := f], loose := a.loose - {f})
  }

  ghost predicate Unmade(a: Books, b: Books, p: nat) {
    && p in a.owner
    && b == a.(tables := b.tables, owner := a.owner - {p}, loose := a.loose + {a.owner[p]},
               stale := if p in a.ledger then a.stale + {p} else a.stale)
  }

  ghost predicate Erased(a: Books, b: Books, p: nat) {
    b == a.(ledger := a.ledger - {p}, stale := a.stale - {p})
  }

  ghost predicate Cleared(a: Books, b: Books, f: nat) {
    f < |a.frames| && a.frames[f] && b == a.(frames := a.frames[f := false], loose := a.loose - {f})
  }

  /** Page p is no longer recorded or mapped, and its frame's bit is clear. */
  ghost predicate GaveBack(a: Books, b: Books, p: nat) {
    && p in a.owner && a.owner[p] < |a.frames| && a.frames[a.owner[p]]
    && b == a.(tables := b.tables, owner := a.owner - {p}, ledger := a.ledger - {p},
               frames := a.frames[a.owner[p] := false])
  }

  /** The process's pages are mapped to its frames, and no other pages below the kernel are mapped. */
  ghost predicate UserOk(owner: map<nat, nat>, user: map<nat, nat>) {
    && (forall p {:trigger p in user} {:trigger user[p]} :: p in user ==>
          p < KERNEL && p in owner && owner[p] == user[p])
    && (forall p {:trigger p in owner} :: p in owner && p < KERNEL ==> p in user)
  }

  // ---------------------------------------------------------------- many steps

  /** Between a and b mappings were only added, on pages that were free, on table windows or on
      `extra` pages; directories stay as they were once present. */
  ghost predicate Grew(a: Books, b: Books, extra: set<nat>) {
    && (forall p {:trigger p in a.owner} {:trigger p in b.owner} :: p in a.owner ==>
          p in b.owner && b.owner[p] == a.owner[p])
    && (forall p {:trigger p in b.owner} :: p in b.owner ==> p in a.owner || p in a.free || IsWindow(p) || p in extra)
    && (forall p {:trigger p in a.ledger} {:trigger p in b.ledger} :: p in a.ledger ==>
          p in b.ledger && b.ledger[p] == a.ledger[p])
    && (forall p {:trigger p in b.ledger} :: p in b.ledger ==>
          p in a.ledger || p in a.owner || p in a.free || IsWindow(p) || p in extra)
    && b.free <= a.free
    && |a.dir| == |b.dir|
    && (forall d {:trigger b.dir[d]} :: 0 <= d < |a.dir| && a.dir[d].present ==> b.dir[d] == a.dir[d])
    && a.stale == b.stale && a.image == b.image && a.alias == b.alias && |a.frames| == |b.frames|
  }

  lemma GrewTrans(a: Books, b: Books, c: Books, x: set<nat>, y: set<nat>, z: set<nat>)
    requires Grew(a, b, x) && Grew(b, c, y) && x <= z && y <= z
    ensures Grew(a, c, z)
  {
  }

  lemma GrewKeeps(a: Books, b: Books, x: set<nat>, p: nat)
    requires Grew(a, b, x)
    ensures p in a.owner ==> p in b.owner && b.owner[p] == a.owner[p]
    ensures HasTable(a.dir, p) ==> HasTable(b.dir, p)
  {
  }

  /** The page's directory entry leads to a table. */
  predicate HasTable(dir: seq<PageEntry>, page: nat) {
    page / ENTRIES < |dir| && dir[page / ENTRIES].present
  }

  /** What the kernel finds when it looks for a page's entry through the window. */
  lemma Looked(b: Books, page: nat)
    requires b.Ok() && page < PAGES && !IsWindow(page)
    ensures |b.dir| == ENTRIES && b.dir[CATALOG].frame in b.tables && |b.tables[b.dir[CATALOG].frame]| == ENTRIES
    ensures b.dir[page / ENTRIES].present ==>
      var t := b.tables[b.dir[CATALOG].frame][page / ENTRIES].frame;
      && t == b.dir[page / ENTRIES].frame && t in b.tables && |b.tables[t]| == ENTRIES
      && (b.dir[page / ENTRIES].user <==> page < KERNEL)
      && (b.tables[t][page % ENTRIES].present <==> page in b.owner)
      && (page in b.owner ==> b.tables[t][page % ENTRIES].frame == Target(b.owner, b.alias, page))
    ensures page in b.owner ==> HasTable(b.dir, page)
  {
    hide TablesOk, BitsOk, MapsOk, TableFramesOk, HomesOk, RecordsOk, SpaceOk;
    WindowView(b.frames, b.dir, b.tables, b.owner, b.alias, b.loose, page);
  }

  /** Every free page's table exists already. */
  ghost predicate Ready(b: Books) {
    forall p {:trigger p in b.free} :: p in b.free ==> p / ENTRIES < |b.dir| && b.dir[p / ENTRIES].present
  }

  lemma GrewReady(a: Books, b: Books, x: set<nat>)
    requires Grew(a, b, x)
    ensures Ready(a) ==> Ready(b)
  {
  }

  /** A page added was given a frame that was in no use. */
  lemma FreshFrame(a: Books, b: Books, x: set<nat>, p: nat)
    requires a.Ok() && b.Ok() && Grew(a, b, x) && a.loose <= b.loose
    requires p in b.owner && p !in a.owner
    ensures b.owner[p] < |a.frames| && !a.frames[b.owner[p]]
  {
    hide TablesOk, TableFramesOk, MapsOk, HomesOk, RecordsOk, SpaceOk;
  }

  lemma GrewOnFree(a: Books, b: Books, x: set<nat>)
    requires Grew(a, b, x) && x <= a.free
    ensures Grew(a, b, {})
  {
  }
}
