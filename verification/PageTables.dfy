/**
  Frames and two-level page tables. Tables live in frames; the kernel edits the table of directory
  entry d through a window page, whose own mapping is entry d of the catalog, and the processor
  finds it through the directory. `owner` is the map of pages to frames all this must agree with.
 */
module PageTables {
  import opened AddressSpace

  datatype PageEntry = PageEntry(present: bool, writable: bool, user: bool, frame: nat)
  {
    /** An access that this entry lets through; write protection holds for the kernel, too. */
    predicate Permits(asUser: bool, write: bool) {
      present && (asUser ==> user) && (write ==> writable)
    }
  }

  const ENTRIES: nat := 1024
  const CATALOG: nat := 1008            // directory entry behind which the catalog is mapped

  const ABSENT := PageEntry(false, false, false, 0)

  /** The processor's walk: directory, table, frame. */
  function Translate(dir: seq<PageEntry>, tables: map<nat, seq<PageEntry>>, p: nat): Option<nat>
    requires |dir| == ENTRIES && p < PAGES
    requires dir[p / ENTRIES].present ==>
      dir[p / ENTRIES].frame in tables && |tables[dir[p / ENTRIES].frame]| == ENTRIES
  {
    if !dir[p / ENTRIES].present then None
    else
      var e := tables[dir[p / ENTRIES].frame][p % ENTRIES];
      if e.present then Some(e.frame) else None
  }

  /** The same walk for an access, which both entries must permit. */
  function Reach(dir: seq<PageEntry>, tables: map<nat, seq<PageEntry>>, p: nat, asUser: bool, write: bool): Option<nat>
    requires |dir| == ENTRIES && p < PAGES
    requires dir[p / ENTRIES].present ==>
      dir[p / ENTRIES].frame in tables && |tables[dir[p / ENTRIES].frame]| == ENTRIES
  {
    if !dir[p / ENTRIES].Permits(asUser, write) then None
    else
      var e := tables[dir[p / ENTRIES].frame][p % ENTRIES];
      if e.Permits(asUser, write) then Some(e.frame) else None
  }

  /** A page's entry is for users exactly if the page is below the kernel, and lets writes through. */
  ghost predicate Rights(dir: seq<PageEntry>, tables: map<nat, seq<PageEntry>>, p: nat)
    requires |dir| == ENTRIES && p < PAGES
    requires dir[p / ENTRIES].present ==>
      dir[p / ENTRIES].frame in tables && |tables[dir[p / ENTRIES].frame]| == ENTRIES
  {
    dir[p / ENTRIES].present ==>
      var e := tables[dir[p / ENTRIES].frame][p % ENTRIES];
      e.writable && (e.user <==> p < KERNEL)
  }

  /** Every present directory entry leads to a table of its own; the catalog shows the same frame at
      that index, so that the window and the processor see one table; user entries are those below
      the kernel. */
  ghost predicate TablesOk(dir: seq<PageEntry>, tables: map<nat, seq<PageEntry>>) {
    && |dir| == ENTRIES && dir[CATALOG].present
    && (forall d {:trigger dir[d]} :: 0 <= d < ENTRIES && dir[d].present ==>
          && dir[d].frame in tables && |tables[dir[d].frame]| == ENTRIES
          && dir[d].writable && (dir[d].user <==> d * ENTRIES < KERNEL))
    && (forall d, d' {:trigger dir[d], dir[d']} :: 0 <= d < d' < ENTRIES && dir[d].present && dir[d'].present ==>
          dir[d].frame != dir[d'].frame)
    && (forall d :: 0 <= d < ENTRIES && dir[d].present && !IsWindow(d * ENTRIES) ==> Shown(dir, tables, d))
  }

  ghost predicate Shown(dir: seq<PageEntry>, tables: map<nat, seq<PageEntry>>, d: nat)
    requires |dir| == ENTRIES && d < ENTRIES && dir[CATALOG].frame in tables && |tables[dir[CATALOG].frame]| == ENTRIES
  {
    var e := tables[dir[CATALOG].frame][d];
    e.present && e.writable && !e.user && e.frame == dir[d].frame
  }

  /** Frames of tables are in use, and not free for any other purpose. */
  ghost predicate TableFramesOk(frames: seq<bool>, dir: seq<PageEntry>, loose: set<nat>)
    requires |dir| == ENTRIES
  {
    forall d {:trigger dir[d]} :: 0 <= d < ENTRIES && dir[d].present ==>
      dir[d].frame < |frames| && frames[dir[d].frame] && dir[d].frame !in loose
  }

  /** A frame's bit is set exactly when one page owns it or it has been taken for a purpose yet to
      come; no two pages own the same frame. */
  ghost predicate BitsOk(frames: seq<bool>, owner: map<nat, nat>, loose: set<nat>) {
    && (forall p {:trigger owner[p]} {:trigger p in owner} :: p in owner ==>
          p < PAGES && owner[p] < |frames| && frames[owner[p]] && owner[p] !in loose)
    && (forall f {:trigger f in loose} :: f in loose ==> f < |frames| && frames[f])
    && (forall f {:trigger frames[f]} :: 0 <= f < |frames| && frames[f] ==> f in loose || OwnedBySome(owner, f))
    && (forall p, q {:trigger owner[p], owner[q]} :: p in owner && q in owner && p != q ==> owner[p] != owner[q])
  }

  ghost predicate OwnedBySome(owner: map<nat, nat>, f: nat) {
    exists p {:trigger owner[p]} :: p in owner && owner[p] == f
  }

  /** Where a page's entry leads: to the frame it owns, or to the one it is an alias of. */
  function Target(owner: map<nat, nat>, alias: map<nat, nat>, p: nat): nat
    requires p in owner
  {
    if p in alias then alias[p] else owner[p]
  }

  /** Owned pages are present and lead to their targets; no other page outside the windows is
      present. */
  ghost predicate MapsOk(dir: seq<PageEntry>, tables: map<nat, seq<PageEntry>>, owner: map<nat, nat>,
                         alias: map<nat, nat>)
    requires TablesOk(dir, tables)
  {
    && (forall p {:trigger p in owner} {:trigger owner[p]} :: p in owner ==>
          p < PAGES && Translate(dir, tables, p) == Some(Target(owner, alias, p)))
    && (forall p {:trigger p in alias} :: p in alias ==> p in owner && !IsWindow(p))
    && (forall p {:trigger Translate(dir, tables, p)} ::
          0 <= p < PAGES && !IsWindow(p) && Translate(dir, tables, p).Some? ==>
          p in owner && Rights(dir, tables, p))
    && (forall d {:trigger dir[d]} :: 0 <= d < ENTRIES && (WINDOW + d) in owner ==> dir[d].present)
  }

  /** Frames, tables and the two ghost books agree. */
  ghost predicate Agree(frames: seq<bool>, dir: seq<PageEntry>, tables: map<nat, seq<PageEntry>>, owner: map<nat, nat>,
                        alias: map<nat, nat>, loose: set<nat>) {
    && |dir| == ENTRIES
    && TablesOk(dir, tables)
    && TableFramesOk(frames, dir, loose)
    && BitsOk(frames, owner, loose)
    && MapsOk(dir, tables, owner, alias)
  }

  // ---------------------------------------------------------------- frames

  lemma TakeFrame(frames: seq<bool>, dir: seq<PageEntry>, tables: map<nat, seq<PageEntry>>, owner: map<nat, nat>,
                  alias: map<nat, nat>, loose: set<nat>, f: nat)
    requires Agree(frames, dir, tables, owner, alias, loose) && f < |frames| && !frames[f]
    ensures Agree(frames[f := true], dir, tables, owner, alias, loose + {f}) && f !in loose
  {
    hide TablesOk, MapsOk, OwnedBySome;
  }

  lemma ReturnFrame(frames: seq<bool>, dir: seq<PageEntry>, tables: map<nat, seq<PageEntry>>, owner: map<nat, nat>,
                    alias: map<nat, nat>, loose: set<nat>, f: nat)
    requires Agree(frames, dir, tables, owner, alias, loose) && f in loose
    ensures f < |frames| && frames[f]
    ensures Agree(frames[f := false], dir, tables, owner, alias, loose - {f})
  {
    hide TablesOk, MapsOk, OwnedBySome;
  }

  // ---------------------------------------------------------------- tables

  /** A frame newly taken for a table is taken to read as zeros. */
  function Zeros(): (t: seq<PageEntry>)
    ensures Blank(t)
  {
    seq(ENTRIES, i => ABSENT)
  }

  predicate Blank(t: seq<PageEntry>) {
    |t| == ENTRIES && forall i :: 0 <= i < ENTRIES ==> !t[i].present
  }

  /** The tables with a new one for directory entry d in frame f, which holds t. */
  function WithTable(dir: seq<PageEntry>, tables: map<nat, seq<PageEntry>>, d: nat, f: nat, t: seq<PageEntry>)
    : map<nat, seq<PageEntry>>
    requires |dir| == ENTRIES && d < ENTRIES && dir[CATALOG].frame in tables && |tables[dir[CATALOG].frame]| == ENTRIES
  {
    tables[dir[CATALOG].frame := tables[dir[CATALOG].frame][d := PageEntry(true, true, false, f)]][f := t]
  }

  function WithDir(dir: seq<PageEntry>, d: nat, f: nat): seq<PageEntry>
    requires d < |dir|
  {
    dir[d := PageEntry(true, true, d * ENTRIES < KERNEL, f)]
  }

  lemma NewTableOk(dir: seq<PageEntry>, tables: map<nat, seq<PageEntry>>, d: nat, f: nat, t: seq<PageEntry>)
    requires |dir| == ENTRIES && TablesOk(dir, tables) && d < ENTRIES && !dir[d].present && |t| == ENTRIES
    requires forall e {:trigger dir[e]} :: 0 <= e < ENTRIES && dir[e].present ==> dir[e].frame != f
    ensures TablesOk(WithDir(dir, d, f), WithTable(dir, tables, d, f, t))
  {
    var dir', tables' := WithDir(dir, d, f), WithTable(dir, tables, d, f, t);
    forall e | 0 <= e < ENTRIES && dir'[e].present && !IsWindow(e * ENTRIES) ensures Shown(dir', tables', e) {
      assert e == d || Shown(dir, tables, e);
    }
  }

  lemma NewTableTranslate(dir: seq<PageEntry>, tables: map<nat, seq<PageEntry>>, d: nat, f: nat, t: seq<PageEntry>,
                          p: nat)
    requires |dir| == ENTRIES && TablesOk(dir, tables) && d < ENTRIES && !dir[d].present && p < PAGES && |t| == ENTRIES
    requires forall e {:trigger dir[e]} :: 0 <= e < ENTRIES && dir[e].present ==> dir[e].frame != f
    ensures TablesOk(WithDir(dir, d, f), WithTable(dir, tables, d, f, t))
    ensures Translate(WithDir(dir, d, f), WithTable(dir, tables, d, f, t), p) ==
            if p / ENTRIES == d then (if t[p % ENTRIES].present then Some(t[p % ENTRIES].frame) else None)
            else if p == WINDOW + d then Some(f) else Translate(dir, tables, p)
    ensures p / ENTRIES != d && !IsWindow(p) ==>
      (Rights(WithDir(dir, d, f), WithTable(dir, tables, d, f, t), p) <==> Rights(dir, tables, p))
  {
    NewTableOk(dir, tables, d, f, t);
    hide Shown;
    var c := dir[CATALOG].frame;
    assert dir[p / ENTRIES].present && p / ENTRIES != CATALOG ==> dir[p / ENTRIES].frame != c;
    assert p / ENTRIES == CATALOG ==> p == WINDOW + p % ENTRIES;
  }

  /** A page becomes the owner of a frame taken before. */
  lemma TakeOver(frames: seq<bool>, owner: map<nat, nat>, loose: set<nat>, p: nat, f: nat)
    requires BitsOk(frames, owner, loose) && f in loose && p < PAGES && p !in owner
    ensures BitsOk(frames, owner[p := f], loose - {f})
  {
    var owner' := owner[p := f];
    assert owner'[p] == f;
    forall g | 0 <= g < |frames| && frames[g] ensures g in loose - {f} || OwnedBySome(owner', g) {
      if g !in loose {
        var q :| q in owner && owner[q] == g;
        assert owner'[q] == g;
      }
    }
  }

  lemma GiveUp(frames: seq<bool>, owner: map<nat, nat>, loose: set<nat>, p: nat)
    requires BitsOk(frames, owner, loose) && p in owner
    ensures BitsOk(frames, owner - {p}, loose + {owner[p]})
  {
    var owner' := owner - {p};
    forall g | 0 <= g < |frames| && frames[g] ensures g in loose + {owner[p]} || OwnedBySome(owner', g) {
      if g !in loose {
        var q :| q in owner && owner[q] == g;
        assert q == p || owner'[q] == g;
      }
    }
  }

  /** Entering a table whose frame holds t keeps everything in agreement exactly if t has no present
      entry. */
  lemma NewTable(frames: seq<bool>, dir: seq<PageEntry>, tables: map<nat, seq<PageEntry>>, owner: map<nat, nat>,
                 alias: map<nat, nat>, loose: set<nat>, d: nat, f: nat, t: seq<PageEntry>)
    requires Agree(frames, dir, tables, owner, alias, loose) && |t| == ENTRIES
    requires d < ENTRIES && !dir[d].present && !IsWindow(d * ENTRIES) && f in loose
    ensures WINDOW + d !in owner
    ensures dir[CATALOG].frame in tables && |tables[dir[CATALOG].frame]| == ENTRIES
    ensures var owner' := owner[WINDOW + d := f];
      Agree(frames, WithDir(dir, d, f), WithTable(dir, tables, d, f, t), owner', alias, loose - {f}) <==> Blank(t)
  {
    hide BitsOk, Shown, WithTable, WithDir, Translate, MapsOk, Blank;
    assert WINDOW + d !in owner by { WindowFree(dir, tables, owner, alias, d); }
    TakeOver(frames, owner, loose, WINDOW + d, f);
    NewTableOk(dir, tables, d, f, t);
    NewTableFrames(frames, dir, owner, loose, d, f);
    NewTableMaps(dir, tables, owner, alias, d, f, t);
  }

  lemma WindowFree(dir: seq<PageEntry>, tables: map<nat, seq<PageEntry>>, owner: map<nat, nat>,
                   alias: map<nat, nat>, d: nat)
    requires |dir| == ENTRIES && TablesOk(dir, tables) && MapsOk(dir, tables, owner, alias)
    requires d < ENTRIES && !dir[d].present
    ensures WINDOW + d !in owner
  {
  }

  lemma NewTableFrames(frames: seq<bool>, dir: seq<PageEntry>, owner: map<nat, nat>, loose: set<nat>, d: nat, f: nat)
    requires |dir| == ENTRIES && TableFramesOk(frames, dir, loose) && BitsOk(frames, owner, loose)
    requires d < ENTRIES && !dir[d].present && f in loose
    ensures |WithDir(dir, d, f)| == ENTRIES && TableFramesOk(frames, WithDir(dir, d, f), loose - {f})
  {
  }

  lemma NewTableMaps(dir: seq<PageEntry>, tables: map<nat, seq<PageEntry>>, owner: map<nat, nat>,
                     alias: map<nat, nat>, d: nat, f: nat, t: seq<PageEntry>)
    requires |dir| == ENTRIES && TablesOk(dir, tables) && MapsOk(dir, tables, owner, alias) && |t| == ENTRIES
    requires d < ENTRIES && !dir[d].present && !IsWindow(d * ENTRIES)
    requires forall e {:trigger dir[e]} :: 0 <= e < ENTRIES && dir[e].present ==> dir[e].frame != f
    ensures TablesOk(WithDir(dir, d, f), WithTable(dir, tables, d, f, t))
    ensures MapsOk(WithDir(dir, d, f), WithTable(dir, tables, d, f, t), owner[WINDOW + d := f], alias) <==> Blank(t)
  {
    hide Translate, Rights, Shown, WithTable;
    var dir', tables', owner' := WithDir(dir, d, f), WithTable(dir, tables, d, f, t), owner[WINDOW + d := f];
    NewTableOk(dir, tables, d, f, t);
    if Blank(t) {
      forall p | p in owner' ensures p < PAGES && Translate(dir', tables', p) == Some(Target(owner', alias, p)) {
        NewTableTranslate(dir, tables, d, f, t, p);
        if p in owner {
          OwnedPresent(dir, tables, owner, alias, p);
        }
      }
      forall p | 0 <= p < PAGES && !IsWindow(p) && Translate(dir', tables', p).Some?
        ensures p in owner' && Rights(dir', tables', p)
      {
        NewTableTranslate(dir, tables, d, f, t, p);
      }
    } else {
      var i :| 0 <= i < ENTRIES && t[i].present;
      var p := d * ENTRIES + i;
      assert p / ENTRIES == d && p % ENTRIES == i && !IsWindow(p);
      NewTableTranslate(dir, tables, d, f, t, p);
      if p in owner {
        OwnedPresent(dir, tables, owner, alias, p);
      }
    }
  }

  /** The tables with entry e for page p. */
  function WithEntry(dir: seq<PageEntry>, tables: map<nat, seq<PageEntry>>, p: nat, e: PageEntry)
    : map<nat, seq<PageEntry>>
    requires |dir| == ENTRIES && p < PAGES && dir[p / ENTRIES].frame in tables
      && |tables[dir[p / ENTRIES].frame]| == ENTRIES
  {
    var t := dir[p / ENTRIES].frame;
    tables[t := tables[t][p % ENTRIES := e]]
  }

  lemma EntrySet(dir: seq<PageEntry>, tables: map<nat, seq<PageEntry>>, p: nat, e: PageEntry)
    requires |dir| == ENTRIES && TablesOk(dir, tables) && p < PAGES && !IsWindow(p) && dir[p / ENTRIES].present
    ensures dir[p / ENTRIES].frame in tables && |tables[dir[p / ENTRIES].frame]| == ENTRIES
    ensures TablesOk(dir, WithEntry(dir, tables, p, e))
    ensures Translate(dir, WithEntry(dir, tables, p, e), p) == if e.present then Some(e.frame) else None
    ensures forall q {:trigger Translate(dir, WithEntry(dir, tables, p, e), q)} {:trigger Translate(dir, tables, q)} ::
              0 <= q < PAGES && q != p ==> Translate(dir, WithEntry(dir, tables, p, e), q) == Translate(dir, tables, q)
    ensures Rights(dir, WithEntry(dir, tables, p, e), p) <==> e.writable && (e.user <==> p < KERNEL)
    ensures forall q {:trigger Rights(dir, WithEntry(dir, tables, p, e), q)} {:trigger Rights(dir, tables, q)} ::
              0 <= q < PAGES && q != p ==> (Rights(dir, WithEntry(dir, tables, p, e), q) <==> Rights(dir, tables, q))
  {
    forall q | 0 <= q < PAGES && q != p
      ensures q / ENTRIES != p / ENTRIES || q % ENTRIES != p % ENTRIES
    {
    }
  }

  lemma Mapped(frames: seq<bool>, dir: seq<PageEntry>, tables: map<nat, seq<PageEntry>>, owner: map<nat, nat>,
               alias: map<nat, nat>, loose: set<nat>, p: nat, f: nat, user: bool)
    requires Agree(frames, dir, tables, owner, alias, loose)
    requires p < PAGES && !IsWindow(p) && dir[p / ENTRIES].present && p !in owner && f in loose
    requires user <==> p < KERNEL
    ensures dir[p / ENTRIES].frame in tables && |tables[dir[p / ENTRIES].frame]| == ENTRIES
    ensures var tables' := WithEntry(dir, tables, p, PageEntry(true, true, user, f));
      Agree(frames, dir, tables', owner[p := f], alias, loose - {f})
  {
    hide TablesOk, WithEntry, Translate, Rights, BitsOk;
    EntrySet(dir, tables, p, PageEntry(true, true, user, f));
    TakeOver(frames, owner, loose, p, f);
  }

  lemma Unmapped(frames: seq<bool>, dir: seq<PageEntry>, tables: map<nat, seq<PageEntry>>, owner: map<nat, nat>,
                 alias: map<nat, nat>, loose: set<nat>, p: nat, e: PageEntry)
    requires Agree(frames, dir, tables, owner, alias, loose) && p in owner && p !in alias && !IsWindow(p) && !e.present
    requires forall d {:trigger dir[d]} :: 0 <= d < ENTRIES && dir[d].present ==> dir[d].frame != owner[p]
    ensures p < PAGES && dir[p / ENTRIES].present
    ensures dir[p / ENTRIES].frame in tables && |tables[dir[p / ENTRIES].frame]| == ENTRIES
    ensures Agree(frames, dir, WithEntry(dir, tables, p, e), owner - {p}, alias, loose + {owner[p]})
  {
    hide TablesOk, WithEntry, Translate, Rights, BitsOk, IsWindow;
    GiveUp(frames, owner, loose, p);
    OwnedPresent(dir, tables, owner, alias, p);
    EntrySet(dir, tables, p, e);
  }

  lemma OwnedPresent(dir: seq<PageEntry>, tables: map<nat, seq<PageEntry>>, owner: map<nat, nat>,
                     alias: map<nat, nat>, p: nat)
    requires |dir| == ENTRIES && TablesOk(dir, tables) && MapsOk(dir, tables, owner, alias) && p in owner
    ensures p < PAGES && dir[p / ENTRIES].present
  {
  }

  /** What the kernel sees through the window is what the processor sees: a page outside the windows
      is present exactly when it is owned. */
  lemma WindowView(frames: seq<bool>, dir: seq<PageEntry>, tables: map<nat, seq<PageEntry>>, owner: map<nat, nat>,
                   alias: map<nat, nat>, loose: set<nat>, p: nat)
    requires Agree(frames, dir, tables, owner, alias, loose) && p < PAGES && !IsWindow(p)
    ensures dir[CATALOG].frame in tables && |tables[dir[CATALOG].frame]| == ENTRIES
    ensures !dir[p / ENTRIES].present ==> p !in owner
    ensures dir[p / ENTRIES].present ==>
      var t := tables[dir[CATALOG].frame][p / ENTRIES].frame;
      && t == dir[p / ENTRIES].frame && t in tables && |tables[t]| == ENTRIES
      && (dir[p / ENTRIES].user <==> p < KERNEL)
      && (tables[t][p % ENTRIES].present <==> p in owner)
      && (p in owner ==> tables[t][p % ENTRIES].frame == Target(owner, alias, p))
  {
    hide BitsOk, TableFramesOk;
    var d := p / ENTRIES;
    assert !IsWindow(d * ENTRIES) && (d * ENTRIES < KERNEL <==> p < KERNEL);
    if dir[d].present {
      assert Shown(dir, tables, d);
      assert Translate(dir, tables, p).Some? <==> p in owner;
    }
  }

  /** Unprivileged code reaches no page of the kernel, and every page below it that is present, to read
      and to write; the kernel can read and write every page that is present. */
  lemma Privilege(dir: seq<PageEntry>, tables: map<nat, seq<PageEntry>>, owner: map<nat, nat>, alias: map<nat, nat>,
                  p: nat, write: bool)
    requires |dir| == ENTRIES && TablesOk(dir, tables) && MapsOk(dir, tables, owner, alias) && p < PAGES
    ensures Reach(dir, tables, p, true, write) == if p < KERNEL then Translate(dir, tables, p) else None
    ensures !IsWindow(p) ==> Reach(dir, tables, p, false, write) == Translate(dir, tables, p)
  {
    var d := p / ENTRIES;
    assert d * ENTRIES < KERNEL <==> p < KERNEL;
    if Translate(dir, tables, p).Some? && !IsWindow(p) {
      assert Rights(dir, tables, p);
    }
  }

  /** The kernel can write to every table through its window. */
  lemma WindowWritable(dir: seq<PageEntry>, tables: map<nat, seq<PageEntry>>, d: nat)
    requires |dir| == ENTRIES && TablesOk(dir, tables) && d < ENTRIES && dir[d].present && !IsWindow(d * ENTRIES)
    ensures Reach(dir, tables, WINDOW + d, false, true) == Some(dir[d].frame)
  {
    assert (WINDOW + d) / ENTRIES == CATALOG && (WINDOW + d) % ENTRIES == d;
    assert Shown(dir, tables, d);
  }
}
