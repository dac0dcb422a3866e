/**
  The heap's page hook over the page allocator: what the hook answers is what the heap may be
  answered, and the pages of every block can be given back.
 */
module HeapPages {
  import opened AddressSpace
  import opened HeapLayout
  import opened KernelPages
  import opened Supply
  import opened Outcomes
  import Extents
  import Ledger
  import HeapBooks

  /** The page is recorded and can be given back. */
  ghost predicate Solid(b: Ledger.Books, p: nat) {
    p in b.ledger && p !in b.stale && p !in b.image && !IsWindow(p)
  }

  ghost predicate Held(first: nat, n: nat, b: Ledger.Books) {
    first + n <= PAGES && forall p :: first <= p < first + n ==> Solid(b, p)
  }

  /** Every block of the heap lies on pages of its own that the allocator handed out. */
  ghost predicate Backed(ms: seq<Major>, b: Ledger.Books) {
    forall m :: m in ms ==> BlockFits(m) && m.addr % PAGE == 0 && Held(m.addr / PAGE, m.pages, b)
  }

  /** Free pages belong to no block, so a block on them meets no other. */
  lemma FreshGrant(ms: seq<Major>, b: Ledger.Books, origin: nat, n: nat)
    requires b.Ok() && Backed(ms, b) && n > 0 && forall p :: origin <= p < origin + n ==> p in b.free
    ensures PAGE * origin > 0 && HeapBooks.GrantOk(ms, PAGE * origin, n)
  {
    hide Ledger.Books.Ok;
    assert origin in b.free && origin + n - 1 in b.free;
    FreeFacts(b, origin);
    FreeFacts(b, origin + n - 1);
    forall m | m in ms ensures MajorEnd(m) <= PAGE * origin || PAGE * origin + n * PAGE <= m.addr {
      var a := m.addr / PAGE;
      assert m.addr == PAGE * a && MajorEnd(m) == PAGE * (a + m.pages);
      if origin < a + m.pages && a < origin + n {
        var p := if a <= origin then origin else a;
        assert p in b.free && Solid(b, p);
        FreeFacts(b, p);
      }
    }
  }

  lemma FreeFacts(b: Ledger.Books, p: nat)
    requires b.Ok() && p in b.free
    ensures KERNEL <= p < PAGES && p !in b.ledger && p !in b.stale && p !in b.image && !IsWindow(p)
  {
  }

  /** Blocks stay backed while the allocator's mappings grow. */
  lemma BackedGrew(ms: seq<Major>, a: Ledger.Books, b: Ledger.Books)
    requires Backed(ms, a) && Ledger.Grew(a, b, {})
    ensures Backed(ms, b)
  {
    forall m, p | m in ms && m.addr / PAGE <= p < m.addr / PAGE + m.pages ensures Solid(b, p) {
      assert Solid(a, p);
    }
  }

  /** liballoc_alloc. It does not return null: a lack of pages is a panic. */
  method Alloc(k: PageAllocator, n: nat, ghost ms: seq<Major>) returns (grant: nat, r: Fault)
    requires k.Valid() && !k.lock && n > 0 && Backed(ms, k.Now())
    modifies k, k.space
    ensures r.Fine? || Scarce(r)
    ensures Did(Take(old(k.Supply()), n, k.capacity), r, k.Supply())
    ensures Covered(old(k.Supply())) ==>
      (r.Fine? <==> NextPage(old(k.space.extents), n).Some?
                    && Suffices(StockOf(old(k.Supply())), n, n, n, k.capacity))
    ensures r.OutOfFrames? ==> AllUsed(k.frames)
    ensures r.Fine? ==> k.Valid() && !k.lock && k.Now().InFlight() == old(k.Now().InFlight()) && k.user == old(k.user)
    ensures r.Fine? ==> grant > 0 && grant % PAGE == 0 && HeapBooks.GrantOk(ms, grant, n)
    ensures r.Fine? ==> Backed(ms, k.Now()) && Held(grant / PAGE, n, k.Now())
  {
    hide Ledger.Books.Ok, Ledger.Flight, Backed, Held, HeapBooks.GrantOk, Ledger.Grew, Covered, Take,
        StockOf, Suffices, AllUsed, Extents.BestFit, Extents.Valid, Extents.FreeOf;
    ghost var b := k.Now();
    if NextPage(k.space.extents, n).Some? {
      TakeMeans(k.Supply(), n, k.capacity);
    } else {
      NoSpace(k.Supply(), n, k.capacity);
    }
    var origin;
    origin, r := k.AllocatePages(n);
    grant := PAGE * origin;
    if r != Fine {
      return;
    }
    FreshGrant(ms, b, origin, n);
    BackedGrew(ms, b, k.Now());
    FreshHeld(b, k.Now(), origin, n);
    assert grant / PAGE == origin;
  }

  lemma FreshHeld(a: Ledger.Books, b: Ledger.Books, origin: nat, n: nat)
    requires a.Ok() && Ledger.Grew(a, b, {}) && n > 0
    requires forall p :: origin <= p < origin + n ==> p in a.free && p in b.ledger
    ensures Held(origin, n, b)
  {
    hide Ledger.Books.Ok;
    forall p | origin <= p < origin + n ensures Solid(b, p) {
      assert p in a.free;
      FreeFacts(a, p);
    }
    assert origin + n - 1 in a.free;
    FreeFacts(a, origin + n - 1);
  }

  /** liballoc_free of a block: no panic is possible, and all other blocks stay backed. */
  method Free(k: PageAllocator, maj: Major, ghost ms: seq<Major>, ghost i: nat) returns (r: Fault)
    requires k.Valid() && k.UserMapped() && Backed(ms, k.Now()) && i < |ms| && ms[i] == maj
    requires forall j, l :: 0 <= j < l < |ms| ==> Apart(ms[j], ms[l])
    modifies k
    ensures r.Fine? && k.Valid() && k.UserMapped() && k.lock == old(k.lock)
    ensures k.Now().InFlight() == old(k.Now().InFlight())
    ensures Backed(RemoveAt<Major>(ms, i), k.Now())
    ensures GaveBackAll(old(k.Now()), old(k.user), k.Now(), k.user, maj.addr / PAGE, maj.pages)
  {
    hide Ledger.Books.Ok, Ledger.Flight, Backed, GaveBackAll, RemoveAt, Returnable, Ledger.UserOk;
    ghost var b, u := k.Now(), k.user;
    BlockHeld(ms, b, u, i);
    r := k.DeallocatePages(maj.addr / PAGE, maj.pages);
    OthersBacked(ms, b, u, k.Now(), k.user, i);
  }

  lemma BlockHeld(ms: seq<Major>, b: Ledger.Books, user: map<nat, nat>, i: nat)
    requires Backed(ms, b) && i < |ms|
    ensures var m := ms[i];
      && m.addr / PAGE + m.pages <= PAGES
      && forall p :: m.addr / PAGE <= p < m.addr / PAGE + m.pages ==>
           !IsWindow(p) && p !in b.image && Returnable(b, user, p)
  {
    var m := ms[i];
    forall p | m.addr / PAGE <= p < m.addr / PAGE + m.pages
      ensures !IsWindow(p) && p !in b.image && Returnable(b, user, p)
    {
      assert Solid(b, p);
    }
  }

  lemma OthersBacked(ms: seq<Major>, a: Ledger.Books, user: map<nat, nat>, b: Ledger.Books, user': map<nat, nat>,
                     i: nat)
    requires Backed(ms, a) && i < |ms| && GaveBackAll(a, user, b, user', ms[i].addr / PAGE, ms[i].pages)
    requires forall j, l :: 0 <= j < l < |ms| ==> Apart(ms[j], ms[l])
    ensures Backed(RemoveAt<Major>(ms, i), b)
  {
    hide Held;
    RemoveAtIndex<Major>(ms, i);
    var rest := RemoveAt<Major>(ms, i);
    forall m | m in rest ensures BlockFits(m) && m.addr % PAGE == 0 && Held(m.addr / PAGE, m.pages, b) {
      var j :| 0 <= j < |rest| && rest[j] == m;
      var l := if j < i then j else j + 1;
      assert ms[l] == m && m in ms && ms[i] in ms;
      assert l < i ==> Apart(ms[l], ms[i]);
      assert i < l ==> Apart(ms[i], ms[l]);
      ApartHeld(m, ms[i], a, user, b, user');
    }
  }

  lemma ApartHeld(m: Major, gone: Major, a: Ledger.Books, user: map<nat, nat>, b: Ledger.Books, user': map<nat, nat>)
    requires BlockFits(m) && BlockFits(gone) && m.addr % PAGE == 0 && gone.addr % PAGE == 0
    requires (Apart(m, gone) || Apart(gone, m)) && Held(m.addr / PAGE, m.pages, a)
    requires GaveBackAll(a, user, b, user', gone.addr / PAGE, gone.pages)
    ensures Held(m.addr / PAGE, m.pages, b)
  {
    var x, y := m.addr / PAGE, gone.addr / PAGE;
    assert MajorEnd(m) == PAGE * (x + m.pages) && MajorEnd(gone) == PAGE * (y + gone.pages);
    forall p | x <= p < x + m.pages ensures Solid(b, p) {
      assert Solid(a, p) && !Within(p, y, gone.pages);
    }
  }

  /** The block malloc makes of the hook's answer is backed like all others. */
  lemma GrownBacked(b0: HeapBooks.Books, start: HeapBooks.Books, grant: nat, size: nat, k: Ledger.Books)
    requires Backed(b0.majors, k) && HeapBooks.Started(b0, start, grant, size)
    requires grant % PAGE == 0 && Held(grant / PAGE, PagesFor(size), k)
    ensures Backed(start.majors, k)
  {
    hide HeapBooks.Full, Held, PagesFor;
  }
}
