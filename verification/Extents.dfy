/**
  The free kernel address space: a multimap from extent size to extent, ordered by size, from
  which allocation takes the best fit and booting takes single pages.
 */
module Extents {
  import opened AddressSpace

  /** `size` pages from address `begin` on. */
  datatype Extent = Extent(size: nat, begin: nat)

  ghost function PagesOf(e: Extent): set<nat> {
    set n: nat | n < PAGES && e.begin <= PAGE * n < e.begin + PAGE * e.size
  }

  /** The numbers of all free pages. */
  ghost function FreeOf(es: seq<Extent>): set<nat> {
    if es == [] then {} else PagesOf(es[0]) + FreeOf(es[1..])
  }

  ghost predicate Sound(e: Extent) {
    e.begin % PAGE == 0 && e.begin + PAGE * e.size <= SPACE
  }

  ghost predicate Ordered(es: seq<Extent>) {
    forall i, j :: 0 <= i < j < |es| ==> es[i].size <= es[j].size
  }

  /** Extents are page-aligned, inside the address space, ordered by size and pairwise disjoint. */
  ghost predicate Valid(es: seq<Extent>) {
    && (forall i :: 0 <= i < |es| ==> Sound(es[i]))
    && Ordered(es)
    && (forall i, j :: 0 <= i < j < |es| ==> PagesOf(es[i]) !! PagesOf(es[j]))
  }

  function Erase(es: seq<Extent>, i: nat): seq<Extent>
    requires i < |es|
  {
    es[..i] + es[i + 1..]
  }

  /** The position emplace uses: behind every extent that is not larger. */
  function UpperBound(es: seq<Extent>, size: nat): (i: nat)
    ensures i <= |es|
    ensures forall j :: 0 <= j < i ==> es[j].size <= size
    ensures i < |es| ==> size < es[i].size
  {
    if es == [] || size < es[0].size then 0 else 1 + UpperBound(es[1..], size)
  }

  function Emplace(es: seq<Extent>, e: Extent): seq<Extent> {
    var i := UpperBound(es, e.size);
    es[..i] + [e] + es[i..]
  }

  lemma {:induction false} FreeConcat(a: seq<Extent>, b: seq<Extent>)
    ensures FreeOf(a + b) == FreeOf(a) + FreeOf(b)
  {
    if a == [] {
      assert a + b == b;
    } else {
      assert (a + b)[1..] == a[1..] + b;
      FreeConcat(a[1..], b);
    }
  }

  lemma {:induction false} FreeMember(es: seq<Extent>, i: nat)
    requires i < |es|
    ensures PagesOf(es[i]) <= FreeOf(es)
  {
    if i > 0 {
      FreeMember(es[1..], i - 1);
    }
  }

  lemma {:induction false} FreeWitness(es: seq<Extent>, n: nat) returns (i: nat)
    requires n in FreeOf(es)
    ensures i < |es| && n in PagesOf(es[i])
  {
    if n in PagesOf(es[0]) {
      i := 0;
    } else {
      i := FreeWitness(es[1..], n);
      i := i + 1;
    }
  }

  lemma EmplaceIndex(es: seq<Extent>, e: Extent) returns (i: nat)
    ensures i <= |es| && (forall j :: 0 <= j < i ==> es[j].size <= e.size) && (i < |es| ==> e.size < es[i].size)
    ensures |Emplace(es, e)| == |es| + 1
    ensures forall j {:trigger Emplace(es, e)[j]} :: 0 <= j <= |es| ==>
              Emplace(es, e)[j] == if j < i then es[j] else if j == i then e else es[j - 1]
  {
    i := UpperBound(es, e.size);
  }

  lemma EmplaceFree(es: seq<Extent>, e: Extent)
    ensures FreeOf(Emplace(es, e)) == FreeOf(es) + PagesOf(e)
  {
    hide PagesOf;
    var i := UpperBound(es, e.size);
    FreeConcat(es[..i], es[i..]);
    FreeConcat(es[..i] + [e], es[i..]);
    FreeConcat(es[..i], [e]);
    assert es == es[..i] + es[i..];
    assert FreeOf([e]) == PagesOf(e);
  }

  lemma EmplaceValid(es: seq<Extent>, e: Extent)
    requires Valid(es) && Sound(e) && PagesOf(e) !! FreeOf(es)
    ensures Valid(Emplace(es, e))
  {
    hide PagesOf, Sound, Emplace, FreeOf;
    var i := EmplaceIndex(es, e);
    forall j | 0 <= j < |es| ensures PagesOf(es[j]) !! PagesOf(e) {
      FreeMember(es, j);
    }
    var r := Emplace(es, e);
    forall j, k | 0 <= j < k < |r| ensures r[j].size <= r[k].size && PagesOf(r[j]) !! PagesOf(r[k]) {
    }
  }

  lemma EraseIndex(es: seq<Extent>, i: nat)
    requires i < |es|
    ensures |Erase(es, i)| == |es| - 1
    ensures forall j {:trigger Erase(es, i)[j]} ::
      0 <= j < |es| - 1 ==> Erase(es, i)[j] == if j < i then es[j] else es[j + 1]
  {
  }

  lemma EraseValid(es: seq<Extent>, i: nat)
    requires Valid(es) && i < |es|
    ensures Valid(Erase(es, i)) && PagesOf(es[i]) !! FreeOf(Erase(es, i))
  {
    hide PagesOf, Sound, Erase, FreeOf;
    EraseIndex(es, i);
    var r := Erase(es, i);
    forall n | n in FreeOf(r) ensures n !in PagesOf(es[i]) {
      var j := FreeWitness(r, n);
      if j < i {
        assert PagesOf(es[j]) !! PagesOf(es[i]);
      } else {
        assert PagesOf(es[i]) !! PagesOf(es[j + 1]);
      }
    }
  }

  lemma EraseFree(es: seq<Extent>, i: nat)
    requires i < |es|
    ensures FreeOf(es) == FreeOf(Erase(es, i)) + PagesOf(es[i])
  {
    hide PagesOf, FreeOf;
    FreeConcat(es[..i], [es[i]] + es[i + 1..]);
    FreeConcat([es[i]], es[i + 1..]);
    FreeConcat(es[..i], es[i + 1..]);
    FreeOfOne(es[i]);
    assert es == es[..i] + ([es[i]] + es[i + 1..]);
  }

  /** Cutting the first `count` pages off an extent. */
  lemma CutFront(e: Extent, count: nat)
    requires Sound(e) && count <= e.size
    ensures Sound(Extent(e.size - count, e.begin + PAGE * count))
    ensures PagesOf(e) == PagesOf(Extent(count, e.begin)) + PagesOf(Extent(e.size - count, e.begin + PAGE * count))
    ensures PagesOf(Extent(count, e.begin)) !! PagesOf(Extent(e.size - count, e.begin + PAGE * count))
  {
  }

  // ---------------------------------------------------------------- taking single pages while booting

  /** Address of the last byte of an extent, in 32-bit arithmetic. */
  function Last(e: Extent): nat {
    (e.begin + PAGE * e.size + SPACE - 1) % SPACE
  }

  predicate Matches(e: Extent, page: nat) {
    e.begin <= page <= Last(e)
  }

  /** What is left of a matching extent without the page. */
  function Pieces(e: Extent, page: nat): seq<Extent>
    requires e.begin <= page < SPACE
  {
    if e.begin == page then
      [Extent((e.size + SPACE - 1) % SPACE, (e.begin + PAGE) % SPACE)]
    else if (page + PAGE) % SPACE == Last(e) then
      [Extent((e.size + SPACE - 1) % SPACE, e.begin)]
    else
      var pageEnd := (page + PAGE) % SPACE;
      var leftSize := (page - e.begin) / PAGE;
      var rightSize := ((Last(e) + 1 + SPACE - pageEnd) % SPACE) / PAGE;
      [Extent(leftSize, e.begin), Extent(rightSize, pageEnd)]
  }

  function FirstMatch(es: seq<Extent>, page: nat): (i: nat)
    ensures i <= |es| && (i < |es| ==> Matches(es[i], page)) && forall j :: 0 <= j < i ==> !Matches(es[j], page)
  {
    if es == [] || Matches(es[0], page) then 0 else 1 + FirstMatch(es[1..], page)
  }

  function EmplaceAll(es: seq<Extent>, pieces: seq<Extent>): seq<Extent>
    decreases pieces
  {
    if pieces == [] then es else EmplaceAll(Emplace(es, pieces[0]), pieces[1..])
  }

  /** The effect of deallocate_virtual_space; None is its panic. */
  function Take(es: seq<Extent>, page: nat): Option<seq<Extent>>
    requires page < SPACE
  {
    var i := FirstMatch(es, page);
    if i == |es| then None else Some(EmplaceAll(Erase(es, i), Pieces(es[i], page)))
  }

  /** Except for the empty extent at address 0, an extent matches exactly its own pages. */
  lemma MatchIsMember(e: Extent, page: nat)
    requires Sound(e) && page % PAGE == 0 && page < SPACE && e != Extent(0, 0)
    ensures Matches(e, page) <==> page / PAGE in PagesOf(e)
  {
    assert PAGE * (page / PAGE) == page;
  }

  lemma FreeOfOne(e: Extent)
    ensures FreeOf([e]) == PagesOf(e)
  {
  }

  lemma FreeOfTwo(d: Extent, e: Extent)
    ensures FreeOf([d, e]) == PagesOf(d) + PagesOf(e)
  {
    FreeConcat([d], [e]);
    FreeOfOne(d);
    FreeOfOne(e);
    assert [d] + [e] == [d, e];
  }

  /** The first page of an extent. */
  lemma PieceBehind(e: Extent, page: nat)
    requires Sound(e) && page % PAGE == 0 && e.begin == page < SPACE && e.size > 0
    ensures Pieces(e, page) == [Extent(e.size - 1, (e.begin + PAGE) % SPACE)]
    ensures var r := Extent(e.size - 1, (e.begin + PAGE) % SPACE);
      Sound(r) && PagesOf(r) == PagesOf(e) - {page / PAGE}
  {
    if e.begin + PAGE < SPACE {
      assert (e.begin + PAGE) % SPACE == e.begin + PAGE;
    } else {
      assert (e.begin + PAGE) % SPACE == 0 && e.size == 1;
    }
  }

  /** Any later page. The second branch of the code, which compares a page address with the address
      of a last byte, is never taken. */
  lemma PieceAround(e: Extent, page: nat)
    requires Sound(e) && page % PAGE == 0 && e.begin < page && page + PAGE <= e.begin + PAGE * e.size
    ensures var d, r := Extent((page - e.begin) / PAGE, e.begin), Extent(e.size - 1 - (page - e.begin) / PAGE,
        (page + PAGE) % SPACE);
      && Pieces(e, page) == [d, r]
      && Sound(d) && Sound(r) && PagesOf(d) !! PagesOf(r) && PagesOf(d) + PagesOf(r) == PagesOf(e) - {page / PAGE}
  {
    hide PagesOf, Sound, Pieces;
    PieceShape(e, page);
    PieceSets(e, page);
  }

  lemma PieceShape(e: Extent, page: nat)
    requires Sound(e) && page % PAGE == 0 && e.begin < page && page + PAGE <= e.begin + PAGE * e.size
    ensures Pieces(e, page) ==
            [Extent((page - e.begin) / PAGE, e.begin),
             Extent(e.size - 1 - (page - e.begin) / PAGE, (page + PAGE) % SPACE)]
  {
    assert Last(e) == e.begin + PAGE * e.size - 1;
    assert (page - e.begin) % PAGE == 0;
    if page + PAGE < SPACE {
      assert (page + PAGE) % SPACE == page + PAGE;
      assert (Last(e) + 1 + SPACE - (page + PAGE)) % SPACE == e.begin + PAGE * e.size - (page + PAGE);
    } else {
      assert (page + PAGE) % SPACE == 0 && Last(e) + 1 == SPACE;
    }
  }

  lemma PieceSets(e: Extent, page: nat)
    requires Sound(e) && page % PAGE == 0 && e.begin < page && page + PAGE <= e.begin + PAGE * e.size
    ensures var d, r := Extent((page - e.begin) / PAGE, e.begin),
                        Extent(e.size - 1 - (page - e.begin) / PAGE, (page + PAGE) % SPACE);
      Sound(d) && Sound(r) && PagesOf(d) !! PagesOf(r) && PagesOf(d) + PagesOf(r) == PagesOf(e) - {page / PAGE}
  {
    assert (page - e.begin) % PAGE == 0;
    if page + PAGE < SPACE {
      assert (page + PAGE) % SPACE == page + PAGE;
    } else {
      assert (page + PAGE) % SPACE == 0 && e.size - 1 - (page - e.begin) / PAGE == 0;
    }
  }

  /** Cutting a page out leaves sound, disjoint pieces with exactly the other pages, also when the
      extent ends at the top of the address space and its end wraps to 0. */
  lemma PiecesExact(e: Extent, page: nat)
    requires Sound(e) && page % PAGE == 0 && page < SPACE && page / PAGE in PagesOf(e)
    ensures e.begin <= page
    ensures var ps := Pieces(e, page);
      && (forall i :: 0 <= i < |ps| ==> Sound(ps[i])) && 1 <= |ps| <= 2
      && (|ps| == 2 ==> PagesOf(ps[0]) !! PagesOf(ps[1]))
      && FreeOf(ps) == PagesOf(e) - {page / PAGE}
  {
    hide Pieces, FreeOf;
    assert PAGE * (page / PAGE) == page;
    var ps := Pieces(e, page);
    if e.begin == page {
      PieceBehind(e, page);
      FreeOfOne(ps[0]);
    } else {
      PieceAround(e, page);
      FreeOfTwo(ps[0], ps[1]);
    }
  }

  lemma EmplacePieces(es: seq<Extent>, ps: seq<Extent>)
    requires Valid(es) && 1 <= |ps| <= 2 && (forall i :: 0 <= i < |ps| ==> Sound(ps[i]))
    requires |ps| == 2 ==> PagesOf(ps[0]) !! PagesOf(ps[1])
    requires FreeOf(ps) !! FreeOf(es)
    ensures Valid(EmplaceAll(es, ps)) && FreeOf(EmplaceAll(es, ps)) == FreeOf(es) + FreeOf(ps)
  {
    hide PagesOf, Sound, Emplace;
    FreeMember(ps, 0);
    EmplaceValid(es, ps[0]);
    EmplaceFree(es, ps[0]);
    var es1 := Emplace(es, ps[0]);
    if |ps| == 2 {
      FreeMember(ps, 1);
      EmplaceValid(es1, ps[1]);
      EmplaceFree(es1, ps[1]);
      assert ps[1..][1..] == [] && ps[1..][0] == ps[1];
      assert EmplaceAll(es1, ps[1..]) == EmplaceAll(Emplace(es1, ps[1]), []);
      FreeOfTwo(ps[0], ps[1]);
      assert ps == [ps[0], ps[1]];
    } else {
      assert ps[1..] == [];
      assert FreeOf(ps) == PagesOf(ps[0]);
    }
  }

  /** Without an empty extent at address 0: exactly the given page is taken, or there is none. */
  lemma TakeExact(es: seq<Extent>, page: nat)
    requires Valid(es) && page % PAGE == 0 && page < SPACE && Extent(0, 0) !in es
    ensures Take(es, page).None? <==> page / PAGE !in FreeOf(es)
    ensures Take(es, page).Some? ==>
      Valid(Take(es, page).value) && FreeOf(Take(es, page).value) == FreeOf(es) - {page / PAGE}
  {
    hide PagesOf, Sound, Erase, FreeOf, Pieces, EmplaceAll, Matches;
    var i := FirstMatch(es, page);
    forall j | 0 <= j < |es| ensures Matches(es[j], page) <==> page / PAGE in PagesOf(es[j]) {
      assert es[j] in es;
      MatchIsMember(es[j], page);
    }
    if i == |es| {
      if page / PAGE in FreeOf(es) {
        var k := FreeWitness(es, page / PAGE);
        assert false;
      }
    } else {
      FreeMember(es, i);
      PiecesExact(es[i], page);
      EraseValid(es, i);
      EraseFree(es, i);
      EmplacePieces(Erase(es, i), Pieces(es[i], page));
    }
  }

  /** With one, the page asked for is not taken at all: so taking a page of the free space is exact
      if and only if there is no empty extent at address 0. */
  lemma TakeExactIff(es: seq<Extent>, page: nat)
    requires Valid(es) && page % PAGE == 0 && page < SPACE && page / PAGE in FreeOf(es)
    ensures Take(es, page).Some? && FreeOf(Take(es, page).value) == FreeOf(es) - {page / PAGE}
            <==> Extent(0, 0) !in es
  {
    hide PagesOf, Sound, Erase, FreeOf, Pieces, EmplaceAll;
    if Extent(0, 0) !in es {
      TakeExact(es, page);
    } else {
      var z :| 0 <= z < |es| && es[z] == Extent(0, 0);
      var i := FirstMatch(es, page);
      assert Matches(es[z], page);
      EmptyBefore(es, z, page, i);
      EraseFree(es, i);
      EmplaceAllKeeps(Erase(es, i), Pieces(es[i], page), page / PAGE);
    }
  }

  /** Only an empty extent at address 0 matches before or at an empty extent. */
  lemma EmptyBefore(es: seq<Extent>, z: nat, page: nat, i: nat)
    requires Ordered(es) && z < |es| && es[z].size == 0 && i <= z
    requires (forall j :: 0 <= j < |es| ==> Sound(es[j])) && page < SPACE && Matches(es[i], page)
    ensures es[i] == Extent(0, 0) && PagesOf(es[i]) == {}
  {
    assert es[i].size <= es[z].size;
  }

  lemma {:induction false} EmplaceAllKeeps(es: seq<Extent>, ps: seq<Extent>, n: nat)
    requires n in FreeOf(es)
    ensures n in FreeOf(EmplaceAll(es, ps))
    decreases ps
  {
    hide PagesOf, Emplace;
    if ps != [] {
      EmplaceFree(es, ps[0]);
      EmplaceAllKeeps(Emplace(es, ps[0]), ps[1..], n);
    }
  }

  /** An empty extent at address 0 comes from taking the last page of the address space, and from
      nothing else. */
  lemma TopPageOnly(es: seq<Extent>, page: nat)
    requires Valid(es) && page % PAGE == 0 && page < SPACE && Extent(0, 0) !in es && page / PAGE in FreeOf(es)
    ensures Take(es, page).Some?
    ensures Extent(0, 0) in Take(es, page).value <==> page == TOP_PAGE
  {
    hide FreeOf, Erase, EmplaceAll;
    TakeExact(es, page);
    var i := FirstMatch(es, page);
    var e := es[i];
    assert e in es;
    MatchIsMember(e, page);
    var ps := Pieces(e, page);
    EmplaceAllContents(Erase(es, i), ps, Extent(0, 0));
    EraseContents(es, i, Extent(0, 0));
    assert PAGE * (page / PAGE) == page;
  }

  /** Taking pages one after another. */
  function TakeAll(es: seq<Extent>, ps: seq<nat>): Option<seq<Extent>>
    requires forall i :: 0 <= i < |ps| ==> ps[i] < PAGES
    decreases ps
  {
    if ps == [] then Some(es)
    else match Take(es, PAGE * ps[0])
      case None => None
      case Some(rest) => TakeAll(rest, ps[1..])
  }

  /** Over any run that leaves the last page of the address space alone, exactly the pages asked for
      are taken, and none is refused. */
  lemma {:induction false} TakeAllExact(es: seq<Extent>, ps: seq<nat>)
    requires Valid(es) && Extent(0, 0) !in es
      && (forall i :: 0 <= i < |ps| ==> ps[i] < PAGES - 1 && ps[i] in FreeOf(es))
    requires forall i, j :: 0 <= i < j < |ps| ==> ps[i] != ps[j]
    ensures TakeAll(es, ps).Some?
    ensures var r := TakeAll(es, ps).value;
      Valid(r) && Extent(0, 0) !in r && FreeOf(r) == FreeOf(es) - set p | p in ps
    decreases ps
  {
    hide Valid, FreeOf, Take;
    if ps != [] {
      TakeExact(es, PAGE * ps[0]);
      TopPageOnly(es, PAGE * ps[0]);
      var rest := Take(es, PAGE * ps[0]).value;
      assert forall i :: 0 <= i < |ps| - 1 ==> ps[1..][i] == ps[i + 1];
      TakeAllExact(rest, ps[1..]);
      assert forall p :: p in ps <==> p == ps[0] || p in ps[1..];
    }
  }

  /** Had booting taken the last page of the address space, no later removal would have been exact. */
  lemma TopPageSpoils(n: nat)
    ensures Take(BootExtents(), TOP_PAGE).Some?
    ensures var es := Take(BootExtents(), TOP_PAGE).value;
      && Valid(es) && KERNEL in FreeOf(es)
      && (n in FreeOf(es) ==>
            n < PAGES && Take(es, PAGE * n).Some? && FreeOf(Take(es, PAGE * n).value) != FreeOf(es) - {n})
  {
    hide FreeOf, Take, Valid;
    BootValid();
    TakeExact(BootExtents(), TOP_PAGE);
    TopPageOnly(BootExtents(), TOP_PAGE);
    var es := Take(BootExtents(), TOP_PAGE).value;
    if n in FreeOf(es) {
      TakeExactIff(es, PAGE * n);
      TakeSome(es, PAGE * n);
    }
  }

  lemma TakeSome(es: seq<Extent>, page: nat)
    requires Valid(es) && page % PAGE == 0 && page < SPACE && page / PAGE in FreeOf(es)
    ensures Take(es, page).Some?
  {
    hide PagesOf, Sound, Erase, FreeOf, Pieces, EmplaceAll;
    var k := FreeWitness(es, page / PAGE);
    if es[k] != Extent(0, 0) {
      MatchIsMember(es[k], page);
    }
  }

  lemma EraseContents(es: seq<Extent>, i: nat, x: Extent)
    requires i < |es| && x !in es
    ensures x !in Erase(es, i)
  {
  }

  lemma {:induction false} EmplaceAllContents(es: seq<Extent>, ps: seq<Extent>, x: Extent)
    ensures x in EmplaceAll(es, ps) <==> x in es || x in ps
    decreases ps
  {
    if ps != [] {
      var i := UpperBound(es, ps[0].size);
      assert es == es[..i] + es[i..];
      assert x in Emplace(es, ps[0]) <==> x in es || x == ps[0];
      EmplaceAllContents(Emplace(es, ps[0]), ps[1..], x);
    }
  }

  // ---------------------------------------------------------------- the allocator

  /** The extent the next `count` pages are cut off. */
  function BestFit(es: seq<Extent>, count: nat): Option<Extent>
    requires count > 0
  {
    var i := UpperBound(es, count - 1);
    if i == |es| then None else Some(es[i])
  }

  /** It is a smallest of those large enough, and of these the first; there is none only if none is large
      enough. */
  lemma BestFitSmallest(es: seq<Extent>, count: nat)
    requires Ordered(es) && count > 0
    ensures BestFit(es, count).None? <==> forall x :: x in es ==> x.size < count
    ensures BestFit(es, count).Some? ==> var e := BestFit(es, count).value;
      && e in es && count <= e.size && (forall x :: x in es && count <= x.size ==> e.size <= x.size)
      && exists i :: 0 <= i < |es| && es[i] == e && forall j :: 0 <= j < i ==> es[j].size < count
  {
    var i := UpperBound(es, count - 1);
    forall x | x in es && count <= x.size ensures i < |es| && es[i].size <= x.size {
      var j :| 0 <= j < |es| && es[j] == x;
    }
  }

  /** What is left when `count` pages have been cut off the best-fitting extent. */
  function After(es: seq<Extent>, count: nat): seq<Extent>
    requires count > 0 && BestFit(es, count).Some?
  {
    var i := UpperBound(es, count - 1);
    var rest := Erase(es, i);
    if es[i].size > count then Emplace(rest, Extent(es[i].size - count, es[i].begin + PAGE * count)) else rest
  }

  /** Exactly the pages cut off are no longer free. */
  lemma AfterExact(es: seq<Extent>, count: nat)
    requires Valid(es) && count > 0 && BestFit(es, count).Some?
    ensures var begin := BestFit(es, count).value.begin;
      && begin % PAGE == 0 && begin + PAGE * count <= SPACE
      && PagesOf(Extent(count, begin)) <= FreeOf(es)
      && Valid(After(es, count)) && FreeOf(After(es, count)) == FreeOf(es) - PagesOf(Extent(count, begin))
      && |After(es, count)| <= |es|
  {
    hide PagesOf, FreeOf, Erase, Emplace, Ordered;
    var i := UpperBound(es, count - 1);
    var e, rest := es[i], Extent(es[i].size - count, es[i].begin + PAGE * count);
    CutFront(e, count);
    EraseValid(es, i);
    EraseFree(es, i);
    EraseIndex(es, i);
    if e.size > count {
      EmplaceValid(Erase(es, i), rest);
      EmplaceFree(Erase(es, i), rest);
      var k := EmplaceIndex(Erase(es, i), rest);
    } else {
      EmptyExtent(rest.begin);
    }
  }

  class VirtualSpace {
    var extents: seq<Extent>
    ghost var taken: set<nat>      // numbers of all pages ever handed out or taken

    ghost predicate Ok()
      reads this
    {
      Valid(extents) && taken !! FreeOf(extents)
    }

    constructor (extents: seq<Extent>)
      requires Valid(extents)
      ensures Ok() && this.extents == extents && taken == {}
    {
      this.extents, taken := extents, {};
    }

    /** The start of `count` pages cut off the best-fitting extent; None is the panic. No page is
        ever handed out twice. */
    method Allocate(count: nat) returns (r: Option<nat>)
      requires Ok()
      modifies this
      ensures Ok()
      ensures r.None? <==> count == 0 || BestFit(old(extents), count).None?
      ensures r.None? ==> extents == old(extents) && taken == old(taken)
      ensures r.Some? ==> var got := PagesOf(Extent(count, r.value));
        && r.value % PAGE == 0 && r.value + PAGE * count <= SPACE
        && got <= FreeOf(old(extents)) && got !! old(taken) && taken == old(taken) + got
        && FreeOf(extents) == FreeOf(old(extents)) - got && |extents| <= |old(extents)|
        && BestFit(old(extents), count).Some? && r.value == BestFit(old(extents), count).value.begin
        && extents == After(old(extents), count)
    {
      hide PagesOf, FreeOf, Erase, Emplace, Ordered;
      if count == 0 {
        return None;
      }
      var i := UpperBound(extents, count - 1);
      if i == |extents| {
        return None;
      }
      AfterExact(extents, count);
      var size, address := extents[i].size, extents[i].begin;
      extents := Erase(extents, i);
      if size > count {
        extents := Emplace(extents, Extent(size - count, address + PAGE * count));
      }
      taken := taken + PagesOf(Extent(count, address));
      r := Some(address);
    }

    /** Take one page out, while booting. */
    method Deallocate(page: nat) returns (ok: bool)
      requires Ok() && page % PAGE == 0 && page < SPACE
      modifies this
      ensures ok <==> Take(old(extents), page).Some?
      ensures !ok ==> extents == old(extents) && taken == old(taken)
      ensures ok ==> Some(extents) == Take(old(extents), page) && taken == old(taken) + {page / PAGE}
      ensures Extent(0, 0) !in old(extents) ==>
        && Ok() && FreeOf(extents) == FreeOf(old(extents)) - {page / PAGE}
        && (ok <==> page / PAGE in FreeOf(old(extents)))
        && (ok ==> (Extent(0, 0) in extents <==> page == TOP_PAGE))
    {
      hide PagesOf, FreeOf, Erase, EmplaceAll, Pieces, Valid;
      if Extent(0, 0) !in extents {
        TakeExact(extents, page);
        if page / PAGE in FreeOf(extents) {
          TopPageOnly(extents, page);
        }
      }
      var i := 0;
      while i < |extents|
        invariant i <= |extents| && extents == old(extents) && taken == old(taken)
        invariant forall j :: 0 <= j < i ==> !Matches(extents[j], page)
      {
        var e := extents[i];
        var end := (e.begin + PAGE * e.size + SPACE - 1) % SPACE;
        if e.begin <= page <= end {
          assert i == FirstMatch(extents, page);
          extents := EmplaceAll(Erase(extents, i), Pieces(e, page));
          taken := taken + {page / PAGE};
          return true;
        }
        i := i + 1;
      }
      return false;
    }

    /** Mark the pages from first up to last as allocated, but not those in `skip`. */
    method Mark(first: nat, last: nat, skip: set<nat>) returns (ok: bool)
      requires Ok() && Extent(0, 0) !in extents && first <= last < PAGES
      requires forall p :: first <= p < last && p !in skip ==> p in FreeOf(extents)
      modifies this
      ensures ok && Ok() && Extent(0, 0) !in extents
      ensures forall p :: p in FreeOf(extents) <==> p in FreeOf(old(extents)) && !(first <= p < last && p !in skip)
    {
      hide PagesOf, FreeOf, Valid, Take;
      var page := first;
      while page < last
        invariant first <= page <= last && Ok() && Extent(0, 0) !in extents
        invariant forall p :: p in FreeOf(extents) <==> p in FreeOf(old(extents)) && !(first <= p < page && p !in skip)
      {
        if page !in skip {
          ok := Deallocate(PAGE * page);
          if !ok {
            return;
          }
        }
        page := page + 1;
      }
      ok := true;
    }
  }

  /** Booting: the kernel image is marked, and what was used of the pages behind it. No panic is
      possible, and the pages marked are exactly those that are no longer free. */
  method Boot(kernelEnd: nat, lowerBorder: nat, free: set<nat>) returns (space: VirtualSpace, ok: bool)
    requires KERNEL <= kernelEnd <= lowerBorder <= WINDOW
    ensures ok && fresh(space) && space.Ok() && Extent(0, 0) !in space.extents
    ensures forall p {:trigger p in FreeOf(space.extents)} ::
              p in FreeOf(space.extents) <==>
              && KERNEL <= p < PAGES && !IsWindow(p)
              && !(p < kernelEnd) && !(p < lowerBorder && p !in free)
  {
    hide FreeOf, Valid;
    BootValid();
    space := new VirtualSpace(BootExtents());
    ok := space.Mark(KERNEL, kernelEnd, {});
    if ok {
      ok := space.Mark(kernelEnd, lowerBorder, free);
    }
  }

  lemma EmptyExtent(begin: nat)
    ensures PagesOf(Extent(0, begin)) == {}
  {
  }

  /** What booting starts from: the kernel's half of the address space around the table windows. */
  function BootExtents(): seq<Extent> {
    [Extent(PAGES - WINDOW_END, PAGE * WINDOW_END), Extent(WINDOW - KERNEL, PAGE * KERNEL)]
  }

  lemma BootValid()
    ensures Valid(BootExtents()) && Extent(0, 0) !in BootExtents()
    ensures FreeOf(BootExtents()) == set n: nat | KERNEL <= n < PAGES && !IsWindow(n)
  {
    var es := BootExtents();
    FreeOfTwo(es[0], es[1]);
    assert es == [es[0], es[1]];
  }
}
