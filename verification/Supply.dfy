/**
  What an allocation takes. Every page needs a frame and every record a slot; when the slots run out,
  a node of the ledger takes a page and a frame of its own, and a slot for its own record.
 */
module Supply {

  /** Clear frames, free pages, and slots no record has been made for. */
  datatype Stock = Stock(frames: nat, pages: nat, room: nat)

  /** How many nodes are taken for k records, one after the other. */
  function Nodes(k: nat, room: nat, capacity: nat): nat
    requires capacity >= 2
  {
    if k == 0 then 0
    else if room == 0 then 1 + Nodes(k - 1, capacity - 2, capacity)
    else Nodes(k - 1, room - 1, capacity)
  }

  /** The slots left then. */
  function Rest(k: nat, room: nat, capacity: nat): nat
    requires capacity >= 2
  {
    if k == 0 then room
    else if room == 0 then Rest(k - 1, capacity - 2, capacity)
    else Rest(k - 1, room - 1, capacity)
  }

  /** A node holds its own record and capacity - 1 others: what is taken is the least number of nodes
      in which all k records find a slot. */
  lemma {:induction false} NodesLeast(k: nat, room: nat, capacity: nat)
    requires capacity >= 2
    ensures var m := Nodes(k, room, capacity);
      && k + Rest(k, room, capacity) == room + m * (capacity - 1)
      && (m > 0 ==> room + (m - 1) * (capacity - 1) < k)
  {
    if k > 0 {
      var room' := if room == 0 then capacity - 2 else room - 1;
      var m' := Nodes(k - 1, room', capacity);
      NodesLeast(k - 1, room', capacity);
      if room == 0 {
        assert (1 + m') * (capacity - 1) == (capacity - 1) + m' * (capacity - 1);
        assert m' > 0 ==> m' * (capacity - 1) == (m' - 1) * (capacity - 1) + (capacity - 1);
      }
    }
  }

  lemma {:induction false} NoNodes(k: nat, room: nat, capacity: nat)
    requires capacity >= 2 && k <= room
    ensures Nodes(k, room, capacity) == 0
  {
    if k > 0 {
      NoNodes(k - 1, room - 1, capacity);
    }
  }

  lemma {:induction false} NodesAdd(a: nat, b: nat, room: nat, capacity: nat)
    requires capacity >= 2
    ensures Nodes(a + b, room, capacity) == Nodes(a, room, capacity) + Nodes(b, Rest(a, room, capacity), capacity)
    ensures Rest(a + b, room, capacity) == Rest(b, Rest(a, room, capacity), capacity)
  {
    if a > 0 {
      NodesAdd(a - 1, b, if room == 0 then capacity - 2 else room - 1, capacity);
    }
  }

  /** Enough for f frames, v pages and k records. */
  predicate Suffices(s: Stock, f: nat, v: nat, k: nat, capacity: nat)
    requires capacity >= 2
  {
    f + Nodes(k, s.room, capacity) <= s.frames && v + Nodes(k, s.room, capacity) <= s.pages
  }

  function Used(s: Stock, f: nat, v: nat, k: nat, capacity: nat): Stock
    requires capacity >= 2 && Suffices(s, f, v, k, capacity)
  {
    Stock(s.frames - f - Nodes(k, s.room, capacity), s.pages - v - Nodes(k, s.room, capacity),
          Rest(k, s.room, capacity))
  }

  /** Enough for both is enough for one and then for the other. */
  lemma SufficesThen(s: Stock, f: nat, v: nat, k: nat, f': nat, v': nat, k': nat, capacity: nat)
    requires capacity >= 2
    ensures Suffices(s, f + f', v + v', k + k', capacity) <==>
      Suffices(s, f, v, k, capacity) && Suffices(Used(s, f, v, k, capacity), f', v', k', capacity)
    ensures Suffices(s, f + f', v + v', k + k', capacity) ==>
      Used(s, f + f', v + v', k + k', capacity) == Used(Used(s, f, v, k, capacity), f', v', k', capacity)
    ensures Nodes(k + k', s.room, capacity) == 0 ==>
      Nodes(k, s.room, capacity) == 0 && Nodes(k', Rest(k, s.room, capacity), capacity) == 0
  {
    NodesAdd(k, k', s.room, capacity);
  }

  lemma SufficesLess(s: Stock, f: nat, v: nat, k: nat, f': nat, v': nat, k': nat, capacity: nat)
    requires capacity >= 2 && Suffices(s, f', v', k', capacity) && f <= f' && v <= v' && k <= k'
    ensures Suffices(s, f, v, k, capacity)
  {
    SufficesThen(s, f, v, k, f' - f, v' - v, k' - k, capacity);
  }
}
