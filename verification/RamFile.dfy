/**
  A file kept in memory pages: a vector of pages and a cursor, read and written as one flat
  sequence of bytes.
 */
module RamFile {
  import opened AddressSpace

  function Min(a: nat, b: nat): nat {
    if a < b then a else b
  }

  function Max(a: nat, b: nat): nat {
    if a < b then b else a
  }

  /** `content` with `data` laid over it from `pos` on; past the end it grows. */
  function Splice(content: seq<byte>, pos: nat, data: seq<byte>): seq<byte>
    requires pos <= |content|
  {
    content[..pos] + data + content[Min(pos + |data|, |content|)..]
  }

  lemma SpliceIndex(content: seq<byte>, pos: nat, data: seq<byte>)
    requires pos <= |content|
    ensures |Splice(content, pos, data)| == Max(|content|, pos + |data|)
    ensures forall k {:trigger Splice(content, pos, data)[k]} :: 0 <= k < Max(|content|, pos + |data|) ==>
              Splice(content, pos, data)[k] == if pos <= k < pos + |data| then data[k - pos] else content[k]
  {
  }

  ghost predicate PagesOk(ps: seq<array<byte>>) {
    && (forall i :: 0 <= i < |ps| ==> ps[i].Length == PAGE)
    && (forall i, j :: 0 <= i < j < |ps| ==> ps[i] != ps[j])
  }

  /** All bytes of the pages, one page after another. */
  ghost function Raw(ps: seq<array<byte>>): seq<byte>
    requires PagesOk(ps)
    reads ps
  {
    seq(PAGE * |ps|, k requires 0 <= k < PAGE * |ps| && PagesOk(ps) reads ps => ps[k / PAGE][k % PAGE])
  }

  /** `raw` extends `raw0` and differs from it only in holding `data` from `from` up to `to`. */
  ghost predicate Laid(raw0: seq<byte>, raw: seq<byte>, from: nat, to: nat, data: seq<byte>) {
    && |raw0| <= |raw| && from <= to <= |raw| && to - from <= |data|
    && (forall k :: from <= k < to ==> raw[k] == data[k - from])
    && (forall k :: 0 <= k < |raw0| && !(from <= k < to) ==> raw[k] == raw0[k])
  }

  /** Growing by a page and laying the next piece behind what is already laid. */
  lemma LaidNext(raw0: seq<byte>, raw1: seq<byte>, raw2: seq<byte>, raw3: seq<byte>, from: nat, to: nat,
                 data: seq<byte>, n: nat)
    requires Laid(raw0, raw1, from, to, data) && raw1 <= raw2 && to + n <= |raw2| && to - from + n <= |data|
    requires raw3 == Splice(raw2, to, data[to - from..to - from + n])
    ensures Laid(raw0, raw3, from, to + n, data)
  {
    hide Splice;
    SpliceIndex(raw2, to, data[to - from..to - from + n]);
  }

  lemma LaidFirst(raw0: seq<byte>, grown: seq<byte>, raw: seq<byte>, from: nat, data: seq<byte>, n: nat)
    requires raw0 <= grown && from + n <= |grown| && n <= |data|
    requires raw == Splice(grown, from, data[..n])
    ensures Laid(raw0, raw, from, from + n, data)
  {
    hide Splice;
    SpliceIndex(grown, from, data[..n]);
  }

  lemma LaidWithin(raw0: seq<byte>, raw: seq<byte>, from: nat, to: nat, data: seq<byte>)
    requires Laid(raw0, raw, from, to, data)
    ensures |raw0| <= |raw| && from <= to <= |raw|
  {
  }

  lemma WithinSize(raw0: seq<byte>, raw: seq<byte>, size: nat, from: nat, data: seq<byte>)
    requires raw0 <= raw && from + |data| <= size <= |raw0|
    requires forall k :: 0 <= k < |data| ==> data[k] == raw[from + k]
    ensures raw[..size] == raw0[..size]
    ensures data == raw[..size][from..from + |data|]
  {
  }

  lemma RawLength(ps: seq<array<byte>>)
    requires PagesOk(ps)
    ensures |Raw(ps)| == PAGE * |ps|
  {
  }

  lemma LaidContents(raw0: seq<byte>, raw: seq<byte>, from: nat, data: seq<byte>, size: nat)
    requires Laid(raw0, raw, from, from + |data|, data) && from <= size <= |raw0|
    ensures raw[..Max(size, from + |data|)] == Splice(raw0[..size], from, data)
  {
    hide Splice;
    SpliceIndex(raw0[..size], from, data);
  }

  /** The length of a read's first piece, as its 32-bit numbers come out. */
  function FirstPiece(position: nat, size: nat, count: nat): nat {
    var n := Min(count, PAGE - position % PAGE);
    if (position + n) % SPACE > size then (size - position) % SPACE else n
  }

  /** It stays within the page exactly if the cursor is not past the end of the file, or in the last
      page of the address space and there is no trimming to a wrong length. */
  lemma FirstPieceFits(position: nat, size: nat, count: nat)
    requires position < SPACE && size < SPACE
    ensures position % PAGE + FirstPiece(position, size, count) <= PAGE <==>
      position <= size
      || (SPACE - PAGE <= position && (size == 0 || PAGE <= position % PAGE + count))
  {
    var off := position % PAGE;
    var n := Min(count, PAGE - off);
    assert position == PAGE * (position / PAGE) + off;
    if size < position {
      assert (size - position) % SPACE == size - position + SPACE;
      if position < SPACE - PAGE {
        assert (position + n) % SPACE == position + n;
      }
    }
  }

  lemma FirstPieceTrimmed(position: nat, size: nat, count: nat)
    requires position <= size < SPACE - PAGE
    ensures FirstPiece(position, size, count) == Min(Min(count, PAGE - position % PAGE), size - position)
  {
    var n := Min(count, PAGE - position % PAGE);
    assert position == PAGE * (position / PAGE) + position % PAGE;
    assert (position + n) % SPACE == position + n;
  }

  class File {
    var pages: seq<array<byte>>
    var position: nat
    var size: nat

    ghost predicate Valid()
      reads this
    {
      PagesOk(pages) && size <= PAGE * |pages|
    }

    ghost function Contents(): seq<byte>
      requires Valid()
      reads this, pages
    {
      Raw(pages)[..size]
    }

    constructor ()
      ensures Valid() && Contents() == [] && position == 0 && pages == []
    {
      pages, position, size := [], 0, 0;
    }

    /** Make sure page i exists; a fresh page holds whatever it held before. */
    method EnsurePage(i: nat)
      requires PagesOk(pages) && i <= |pages|
      modifies this`pages
      ensures PagesOk(pages) && i < |pages|
      ensures pages == old(pages) || (pages == old(pages) + [pages[i]] && fresh(pages[i]))
      ensures old(Raw(pages)) <= Raw(pages)
    {
      if i >= |pages| {
        var page := new byte[PAGE];
        pages := pages + [page];
      }
    }

    /** Copy `data` into page i from `off` on. */
    method CopyIn(i: nat, off: nat, data: seq<byte>)
      requires PagesOk(pages) && i < |pages| && off + |data| <= PAGE
      modifies pages[i]
      ensures Raw(pages) == Splice(old(Raw(pages)), PAGE * i + off, data)
    {
      var page := pages[i];
      forall x | 0 <= x < |data| {
        page[off + x] := data[x];
      }
      ghost var raw0, raw := old(Raw(pages)), Raw(pages);
      forall k | 0 <= k < |raw|
        ensures raw[k] == if PAGE * i + off <= k < PAGE * i + off + |data| then data[k - (PAGE * i + off)] else raw0[k]
      {
        if k / PAGE != i {
          assert pages[k / PAGE] != page;
        }
      }
    }

    /** The n bytes of page i from `off` on. */
    method CopyOut(i: nat, off: nat, n: nat) returns (data: seq<byte>)
      requires PagesOk(pages) && i < |pages| && off + n <= PAGE
      ensures |data| == n && |Raw(pages)| == PAGE * |pages|
      ensures forall k :: 0 <= k < n ==> data[k] == Raw(pages)[PAGE * i + off + k]
    {
      data := pages[i][off..off + n];
      ghost var raw := Raw(pages);
      forall k | 0 <= k < n ensures data[k] == raw[PAGE * i + off + k] {
        assert (PAGE * i + off + k) / PAGE == i && (PAGE * i + off + k) % PAGE == off + k;
      }
    }

    /** Copy one piece into page i, which is appended first if it does not exist. */
    method Put(i: nat, off: nat, data: seq<byte>) returns (ghost grown: seq<byte>)
      requires PagesOk(pages) && i <= |pages| && off + |data| <= PAGE
      modifies this`pages, pages
      ensures PagesOk(pages) && i < |pages|
      ensures pages == old(pages) || (pages == old(pages) + [pages[i]] && fresh(pages[i]))
      ensures old(Raw(pages)) <= grown && |grown| == PAGE * |pages| && PAGE * i + off + |data| <= |grown|
      ensures Raw(pages) == Splice(grown, PAGE * i + off, data)
    {
      EnsurePage(i);
      grown := Raw(pages);
      CopyIn(i, off, data);
    }

    /** The pages of a write behind the first one: the last `left` bytes, from the start of page
        `first` on. */
    method WritePages(ghost raw0: seq<byte>, ghost start: nat, buffer: seq<byte>, left: nat, first: nat)
      requires PagesOk(pages) && left <= |buffer| && position == start + (|buffer| - left)
      requires left > 0 ==> position == PAGE * first && first <= |pages|
      requires Laid(raw0, Raw(pages), start, position, buffer)
      modifies this`pages, this`position, pages
      ensures PagesOk(pages) && position == start + |buffer|
      ensures old(pages) <= pages && forall j :: |old(pages)| <= j < |pages| ==> fresh(pages[j])
      ensures Laid(raw0, Raw(pages), start, position, buffer)
    {
      hide Raw, Laid, Splice;
      var pageIndex, rest := first, left;
      while rest > 0
        invariant 0 <= rest <= |buffer| && position == start + (|buffer| - rest)
        invariant rest > 0 ==> position == PAGE * pageIndex && pageIndex <= |pages|
        invariant PagesOk(pages)
        invariant old(pages) <= pages && forall j :: |old(pages)| <= j < |pages| ==> fresh(pages[j])
        invariant Laid(raw0, Raw(pages), start, position, buffer)
        decreases rest
      {
        ghost var raw1 := Raw(pages);
        var nextSize := if rest > PAGE then PAGE else rest;
        ghost var grown := Put(pageIndex, 0, buffer[|buffer| - rest..|buffer| - rest + nextSize]);
        LaidNext(raw0, raw1, grown, Raw(pages), start, position, buffer, nextSize);
        position := position + nextSize;
        rest := rest - nextSize;
        pageIndex := pageIndex + 1;
      }
    }

    /** The piece of a write that goes to the page of the cursor. */
    method WriteFirst(buffer: seq<byte>) returns (firstSize: nat)
      requires PagesOk(pages) && position / PAGE <= |pages|
      modifies this`pages, this`position, pages
      ensures PagesOk(pages) && firstSize <= |buffer| && position == old(position) + firstSize
      ensures firstSize < |buffer| ==>
        position == PAGE * (old(position) / PAGE + 1) && old(position) / PAGE + 1 <= |pages|
      ensures old(pages) <= pages && forall j :: |old(pages)| <= j < |pages| ==> fresh(pages[j])
      ensures Laid(old(Raw(pages)), Raw(pages), old(position), position, buffer)
    {
      hide Raw, Laid, Splice;
      ghost var raw0, start := Raw(pages), position;
      var pageIndex := position / PAGE;
      var firstOffset := position % PAGE;
      firstSize := PAGE - firstOffset;
      if |buffer| < firstSize {
        firstSize := |buffer|;
      }
      ghost var grown := Put(pageIndex, firstOffset, buffer[..firstSize]);
      LaidFirst(raw0, grown, Raw(pages), start, buffer, firstSize);
      position := position + firstSize;
    }

    /** Write at the cursor, which may stand anywhere up to the end of the last page. */
    method Write(buffer: seq<byte>) returns (count: nat)
      requires Valid() && position / PAGE <= |pages|
      modifies this, pages
      ensures Valid() && count == |buffer| && position == old(position) + |buffer|
      ensures size == Max(old(size), old(position) + |buffer|)
      ensures old(pages) <= pages && forall j :: |old(pages)| <= j < |pages| ==> fresh(pages[j])
      ensures Laid(old(Raw(pages)), Raw(pages), old(position), position, buffer)
      ensures old(position) <= old(size) ==> Contents() == Splice(old(Contents()), old(position), buffer)
    {
      hide Raw, Laid, Splice;
      ghost var raw0 := Raw(pages);
      var start := position;
      RawLength(pages);
      var firstSize := WriteFirst(buffer);
      WritePages(raw0, start, buffer, |buffer| - firstSize, start / PAGE + 1);
      LaidWithin(raw0, Raw(pages), start, position, buffer);
      RawLength(pages);
      if start <= size {
        LaidContents(raw0, Raw(pages), start, buffer, size);
      }
      if position > size {
        size := position;
      }
      count := |buffer|;
    }

    /** The pages of a read behind the first one. The cursor is at the start of page `first`. */
    method ReadPages(first: nat, count: nat) returns (data: seq<byte>)
      requires Valid() && position == PAGE * first < size && count > 0
      modifies this`position
      ensures |data| == Min(count, size - old(position)) && position == old(position) + |data|
      ensures |Raw(pages)| == PAGE * |pages| && forall k :: 0 <= k < |data| ==> data[k] == Raw(pages)[old(position) + k]
    {
      hide Raw;
      RawLength(pages);
      ghost var start, raw := position, Raw(pages);
      var pageIndex, left := first, count;
      data := [];
      while left > 0
        invariant 0 <= left <= count && |data| == count - left && position == start + |data| <= size
        invariant left > 0 ==> position == PAGE * pageIndex && position < size
        invariant forall k :: 0 <= k < |data| ==> data[k] == raw[start + k]
        decreases left
      {
        if pageIndex >= |pages| {
          assert false;
        }
        var nextSize := if left > PAGE then PAGE else left;
        if position + nextSize > size {
          nextSize := size - position;
        }
        var next := CopyOut(pageIndex, 0, nextSize);
        data := data + next;
        position := position + nextSize;
        left := left - nextSize;
        if position == size {
          break;
        }
        pageIndex := pageIndex + 1;
      }
    }

    /** The piece of a read that comes from the page of the cursor. */
    method ReadFirst(count: nat) returns (data: seq<byte>)
      requires Valid() && position <= size
      modifies this`pages, this`position
      ensures Valid() && old(Raw(pages)) <= Raw(pages) && |old(Raw(pages))| == PAGE * |old(pages)|
      ensures pages == old(pages) || (|pages| == |old(pages)| + 1 && old(pages) <= pages && fresh(pages[|old(pages)|]))
      ensures |data| <= count && position == old(position) + |data| <= size <= |Raw(pages)|
      ensures |data| == count || position == size || position == PAGE * (old(position) / PAGE + 1)
      ensures size < SPACE - PAGE ==> |data| == FirstPiece(old(position), size, count)
      ensures forall k :: 0 <= k < |data| ==> data[k] == Raw(pages)[old(position) + k]
    {
      hide Raw, FirstPiece;
      if size < SPACE - PAGE {
        FirstPieceTrimmed(position, size, count);
      }
      var pageIndex := position / PAGE;
      RawLength(pages);
      EnsurePage(pageIndex);
      RawLength(pages);
      var firstOffset := position % PAGE;
      var firstSize := PAGE - firstOffset;
      if count < firstSize {
        firstSize := count;
      }
      if position + firstSize > size {
        firstSize := size - position;
      }
      data := CopyOut(pageIndex, firstOffset, firstSize);
      position := position + firstSize;
    }

    /** Read at the cursor, which must not be past the end. */
    method Read(count: nat) returns (data: seq<byte>)
      requires Valid() && position <= size
      modifies this`pages, this`position
      ensures Valid() && size == old(size) && Contents() == old(Contents())
      ensures pages == old(pages) || (|pages| == |old(pages)| + 1 && old(pages) <= pages && fresh(pages[|old(pages)|]))
      ensures data == Contents()[old(position)..old(position) + Min(count, size - old(position))]
      ensures position == old(position) + |data|
    {
      hide Raw;
      ghost var raw0 := Raw(pages);
      var start := position;
      data := ReadFirst(count);
      if !(|data| == count || position == size) {
        var rest := ReadPages(start / PAGE + 1, count - |data|);
        data := data + rest;
      }
      WithinSize(raw0, Raw(pages), size, start, data);
    }

    method Open()
      modifies this`position
      ensures position == 0
    {
      position := 0;
    }

    method SeekBegin(offset: nat)
      modifies this`position
      ensures position == offset
    {
      position := offset;
    }
  }
}
