/**
  A process's descriptors on one shared ram file. The file has a single cursor; each call first
  moves it to the descriptor's own offset and afterwards records where it ended up. Seen from
  outside, every descriptor has an offset of its own.
 */
module Descriptors {
  import opened AddressSpace
  import opened RamFile

  const EBADF := 9
  const ENOERR := 0

  /** The file as its users see it. */
  datatype View = View(content: seq<byte>, offsets: map<int, nat>)

  datatype Call =
    | Open(fd: int)                       // the descriptor handed out
    | Close(fd: int)
    | Write(fd: int, data: seq<byte>)
    | Read(fd: int, count: nat)
    | SeekSet(fd: int, to: int)
    | SeekEnd(fd: int, back: int)
    | SeekCur(fd: int, delta: int)
    | Dup2(fd: int, copy: int)

  /** Every offset lies within the file. */
  predicate Bounded(v: View) {
    forall fd :: fd in v.offsets ==> v.offsets[fd] <= |v.content|
  }

  /** What a read of `count` bytes at descriptor fd returns. */
  function ReadAt(v: View, fd: int, count: nat): seq<byte>
    requires Bounded(v) && fd in v.offsets
  {
    v.content[v.offsets[fd]..v.offsets[fd] + Min(count, |v.content| - v.offsets[fd])]
  }

  predicate Allowed(v: View, c: Call) {
    match c
    case Open(fd) => fd !in v.offsets
    case SeekSet(fd, to) => fd in v.offsets ==> 0 <= to <= |v.content|
    case SeekEnd(fd, back) => fd in v.offsets ==> 0 <= back <= |v.content|
    case SeekCur(fd, delta) => fd in v.offsets ==> 0 <= v.offsets[fd] + delta <= |v.content|
    case Dup2(fd, copy) => fd != copy
    case _ => true
  }

  /** The effect of one call, with one offset per descriptor and no shared cursor. */
  function Step(v: View, c: Call): (v': View)
    requires Bounded(v) && Allowed(v, c)
    ensures Bounded(v') && |v.content| <= |v'.content|
  {
    match c
    case Open(fd) => v.(offsets := v.offsets[fd := 0])
    case Close(fd) => v.(offsets := v.offsets - {fd})
    case Write(fd, data) =>
      if fd !in v.offsets then v else
        View(Splice(v.content, v.offsets[fd], data), v.offsets[fd := v.offsets[fd] + |data|])
    case Read(fd, count) =>
      if fd !in v.offsets then v else v.(offsets := v.offsets[fd := v.offsets[fd] + |ReadAt(v, fd, count)|])
    case SeekSet(fd, to) => if fd !in v.offsets then v else v.(offsets := v.offsets[fd := to])
    case SeekEnd(fd, back) => if fd !in v.offsets then v else v.(offsets := v.offsets[fd := |v.content| - back])
    case SeekCur(fd, delta) => if fd !in v.offsets then v else v.(offsets := v.offsets[fd := v.offsets[fd] + delta])
    case Dup2(fd, copy) => if fd !in v.offsets then v else v.(offsets := v.offsets[copy := v.offsets[fd]])
  }

  /** The descriptor a call changes. */
  function Target(c: Call): int {
    match c
    case Open(fd) => fd
    case Close(fd) => fd
    case Write(fd, _) => fd
    case Read(fd, _) => fd
    case SeekSet(fd, _) => fd
    case SeekEnd(fd, _) => fd
    case SeekCur(fd, _) => fd
    case Dup2(_, copy) => copy
  }

  // ---------------------------------------------------------------- with the shared cursor

  datatype State = State(view: View, cursor: nat)

  /** Calls after which the cursor is where their descriptor is. */
  predicate Moves(v: View, c: Call) {
    c.Open? || ((c.Write? || c.Read? || c.SeekSet? || c.SeekEnd? || c.SeekCur?) && Target(c) in v.offsets)
  }

  predicate Can(s: State, c: Call) {
    && Bounded(s.view)
    && if c.SeekCur? then c.fd in s.view.offsets ==> 0 <= s.cursor + c.delta <= |s.view.content| else Allowed(s.view, c)
  }

  /** What a call really does. Only a seek relative to the current position looks at the cursor left
      by the call before. */
  function Act(s: State, c: Call): (s': State)
    requires Can(s, c)
    ensures Bounded(s'.view)
  {
    if !Moves(s.view, c) then s.(view := if c.SeekCur? then s.view else Step(s.view, c))
    else if c.SeekCur? then State(s.view.(offsets := s.view.offsets[c.fd := s.cursor + c.delta]), s.cursor + c.delta)
    else State(Step(s.view, c), Step(s.view, c).offsets[Target(c)])
  }

  /** Where a seek leads, relative to the cursor if it is relative to a position. */
  function Goal(s: State, c: Call): int
    requires c.SeekSet? || c.SeekEnd? || c.SeekCur?
  {
    match c
    case SeekSet(_, to) => to
    case SeekEnd(_, back) => |s.view.content| - back
    case SeekCur(_, delta) => s.cursor + delta
  }

  lemma SeekActs(s: State, c: Call)
    requires Bounded(s.view) && (c.SeekSet? || c.SeekEnd? || c.SeekCur?)
    ensures c.fd in s.view.offsets ==> (Can(s, c) <==> 0 <= Goal(s, c) <= |s.view.content|)
    ensures Can(s, c) ==>
      Act(s, c) ==
        if c.fd in s.view.offsets then State(s.view.(offsets := s.view.offsets[c.fd := Goal(s, c)]), Goal(s, c)) else s
  {
  }

  lemma CurStep(v: View, fd: int, delta: int, r: nat)
    requires Bounded(v) && fd in v.offsets && Allowed(v, SeekCur(fd, delta))
    ensures v.(offsets := v.offsets[fd := r]) == Step(v, SeekCur(fd, delta)) <==> r == v.offsets[fd] + delta
  {
    var o := v.offsets;
    assert o[fd := r][fd] == r && o[fd := o[fd] + delta][fd] == o[fd] + delta;
  }

  class Table {
    const file: File
    var offsets: map<int, nat>
    var lastFd: int
    var errno: int

    ghost predicate Valid()
      reads this, file, file.pages
    {
      file.Valid() && Bounded(Seen())
    }

    ghost function Seen(): View
      requires file.Valid()
      reads this, file, file.pages
    {
      View(file.Contents(), offsets)
    }

    ghost function Whole(): State
      requires file.Valid()
      reads this, file, file.pages
    {
      State(Seen(), file.position)
    }

    constructor (file: File)
      requires file.Valid()
      ensures Valid() && this.file == file && Whole() == State(View(file.Contents(), map[]), file.position)
    {
      this.file := file;
      offsets, lastFd, errno := map[], 0, ENOERR;
    }

    /** The next free descriptor number at or after the last one handed out. */
    method AllocateFd() returns (fd: int)
      modifies this`lastFd
      ensures old(lastFd) <= fd && fd !in offsets && lastFd == fd + 1
      ensures forall n :: old(lastFd) <= n < fd ==> n in offsets
    {
      ghost var ahead := set n | n in offsets && n >= lastFd;
      while lastFd in offsets
        invariant old(lastFd) <= lastFd
        invariant forall n :: old(lastFd) <= n < lastFd ==> n in offsets
        invariant ahead == set n | n in offsets && n >= lastFd
        decreases ahead
      {
        ahead := ahead - {lastFd};
        lastFd := lastFd + 1;
      }
      fd := lastFd;
      lastFd := lastFd + 1;
    }

    method OpenFile() returns (fd: int)
      requires Valid()
      modifies this`lastFd, this`offsets, file`position
      ensures Valid() && fd !in old(offsets) && fd in offsets && Whole() == Act(old(Whole()), Open(fd))
      ensures offsets == old(offsets)[fd := 0] && file.position == 0 && file.Contents() == old(file.Contents())
    {
      file.Open();
      fd := AllocateFd();
      offsets := offsets[fd := 0];
    }

    method CloseFd(fd: int) returns (r: int)
      requires Valid()
      modifies this`offsets, this`errno
      ensures Valid() && Whole() == Act(old(Whole()), Close(fd))
      ensures offsets == old(offsets) - {fd}
      ensures if fd in old(offsets) then r == 0 && errno == old(errno) else r == -1 && errno == EBADF
    {
      if fd !in offsets {
        errno := EBADF;
        return -1;
      }
      offsets := offsets - {fd};
      return 0;
    }

    method WriteFd(fd: int, data: seq<byte>) returns (r: int)
      requires Valid()
      modifies this`offsets, this`errno, file, file.pages
      ensures Valid() && Whole() == Act(old(Whole()), Write(fd, data))
      ensures fd in old(offsets) ==> var o, was, now := old(offsets)[fd], old(file.Contents()), file.Contents();
        && offsets == old(offsets)[fd := o + |data|] && file.position == o + |data|
        && |now| == Max(|was|, o + |data|) && now[o..o + |data|] == data
        && forall k :: 0 <= k < |was| && !(o <= k < o + |data|) ==> now[k] == was[k]
      ensures if fd in old(offsets) then r == |data| && errno == old(errno) else r == -1 && errno == EBADF
    {
      hide Raw, Laid;
      if fd !in offsets {
        errno := EBADF;
        return -1;
      }
      RawLength(file.pages);
      file.SeekBegin(offsets[fd]);
      r := file.Write(data);
      RawLength(file.pages);
      offsets := offsets[fd := file.position];
    }

    method ReadFd(fd: int, count: nat) returns (r: int, data: seq<byte>)
      requires Valid()
      modifies this`offsets, this`errno, file`position, file`pages
      ensures Valid() && Whole() == Act(old(Whole()), Read(fd, count))
      ensures fd in old(offsets) ==> var o := old(offsets)[fd];
        && |data| == Min(count, file.size - o) && data == file.Contents()[o..o + |data|]
        && offsets == old(offsets)[fd := o + |data|] && file.position == o + |data|
      ensures if fd in old(offsets) then r == |data| && data == ReadAt(old(Seen()), fd, count) && errno == old(errno)
              else r == -1 && data == [] && errno == EBADF
    {
      hide Raw, Laid;
      if fd !in offsets {
        errno := EBADF;
        return -1, [];
      }
      RawLength(file.pages);
      file.SeekBegin(offsets[fd]);
      data := file.Read(count);
      r := |data|;
      RawLength(file.pages);
      offsets := offsets[fd := file.position];
    }

    /** lseek from the start or, backwards, from the end. */
    method Lseek(fd: int, offset: int, fromEnd: bool) returns (r: int)
      requires Valid() && file.size < SPACE
      modifies this`offsets, this`errno, file`position
      ensures file.Valid() && file.Contents() == old(file.Contents())
      ensures var c := if fromEnd then SeekEnd(fd, offset) else SeekSet(fd, offset);
        Allowed(old(Seen()), c) ==> Valid() && Whole() == Act(old(Whole()), c)
      ensures fd !in old(offsets) ==> r == -1 && errno == EBADF
      ensures fd in old(offsets) ==>
        && errno == old(errno) && r == (if fromEnd then file.size - offset else offset) % SPACE
        && offsets == old(offsets)[fd := r]
    {
      hide Raw, Act, Step;
      ghost var s := Whole();
      SeekActs(s, if fromEnd then SeekEnd(fd, offset) else SeekSet(fd, offset));
      if fd !in offsets {
        errno := EBADF;
        return -1;
      }
      RawLength(file.pages);
      if fromEnd {
        file.SeekBegin((file.size - offset) % SPACE);
      } else {
        file.SeekBegin(offset % SPACE);
      }
      r := file.position;
      offsets := offsets[fd := file.position];
    }

    /** lseek relative to the current position: relative to the shared cursor, not to the
        descriptor's own offset. */
    method LseekCurrent(fd: int, delta: int) returns (r: int)
      requires Valid() && file.size < SPACE && file.position < SPACE
      modifies this`offsets, this`errno, file`position
      ensures file.Valid() && file.Contents() == old(file.Contents())
      ensures Can(old(Whole()), SeekCur(fd, delta)) ==> Valid() && Whole() == Act(old(Whole()), SeekCur(fd, delta))
      ensures Allowed(old(Seen()), SeekCur(fd, delta)) && fd in old(offsets) ==>
                (Seen() == Step(old(Seen()), SeekCur(fd, delta)) <==> old(file.position) == old(offsets)[fd])
      ensures if fd !in old(offsets) then r == -1 && errno == EBADF
              else errno == old(errno) && r == (old(file.position) + delta) % SPACE && offsets == old(offsets)[fd := r]
    {
      hide Raw, Act, Step;
      ghost var s := Whole();
      SeekActs(s, SeekCur(fd, delta));
      if fd !in offsets {
        errno := EBADF;
        return -1;
      }
      RawLength(file.pages);
      file.SeekBegin((file.position + delta) % SPACE);
      r := file.position;
      SameModulo(s.cursor, offsets[fd], delta);
      if Allowed(s.view, SeekCur(fd, delta)) {
        CurStep(s.view, fd, delta, r);
      }
      offsets := offsets[fd := r];
    }

    /** dup2 copies the offset; the copy then moves on its own. */
    method Duplicate(fd: int, copy: int) returns (r: int)
      requires Valid() && fd != copy
      modifies this`offsets, this`errno
      ensures Valid() && Whole() == Act(old(Whole()), Dup2(fd, copy))
      ensures fd in old(offsets) ==> offsets == old(offsets)[copy := old(offsets)[fd]]
      ensures if fd in old(offsets) then r == copy && errno == old(errno) else r == -1 && errno == EBADF
    {
      if fd !in offsets {
        errno := EBADF;
        return -1;
      }
      if copy in offsets {
        offsets := offsets - {copy};
      }
      offsets := offsets[copy := offsets[fd]];
      r := copy;
    }
  }

  lemma SameModulo(a: nat, b: nat, delta: int)
    requires a < SPACE && 0 <= b
    ensures 0 <= b + delta < SPACE && b < SPACE ==> ((a + delta) % SPACE == b + delta <==> a == b)
  {
  }

  // ---------------------------------------------------------------- runs

  ghost predicate Legal(v: View, calls: seq<Call>)
    requires Bounded(v)
    decreases calls
  {
    calls == [] || (Allowed(v, calls[0]) && Legal(Step(v, calls[0]), calls[1..]))
  }

  /** Any interleaving of calls, on any descriptors. */
  ghost function Run(v: View, calls: seq<Call>): (v': View)
    requires Bounded(v) && Legal(v, calls)
    ensures Bounded(v') && |v.content| <= |v'.content|
    decreases calls
  {
    if calls == [] then v else Run(Step(v, calls[0]), calls[1..])
  }

  /** However many calls on other descriptors come in between, a descriptor's offset stays, and if
      none of them writes, so does what it reads next. */
  lemma {:induction false} OthersDoNotDisturb(v: View, calls: seq<Call>, fd: int, count: nat)
    requires Bounded(v) && Legal(v, calls) && fd in v.offsets
    requires forall c :: c in calls ==> Target(c) != fd
    ensures fd in Run(v, calls).offsets && Run(v, calls).offsets[fd] == v.offsets[fd]
    ensures (forall c :: c in calls ==> !c.Write?) ==>
      Run(v, calls).content == v.content && ReadAt(Run(v, calls), fd, count) == ReadAt(v, fd, count)
    decreases calls
  {
    if calls != [] {
      assert calls[0] in calls;
      OthersDoNotDisturb(Step(v, calls[0]), calls[1..], fd, count);
    }
  }

  function Joined(chunks: seq<seq<byte>>): seq<byte> {
    if chunks == [] then [] else chunks[0] + Joined(chunks[1..])
  }

  function Writes(fd: int, chunks: seq<seq<byte>>): seq<Call> {
    seq(|chunks|, i requires 0 <= i < |chunks| => Write(fd, chunks[i]))
  }

  lemma SpliceTwice(content: seq<byte>, pos: nat, a: seq<byte>, b: seq<byte>)
    requires pos <= |content|
    ensures Splice(Splice(content, pos, a), pos + |a|, b) == Splice(content, pos, a + b)
  {
  }

  lemma WriteNothing(v: View, fd: int)
    requires Bounded(v) && fd in v.offsets
    ensures Step(v, Write(fd, [])) == v
  {
    assert Splice(v.content, v.offsets[fd], []) == v.content;
    assert v.offsets[fd := v.offsets[fd]] == v.offsets;
  }

  lemma WriteTwice(v: View, fd: int, a: seq<byte>, b: seq<byte>)
    requires Bounded(v) && fd in v.offsets
    ensures fd in Step(v, Write(fd, a)).offsets
    ensures Step(Step(v, Write(fd, a)), Write(fd, b)) == Step(v, Write(fd, a + b))
  {
    hide Splice;
    SpliceTwice(v.content, v.offsets[fd], a, b);
  }

  /** Writing in chunks is writing all of it at once. */
  lemma {:induction false} WriteInChunks(v: View, fd: int, chunks: seq<seq<byte>>)
    requires Bounded(v) && fd in v.offsets
    ensures Legal(v, Writes(fd, chunks))
    ensures Run(v, Writes(fd, chunks)) == Step(v, Write(fd, Joined(chunks)))
    decreases chunks
  {
    hide Step, Bounded;
    if chunks == [] {
      WriteNothing(v, fd);
    } else {
      assert Writes(fd, chunks)[1..] == Writes(fd, chunks[1..]);
      WriteTwice(v, fd, chunks[0], Joined(chunks[1..]));
      WriteInChunks(Step(v, Write(fd, chunks[0])), fd, chunks[1..]);
    }
  }

  /** The bytes a series of reads returns, one after another. */
  function ReadAll(v: View, fd: int, counts: seq<nat>): seq<byte>
    requires Bounded(v) && fd in v.offsets
    decreases counts
  {
    if counts == [] then [] else ReadAt(v, fd, counts[0]) + ReadAll(Step(v, Read(fd, counts[0])), fd, counts[1..])
  }

  function Sum(counts: seq<nat>): nat {
    if counts == [] then 0 else counts[0] + Sum(counts[1..])
  }

  lemma ReadNothing(v: View, fd: int)
    requires Bounded(v) && fd in v.offsets
    ensures ReadAt(v, fd, 0) == []
  {
  }

  lemma StepRead(v: View, fd: int, count: nat)
    requires Bounded(v) && fd in v.offsets
    ensures fd in Step(v, Read(fd, count)).offsets
  {
  }

  /** A read of n bytes after one of m returns what follows. */
  lemma ReadTwice(v: View, fd: int, m: nat, n: nat)
    requires Bounded(v) && fd in v.offsets
    ensures ReadAt(v, fd, m) + ReadAt(Step(v, Read(fd, m)), fd, n) == ReadAt(v, fd, m + n)
  {
    var from := v.offsets[fd];
    var mid := from + |ReadAt(v, fd, m)|;
    assert Step(v, Read(fd, m)).offsets[fd] == mid && Step(v, Read(fd, m)).content == v.content;
    assert v.content[from..mid] + v.content[mid..mid + Min(n, |v.content| - mid)] == v.content[from..mid + Min(n,
        |v.content| - mid)];
  }

  /** Reading in pieces is reading all of it at once. */
  lemma {:induction false} ReadInPieces(v: View, fd: int, counts: seq<nat>)
    requires Bounded(v) && fd in v.offsets
    ensures ReadAll(v, fd, counts) == ReadAt(v, fd, Sum(counts))
    decreases counts
  {
    hide ReadAt, Step;
    if counts == [] {
      assert ReadAt(v, fd, 0) == [] by { ReadNothing(v, fd); }
    } else {
      StepRead(v, fd, counts[0]);
      ReadTwice(v, fd, counts[0], Sum(counts[1..]));
      ReadInPieces(Step(v, Read(fd, counts[0])), fd, counts[1..]);
    }
  }

  lemma ReadJustWritten(v: View, fd: int, data: seq<byte>, n: nat)
    requires Bounded(v) && fd in v.offsets && n <= |data|
    ensures var v1 := Step(v, Write(fd, data));
      fd in v1.offsets && Allowed(v1, SeekSet(fd, v.offsets[fd]))
      && fd in Step(v1, SeekSet(fd, v.offsets[fd])).offsets
      && ReadAt(Step(v1, SeekSet(fd, v.offsets[fd])), fd, n) == data[..n]
  {
    hide Splice;
    SpliceIndex(v.content, v.offsets[fd], data);
  }

  /** Whatever is written in whatever chunks reads back, in whatever pieces, through a descriptor
      moved back to where the write began. */
  lemma ReadBack(v: View, fd: int, chunks: seq<seq<byte>>, counts: seq<nat>)
    requires Bounded(v) && fd in v.offsets && Sum(counts) <= |Joined(chunks)|
    ensures Legal(v, Writes(fd, chunks))
    ensures var v1 := Run(v, Writes(fd, chunks));
      fd in v1.offsets && Allowed(v1, SeekSet(fd, v.offsets[fd]))
      && fd in Step(v1, SeekSet(fd, v.offsets[fd])).offsets
      && ReadAll(Step(v1, SeekSet(fd, v.offsets[fd])), fd, counts) == Joined(chunks)[..Sum(counts)]
  {
    hide Run, Legal, Writes, ReadAll, Step, ReadAt, Bounded;
    WriteInChunks(v, fd, chunks);
    ReadJustWritten(v, fd, Joined(chunks), Sum(counts));
    ReadInPieces(Step(Step(v, Write(fd, Joined(chunks))), SeekSet(fd, v.offsets[fd])), fd, counts);
  }

  /** Whatever was called before, a descriptor just opened reads the file from its beginning, in
      whatever pieces. */
  lemma OpenThenRead(v: View, calls: seq<Call>, fd: int, counts: seq<nat>)
    requires Bounded(v) && Legal(v, calls) && Allowed(Run(v, calls), Open(fd))
    ensures var v1 := Run(v, calls);
      && fd in Step(v1, Open(fd)).offsets
      && ReadAll(Step(v1, Open(fd)), fd, counts) == v1.content[..Min(Sum(counts), |v1.content|)]
  {
    hide Run, Legal, ReadAll;
    ReadInPieces(Step(Run(v, calls), Open(fd)), fd, counts);
  }

  /** A copy reads what the original would, and moving it leaves the original where it is. */
  lemma CopyReadsSame(v: View, fd: int, copy: int, calls: seq<Call>, counts: seq<nat>)
    requires Bounded(v) && fd in v.offsets && fd != copy
    ensures var v1 := Step(v, Dup2(fd, copy));
      && copy in v1.offsets && fd in v1.offsets && ReadAll(v1, copy, counts) == ReadAll(v, fd, counts)
      && (Legal(v1, calls) && (forall c :: c in calls ==> Target(c) != fd) ==>
            fd in Run(v1, calls).offsets && Run(v1, calls).offsets[fd] == v.offsets[fd])
  {
    hide Run, Legal, ReadAll;
    var v1 := Step(v, Dup2(fd, copy));
    ReadInPieces(v, fd, counts);
    ReadInPieces(v1, copy, counts);
    if Legal(v1, calls) && (forall c :: c in calls ==> Target(c) != fd) {
      OthersDoNotDisturb(v1, calls, fd, 0);
    }
  }

  /** A closed descriptor is gone until its number is handed out again. */
  lemma {:induction false} ClosedStays(v: View, fd: int, calls: seq<Call>)
    requires Bounded(v) && Legal(Step(v, Close(fd)), calls)
    requires forall c :: c in calls ==> Target(c) != fd
    ensures fd !in Run(Step(v, Close(fd)), calls).offsets
    ensures forall d :: d in v.offsets && d != fd ==> d in Step(v, Close(fd)).offsets
  {
    StaysClosed(Step(v, Close(fd)), fd, calls);
  }

  lemma {:induction false} StaysClosed(v: View, fd: int, calls: seq<Call>)
    requires Bounded(v) && Legal(v, calls) && fd !in v.offsets
    requires forall c :: c in calls ==> Target(c) != fd
    ensures fd !in Run(v, calls).offsets
    decreases calls
  {
    if calls != [] {
      assert calls[0] in calls;
      StaysClosed(Step(v, calls[0]), fd, calls[1..]);
    }
  }

  // ---------------------------------------------------------------- seeking relative to the current position

  ghost predicate Possible(s: State, calls: seq<Call>)
    decreases calls
  {
    calls == [] || (Can(s, calls[0]) && Possible(Act(s, calls[0]), calls[1..]))
  }

  /** What any run of calls really does. */
  ghost function Acts(s: State, calls: seq<Call>): (s': State)
    requires Possible(s, calls) && Bounded(s.view)
    ensures Bounded(s'.view)
    decreases calls
  {
    if calls == [] then s else Acts(Act(s, calls[0]), calls[1..])
  }

  /** No call of the run moves the cursor when its turn comes. */
  ghost predicate Still(s: State, calls: seq<Call>)
    requires Possible(s, calls)
    decreases calls
  {
    calls == [] || (!Moves(s.view, calls[0]) && Still(Act(s, calls[0]), calls[1..]))
  }

  lemma {:induction false} StillCursor(s: State, calls: seq<Call>, m: int)
    requires Possible(s, calls) && Bounded(s.view) && Still(s, calls)
    ensures Acts(s, calls).cursor == s.cursor
    ensures m in s.view.offsets && (forall c :: c in calls ==> Target(c) != m) ==>
              m in Acts(s, calls).view.offsets && Acts(s, calls).view.offsets[m] == s.view.offsets[m]
    decreases calls
  {
    if calls != [] {
      assert calls[0] in calls;
      StillCursor(Act(s, calls[0]), calls[1..], m);
    }
  }

  /** The seek is possible, and what it really does is what it should do. */
  ghost predicate Right(s: State, fd: int, delta: int)
    requires Bounded(s.view) && Allowed(s.view, SeekCur(fd, delta))
  {
    Can(s, SeekCur(fd, delta)) && Act(s, SeekCur(fd, delta)).view == Step(s.view, SeekCur(fd, delta))
  }

  lemma RightAtCursor(s: State, fd: int, delta: int)
    requires Bounded(s.view) && fd in s.view.offsets && Allowed(s.view, SeekCur(fd, delta))
    ensures Right(s, fd, delta) <==> s.cursor == s.view.offsets[fd]
  {
    SeekActs(s, SeekCur(fd, delta));
    if 0 <= s.cursor + delta <= |s.view.content| {
      CurStep(s.view, fd, delta, s.cursor + delta);
    }
  }

  /** A seek by a descriptor relative to its position does what it should exactly when the
      descriptor stands where the last call that moved the cursor ended, whichever descriptor that
      call was on. If that one is unchanged since, this is to stand at the same offset. */
  lemma SeekCurExact(s: State, c: Call, rest: seq<Call>, fd: int, delta: int)
    requires Bounded(s.view) && Can(s, c) && Moves(s.view, c) && Possible(Act(s, c), rest) && Still(Act(s, c), rest)
    requires var s' := Acts(Act(s, c), rest); fd in s'.view.offsets && Allowed(s'.view, SeekCur(fd, delta))
    ensures Target(c) in Act(s, c).view.offsets
    ensures var s' := Acts(Act(s, c), rest);
      Right(s', fd, delta) <==> s'.view.offsets[fd] == Act(s, c).view.offsets[Target(c)]
    ensures (forall d :: d in rest ==> Target(d) != Target(c)) ==>
      var s' := Acts(Act(s, c), rest);
      && Target(c) in s'.view.offsets
      && (Right(s', fd, delta) <==> s'.view.offsets[fd] == s'.view.offsets[Target(c)])
  {
    hide Acts, Possible, Still, Right;
    StillCursor(Act(s, c), rest, Target(c));
    RightAtCursor(Acts(Act(s, c), rest), fd, delta);
  }

  /** Every seek relative to the current position comes when the cursor is at its own descriptor. */
  ghost predicate AllRight(s: State, calls: seq<Call>)
    requires Possible(s, calls) && Bounded(s.view)
    decreases calls
  {
    calls == [] || (
      && (calls[0].SeekCur? && calls[0].fd in s.view.offsets ==> s.cursor == s.view.offsets[calls[0].fd])
      && AllRight(Act(s, calls[0]), calls[1..]))
  }

  lemma RightAct(s: State, c: Call)
    requires Can(s, c) && (c.SeekCur? && c.fd in s.view.offsets ==> s.cursor == s.view.offsets[c.fd])
    ensures Allowed(s.view, c) && Act(s, c).view == Step(s.view, c)
  {
  }

  /** Runs of which this is true, and so all runs without such seeks, are runs of descriptors with
      offsets of their own. */
  lemma {:induction false} RunsAgree(s: State, calls: seq<Call>)
    requires Possible(s, calls) && Bounded(s.view) && AllRight(s, calls)
    ensures Legal(s.view, calls) && Acts(s, calls).view == Run(s.view, calls)
    decreases calls
  {
    hide Act, Step, Can, Bounded, Allowed;
    if calls != [] {
      RightAct(s, calls[0]);
      RunsAgree(Act(s, calls[0]), calls[1..]);
    }
  }

  lemma OneWrites(s: State, a: int, b: int, x: byte)
    requires s.view == View([], map[]) && a != b
    ensures Can(s, Open(a)) && Can(Act(s, Open(a)), Open(b)) && Can(Act(Act(s, Open(a)), Open(b)), Write(a, [x]))
    ensures Act(Act(Act(s, Open(a)), Open(b)), Write(a, [x])) == State(View([x], map[a := 1, b := 0]), 1)
  {
  }

  /** Two descriptors on a file into which a byte was written through the first. */
  method OneWritten() returns (t: Table, first: int, second: int)
    ensures fresh(t) && fresh(t.file) && t.Valid() && t.Whole() == State(View([7], map[first := 1, second := 0]), 1)
  {
    hide Raw, Laid, Act, Step;
    var file := new File();
    t := new Table(file);
    ghost var s := t.Whole();
    first := t.OpenFile();
    second := t.OpenFile();
    OneWrites(s, first, second, 7);
    var n := t.WriteFd(first, [7]);
  }

  /** The second, still at offset 0, seeks by 0 and ends up at 1. */
  method SeekCurrentFails() returns (own: int, r: int)
    ensures own == 0 && r == 1
  {
    hide Raw, Laid, Act, Step;
    var t, first, second := OneWritten();
    assert t.Seen().offsets == map[first := 1, second := 0];
    own := t.offsets[second];
    RawLength(t.file.pages);
    assert t.file.size == |t.file.Contents()|;
    r := t.LseekCurrent(second, 0);
  }
}
