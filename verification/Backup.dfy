/** The online backup: a cursor copies source pages while a writer changes them
    behind it. Every method does exactly what the state machine says. */
module Backup {
  import opened Varint
  import opened BackupPages
  import opened BackupView

  /** The schema cookie of a file. */
  function Cookie(pages: Pages, n: nat): nat
    requires n > 0
  {
    At(pages, n, 40) * 0x1000000 + At(pages, n, 41) * 0x10000 + At(pages, n, 42) * 0x100 + At(pages, n, 43)
  }

  class BackupState {
    const S: nat
    const D: nat
    const memdb: bool
    const wal: bool
    var src: seq<Page>
    var dest: Pages
    var iNext: nat
    var rc: Rc
    var bDestLocked: bool
    var isAttached: bool
    /** Schema cookie of the destination, plus what the last step reported. */
    var iDestSchema: nat
    var nPagecount: nat
    var nRemaining: int
    /** Length of the destination file. */
    var size: nat

    ghost predicate Sizes() {
      S > 0 && D > 0 && PageSize(S) && PageSize(D)
    }

    ghost function Files(): Files
      requires Sizes()
    {
      Form(S, D, memdb, wal)
    }

    ghost function Now(): View
      reads this
    {
      View(src, dest, iNext, rc, bDestLocked, isAttached, size)
    }

    ghost predicate Valid()
      reads this
    {
      Sizes() && Good(Files(), Now())
    }

    /** A backup of `src` over the destination `dest`, not yet begun. */
    constructor (src: seq<Page>, S: nat, dest: Pages, D: nat, memdb: bool, wal: bool)
      requires S > 0 && D > 0 && PageSize(S) && PageSize(D) && Sized(dest, D) && forall i :: 0 <= i < |src| ==> |src[i]| == S
      ensures Valid() && Now() == View(src, dest, 1, Ok, false, false, 0) && Files() == Form(S, D, memdb, wal)
    {
      this.src, this.S, this.dest, this.D, this.memdb, this.wal := src, S, dest, D, memdb, wal;
      iNext, rc, bDestLocked, isAttached, iDestSchema, nPagecount, nRemaining, size := 1, Ok, false, false, 0, 0, 0, 0;
    }

    /** A backup in any state. */
    constructor Resumed(f: Files, v: View)
      requires Good(f, v)
      ensures Valid() && Now() == v && Files() == f
    {
      S, D, memdb, wal := f.s, f.d, f.memdb, f.wal;
      src, dest, iNext, rc, bDestLocked, isAttached, size := v.src, v.dest, v.iNext, v.rc, v.bDestLocked, v.isAttached, v.size;
      iDestSchema, nPagecount, nRemaining := 0, 0, 0;
    }

    /** Copies what one destination page takes of a source page. */
    method OneChunk(off: nat, piece: seq<Byte>, write: nat -> IoRc) returns (result: Rc)
      requires Valid() && InPage(off, D) + |piece| <= D
      modifies `dest
      ensures Valid()
      ensures result == if PageNo(off, D) == LockPage(D) then Ok else write(PageNo(off, D))
      ensures dest == if result == Ok && PageNo(off, D) != LockPage(D) then Patch(old(dest), D, PageNo(off, D), InPage(off, D), piece) else old(dest)
    {
      result := Ok;
      var iDest := PageNo(off, D);
      if iDest != LockPage(D) {
        result := write(iDest);
        if result == Ok {
          dest := Patch(dest, D, iDest, InPage(off, D), piece);
        }
      }
    }

    /** Copies one source page over the destination pages it spans, up to the
        first one that cannot be written. */
    method OnePage(pg: nat, data: Page, write: nat -> IoRc) returns (result: Rc)
      requires Valid() && !Fatal(rc) && bDestLocked && pg >= 1 && pg != LockPage(S) && |data| == S
      modifies `dest
      ensures Valid() && result == WriteResult(Files(), write, pg) && result != Done
      ensures Copied(old(dest), dest, D, data, PageStart(pg, S), WriteEnd(Files(), write, pg))
    {
      hide Copied, At, Patch, InLockPage, LockPage, PageNo, InPage, PageStart, Sized, PageSize, Blocked, Free;
      var nCopy := if S < D then S else D;
      result := if S != D && memdb then Readonly else Ok;
      var base := PageStart(pg, S);
      var off, end := base, base + S;
      ghost var hi: nat := base;
      Start(dest, D, data, base, write);
      if S > D { Aligned(S, D, pg); }
      while result == Ok && off < end
        invariant Valid() && base <= off && base <= hi <= end && (result == Ok ==> hi == if off < end then off else end)
        invariant off < end ==> if S > D then InPage(off, D) == 0 else off == base
        invariant Copied(old(dest), dest, D, data, base, hi) && Free(write, D, base, hi)
        invariant if Copyable(Files()) then result == Ok || (hi < end && Blocked(write, D, hi) && result == write(PageNo(hi, D)))
                  else result == Readonly && hi == base
        decreases end - off, result == Ok
      {
        Chunk(S, D, pg, off);
        ChunkCopied(old(dest), dest, D, data, base, off, nCopy);
        ChunkBlocked(write, D, base, off, nCopy);
        result := OneChunk(off, data[InPage(off, S)..InPage(off, S) + nCopy], write);
        if result == Ok {
          hi := off + nCopy;
          off := off + D;
        }
      }
      FirstBlockedIs(write, D, base, end, hi);
    }

    /** Copies the page at the cursor; the cursor moves on even on failure. */
    method CopyNext(io: Io) returns (result: Rc)
      requires Valid() && !Fatal(rc) && bDestLocked && iNext <= |src|
      modifies `dest, `iNext
      ensures Valid() && iNext == old(iNext) + 1 && result == PageResult(Files(), io, old(iNext)) && result != Done
      ensures CopiedFrom(Files(), src, old(dest), dest, PageStart(old(iNext), S), CopyEnd(Files(), io, old(iNext)))
    {
      hide Copied, CopiedFrom, At, InLockPage, LockPage, PageStart, Sized, PageSize, WriteEnd, WriteResult;
      result := Ok;
      var pg := iNext;
      CopiedNothing(Files(), src, dest, pg);
      if pg != LockPage(S) {
        result := io.read(pg);
        if result == Ok {
          result := OnePage(pg, src[pg - 1], io.write(pg));
          CopiedPage(Files(), src, old(dest), dest, pg, WriteEnd(Files(), io.write(pg), pg));
        }
      }
      iNext := iNext + 1;
    }

    /** The copying loop of a step; a negative count means all pages. */
    method CopyPages(pages: int, io: Io) returns (result: Rc)
      requires Valid() && !Fatal(rc) && bDestLocked
      modifies `dest, `iNext
      ensures Valid() && result != Done
      ensures var f, limit, stop := Files(), Limit(old(iNext), |src|, pages), old(Stop(Files(), Now(), pages, io));
              if stop < limit then
                && iNext == stop + 1 && result == PageResult(f, io, stop)
                && CopiedFrom(f, src, old(dest), dest, PageStart(old(iNext), S), CopyEnd(f, io, stop))
              else
                && iNext == limit && result == Ok
                && CopiedFrom(f, src, old(dest), dest, PageStart(old(iNext), S), PageStart(limit, S))
    {
      hide CopiedFrom, At, InLockPage, LockPage, PageStart, Sized, PageSize, PageResult, CopyEnd;
      result := Ok;
      ghost var f, first, limit := Files(), iNext, Limit(iNext, |src|, pages);
      var i := 0;
      CopiedNothing(f, src, dest, iNext);
      while (pages < 0 || i < pages) && iNext <= |src| && result == Ok
        invariant Valid() && iNext == first + i <= limit && result != Done && (pages >= 0 ==> i <= pages)
        invariant forall q :: first <= q < iNext - 1 ==> PageResult(f, io, q) == Ok
        invariant i == 0 ==> result == Ok
        invariant i > 0 ==> result == PageResult(f, io, iNext - 1)
        invariant CopiedFrom(f, src, old(dest), dest, PageStart(first, S),
                             if result == Ok then PageStart(iNext, S) else CopyEnd(f, io, iNext - 1))
        decreases |src| + 1 - iNext
      {
        ghost var before, at := dest, iNext;
        result := CopyNext(io);
        PageStartMono(first, at, S);
        CopiedThen(f, src, old(dest), before, dest, PageStart(first, S), PageStart(at, S), CopyEnd(f, io, at));
        CopyEndOk(f, io, at);
        i := i + 1;
      }
      FirstFailingIs(f, io, first, limit, if result == Ok then iNext else iNext - 1);
    }

    /** Rewrites the header fields of the destination's first page. */
    method WriteHeader(io: Io) returns (result: Rc)
      requires Valid()
      modifies `dest
      ensures Valid()
      ensures result != Done && result == (if io.meta != Ok then io.meta else if wal then io.version else Ok)
      ensures forall off: nat :: !Rewritten(wal, off) ==> At(dest, D, off) == old(At(dest, D, off))
      ensures result == Ok ==> forall off: nat :: 40 <= off < 44 ==> At(dest, D, off) == BigEndian(iDestSchema + 1)[off - 40]
      ensures result == Ok && wal ==> forall off: nat :: 18 <= off < 20 ==> At(dest, D, off) == 2
    {
      hide At, Patch, Sized;
      result := io.meta;
      if result == Ok {
        var cookie := BigEndian(iDestSchema + 1);
        forall off: nat { PatchAt(dest, D, 1, 40, cookie, off); }
        dest := Patch(dest, D, 1, 40, cookie);
        if wal {
          result := io.version;
          if result == Ok {
            forall off: nat { PatchAt(dest, D, 1, 18, [2, 2], off); }
            dest := Patch(dest, D, 1, 18, [2, 2]);
          }
        }
      }
    }

    /** Where the source pages are smaller, the pages that share the
        destination's lock page are written straight to the file. */
    method WriteExtra(io: Io) returns (result: Rc)
      requires Valid() && S < D
      modifies `dest, `size
      ensures Valid() && result == ExtraResult(S, io, PENDING_BYTE + S, ExtraEnd(|src| * S, D))
      ensures result == Ok ==> Extras(Files(), src, dest) && size == ExtraSize(old(size), |src| * S, S, D)
      ensures forall off: nat :: !InLockPage(D, off) ==> At(dest, D, off) == old(At(dest, D, off))
    {
      hide At, Patch, Sized, PageSize, PageNo, InPage, Mirrored, SourceAt, InLockPage, OnBoundary;
      result := Ok;
      var iSize := |src| * S;
      var iEnd := ExtraEnd(iSize, D);
      var off := PENDING_BYTE + S;
      MirroredNone(dest, D, src, S, off);
      ExtraStart(S, D, iSize);
      ghost var goal := ExtraResult(S, io, PENDING_BYTE + S, iEnd);
      while result == Ok && off < iEnd
        invariant Valid() && PENDING_BYTE + S <= off && (off >= iEnd ==> off == PENDING_BYTE + S || off == iEnd)
        invariant OnBoundary(off, S) && off <= PENDING_BYTE + D && result != Done
        invariant Mirrored(old(dest), dest, D, src, S, PENDING_BYTE + S, off)
        invariant size == if off == PENDING_BYTE + S then old(size) else if off > old(size) then off else old(size)
        invariant goal == if result == Ok then ExtraResult(S, io, off, iEnd) else result
        decreases iEnd - off, result == Ok
      {
        var iSrcPg := PageNo(off, S);
        result := io.extra(iSrcPg);
        if result == Ok {
          ExtraChunk(old(dest), dest, D, src, S, off);
          dest := Patch(dest, D, PageNo(off, D), InPage(off, D), src[iSrcPg - 1]);
          off := off + S;
          if off > size { size := off; }
        }
      }
      MirroredLock(old(dest), dest, D, src, S, off);
    }

    /** Brings the destination to its final length and writes the extra pages. */
    method Resize(io: Io) returns (result: Rc)
      requires Valid()
      modifies `dest, `size
      ensures Valid() && result == ResizeResult(Files(), |src|, io)
      ensures forall off: nat :: off < |src| * S && !InLockPage(D, off) ==> At(dest, D, off) == old(At(dest, D, off))
      ensures |src| > 0 ==> forall off: nat :: off < 44 ==> At(dest, D, off) == old(At(dest, D, off))
      ensures result == Ok ==> Extras(Files(), src, dest) && size == FinalSize(|src|, S, D)
    {
      hide At, SourceAt, LockPage, Sized, PageSize, FinalSize, TruncatedPages, ExtraSize, ExtraEnd, ExtraResult, FirstPages;
      var nDestTruncate := TruncatedPages(|src|, S, D);
      TruncatedKeeps(dest, |src|, S, D);
      dest := FirstPages(dest, nDestTruncate);
      result := io.phaseOne;
      if result != Ok { return; }
      size := nDestTruncate * D;
      SizeFinal(|src|, S, D);
      if S < D {
        result := WriteExtra(io);
        if result != Ok { return; }
        result := io.truncate;
        if result != Ok { return; }
        if size > |src| * S { size := |src| * S; }
        result := io.sync;
      }
    }

    /** Ends the backup: header, size of the destination, extra pages, commit. */
    method Finish(io: Io) returns (result: Rc)
      requires Valid()
      modifies `dest, `size
      ensures Valid() && result == CommitResult(Files(), |src|, io)
      ensures Finished(Files(), src, old(dest), dest, result, size)
      ensures result == Done && |src| > 0 ==> forall off: nat :: 40 <= off < 44 ==> At(dest, D, off) == BigEndian(iDestSchema + 1)[off - 40]
      ensures result == Done && |src| > 0 && wal ==> forall off: nat :: 18 <= off < 20 ==> At(dest, D, off) == 2
    {
      hide At, SourceAt, InLockPage, LockPage, Sized, PageSize, BigEndian, FinalSize, ExtraEnd, Extras, ResizeResult;
      result := WriteHeader(io);
      if result != Ok { return; }
      result := Resize(io);
      if result != Ok { return; }
      result := io.phaseTwo;
      if result == Ok { result := Done; }
    }

    /** What must be in place before any page is copied. */
    method Open(io: Io) returns (result: Rc)
      requires Valid()
      modifies `bDestLocked, `iDestSchema
      ensures Valid() && result == OpenResult(Files(), io, old(bDestLocked))
      ensures bDestLocked == (old(bDestLocked) || (!io.writing && io.lock == Ok)) && (result == Ok ==> bDestLocked)
      ensures iDestSchema == if bDestLocked && !old(bDestLocked) then Cookie(dest, D) else old(iDestSchema)
    {
      hide Cookie;
      result := if io.writing then Busy else Ok;
      if result == Ok && !bDestLocked {
        result := io.lock;
        if result == Ok {
          bDestLocked := true;
          iDestSchema := Cookie(dest, D);
        }
      }
      if result == Ok { result := io.open; }
      if result == Ok && wal && S != D { result := Readonly; }
    }

    /** What a step does once the locks are taken. */
    method Advance(pages: int, io: Io) returns (result: Rc)
      requires Valid() && !Fatal(rc) && bDestLocked
      modifies `dest, `iNext, `nPagecount, `nRemaining, `isAttached, `size
      ensures Valid() && result == old(AdvanceResult(Files(), Now(), pages, io))
      ensures Copies(Files(), old(Now()), pages, io, Now().(rc := result))
      ensures result == Ok || result == Done ==> nPagecount == |src| && nRemaining == |src| + 1 - iNext
    {
      hide CopiedFrom, Finished, PageResult, CopyEnd, OpenResult, CommitResult, At, Sized, PageSize, PageStart;
      result := CopyPages(pages, io);
      if result == Ok {
        nPagecount, nRemaining := |src|, |src| + 1 - iNext;
        if iNext > |src| {
          result := Finish(io);
        } else {
          isAttached := true;
        }
      }
    }

    /** One step of the backup, of up to `pages` pages (all if negative). */
    method Step(pages: int, io: Io) returns (result: Rc)
      requires Valid()
      modifies this
      ensures Valid() && result == rc && StepMoves(Files(), old(Now()), pages, io, Now())
      ensures !old(Fatal(rc)) && (rc == Ok || rc == Done) ==> nPagecount == |src| && nRemaining == |src| + 1 - iNext
    {
      hide Copies, AdvanceResult, OpenResult, Sized, PageSize;
      result := rc;
      if Fatal(rc) { return; }
      result := Open(io);
      if result == Ok {
        ghost var v := Now();
        result := Advance(pages, io);
        SameCopies(Files(), old(Now()), v, pages, io, Now().(rc := result));
      }
      rc := result;
    }

    /** A source page is written and an attached backup that has passed it copies
        it again. */
    method WriteSource(pg: nat, data: Page, write: nat -> IoRc)
      requires Valid() && |data| == S && Writes(|src|, S, pg)
      modifies `src, `dest, `rc
      ensures Valid() && WriteMoves(Files(), old(Now()), pg, data, write, Now())
    {
      hide At, Sized, Copied, PageStart, LockPage, PageSize, WriteEnd, WriteResult;
      src := Written(src, S, pg, data);
      if isAttached && !Fatal(rc) && pg < iNext {
        var result := OnePage(pg, data, write);
        if result != Ok { rc := result; }
      }
    }

    /** A commit shortens the source. */
    method ShrinkSource(n: nat)
      requires Valid()
      modifies `src
      ensures Valid() && Moves(Files(), old(Now()), ShrinkEvent(n), Now())
    {
      src := Shrunk(src, n);
    }

    /** Another connection has changed the source: an attached backup starts
        again. */
    method Restart(now: seq<Page>)
      requires Valid() && forall i :: 0 <= i < |now| ==> |now[i]| == S
      modifies `src, `iNext
      ensures Valid() && Moves(Files(), old(Now()), RestartEvent(now), Now())
    {
      src := now;
      if isAttached { iNext := 1; }
    }

    /** Any interleaving of steps, source writes and restarts is a run of the
        state machine. */
    method Run(events: seq<Event>) returns (ghost trace: seq<View>)
      requires Valid() && forall i :: 0 <= i < |events| ==> Fitting(Files(), events[i])
      modifies this
      ensures Valid() && IsRun(Files(), trace, events) && trace[0] == old(Now()) && trace[|events|] == Now()
    {
      hide Good, StepMoves, WriteMoves, PageSize;
      var i := 0;
      trace := [Now()];
      while i < |events|
        invariant 0 <= i <= |events| && Valid() && |trace| == i + 1 && trace[0] == old(Now()) && trace[i] == Now()
        invariant IsRun(Files(), trace, events[..i])
      {
        match events[i] {
          case StepEvent(pages, io) => var result := Step(pages, io);
          case WriteEvent(pg, data, write) =>
            if Writes(|src|, S, pg) { WriteSource(pg, data, write); }
            else { Ignored(Files(), Now(), pg, data, write); }
          case ShrinkEvent(n) => ShrinkSource(n);
          case RestartEvent(now) => Restart(now);
        }
        trace := trace + [Now()];
        i := i + 1;
      }
      assert events[..i] == events;
    }
  }

  // ---- how the methods follow the state machine ----

  lemma Ignored(f: Files, v: View, pg: nat, data: Page, write: nat -> IoRc)
    requires |data| == f.s && !Writes(|v.src|, f.s, pg)
    ensures WriteMoves(f, v, pg, data, write, v)
  {
  }

  /** Taking the locks makes no difference to what is copied. */
  lemma SameCopies(f: Files, u: View, v: View, pages: int, io: Io, w: View)
    requires u.iNext >= 1 && v == u.(bDestLocked := v.bDestLocked)
    ensures AdvanceResult(f, u, pages, io) == AdvanceResult(f, v, pages, io)
    ensures Copies(f, v, pages, io, w) ==> Copies(f, u, pages, io, w)
  {
    hide CopiedFrom, Finished, PageResult, CopyEnd, CommitResult, PageSize, PageStart;
  }

  lemma CopiedNothing(f: Files, src: seq<Page>, pages: Pages, pg: nat)
    requires pg >= 1
    ensures CopiedFrom(f, src, pages, pages, PageStart(pg, f.s), PageStart(pg, f.s))
    ensures pg == LockPage(f.s) ==> CopiedFrom(f, src, pages, pages, PageStart(pg, f.s), PageStart(pg, f.s) + f.s)
  {
    LockPageStart(f.s);
    hide At, SourceAt, PageSize;
  }

  /** A page that is not a lock page holds no byte of one. */
  lemma CopiedPage(f: Files, src: seq<Page>, before: Pages, now: Pages, pg: nat, stop: nat)
    requires 1 <= pg <= |src| && |src[pg - 1]| == f.s && pg != LockPage(f.s) && stop <= PageStart(pg, f.s) + f.s
    requires Copied(before, now, f.d, src[pg - 1], PageStart(pg, f.s), stop)
    ensures CopiedFrom(f, src, before, now, PageStart(pg, f.s), stop)
  {
    hide At, SourceAt, LockPage, InLockPage, PageSize;
    forall off: nat | PageStart(pg, f.s) <= off < stop
      ensures SourceAt(src, f.s, off) == src[pg - 1][off - PageStart(pg, f.s)] && !InLockPage(f.s, off)
    {
      SourceInPage(src, f.s, pg, off);
      Locate(off, f.s, pg - 1);
      InLock(f.s, off);
    }
  }

  lemma CopiedThen(f: Files, src: seq<Page>, a: Pages, b: Pages, c: Pages, lo: nat, mid: nat, hi: nat)
    requires lo <= mid <= hi && CopiedFrom(f, src, a, b, lo, mid) && CopiedFrom(f, src, b, c, mid, hi)
    ensures CopiedFrom(f, src, a, c, lo, hi)
  {
    hide At, SourceAt, Plain, PageSize;
  }

  /** A page that can be copied is copied to its end. */
  lemma CopyEndOk(f: Files, io: Io, p: nat)
    requires p >= 1
    ensures PageResult(f, io, p) == Ok ==> CopyEnd(f, io, p) == PageStart(p + 1, f.s)
  {
    hide InLockPage, LockPage, PageSize;
  }

  lemma FirstFailingIs(f: Files, io: Io, p: nat, limit: nat, r: nat)
    requires 1 <= p <= r <= limit && forall q :: p <= q < r ==> PageResult(f, io, q) == Ok
    ensures r == limit || PageResult(f, io, r) != Ok ==> FirstFailing(f, io, p, limit) == r
  {
    hide PageResult;
  }
}
