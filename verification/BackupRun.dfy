/** Every run of the online backup: when the copied part of the destination stays
    a copy, and what a lock met in the middle of a step loses. */
module BackupRun {
  import opened Varint
  import opened BackupPages
  import opened BackupView
  import opened Backup

  /** Everything below an offset agrees with the source, apart from the lock pages
      and the header bytes that the backup itself sets. */
  predicate Agrees(f: Files, src: seq<Page>, dest: Pages, upto: nat) {
    forall off: nat :: off < upto && off < |src| * f.s && Plain(f, off) && !Rewritten(f.wal, off) ==>
      At(dest, f.d, off) == SourceAt(src, f.s, off)
  }

  predicate Coherent(f: Files, v: View)
    requires v.iNext >= 1
  {
    Agrees(f, v.src, v.dest, PageStart(v.iNext, f.s))
  }

  /** While no fatal error is recorded the copied part is coherent, and the backup
      hears of every change to it. */
  ghost predicate Sound(f: Files, v: View)
    requires v.iNext >= 1
  {
    !Fatal(v.rc) ==> Coherent(f, v) && (v.iNext > 1 ==> v.isAttached)
  }

  /** The destination holds every content byte of the source; only the header
      fields that the backup itself rewrites differ. */
  ghost predicate FullCopy(f: Files, src: seq<Page>, dest: Pages)
  {
    forall off: nat :: off < |src| * f.s && !InLockPage(f.s, off) && !Rewritten(f.wal, off) ==> At(dest, f.d, off) == SourceAt(src, f.s, off)
  }

  // ---- the events that do harm ----

  /** Between two offsets the destination holds the source already. */
  ghost predicate Holds(f: Files, src: seq<Page>, dest: Pages, lo: nat, hi: nat) {
    forall off: nat :: lo <= off < hi && Plain(f, off) && !Rewritten(f.wal, off) ==> At(dest, f.d, off) == SourceAt(src, f.s, off)
  }

  /** What a step leaves uncopied of the page it stops at was there before. */
  ghost predicate AlreadyHolds(f: Files, v: View, io: Io, p: nat)
    requires p >= 1
  {
    Holds(f, v.src, v.dest, CopyEnd(f, io, p), PageStart(p, f.s) + f.s)
  }

  /** The step stops because of a lock, once pages are being copied. */
  ghost predicate MeetsLock(f: Files, v: View, pages: int, io: Io)
    requires v.iNext >= 1
  {
    && !Fatal(v.rc) && OpenResult(f, io, v.bDestLocked) == Ok
    && (StepResult(f, v, pages, io) == Busy || StepResult(f, v, pages, io) == Locked)
  }

  ghost predicate HarmfulStep(f: Files, v: View, pages: int, io: Io)
    requires v.iNext >= 1
  {
    && MeetsLock(f, v, pages, io)
    && var stop := Stop(f, v, pages, io);
       if stop < Limit(v.iNext, |v.src|, pages) then !v.isAttached || !AlreadyHolds(f, v, io, stop)
       else !v.isAttached && stop > 1
  }

  /** Copying a written page again stops because of a lock, which the code asserts
      never happens. */
  ghost predicate HarmfulWrite(f: Files, v: View, pg: nat, data: Page, write: nat -> IoRc)
    requires |data| == f.s
  {
    && Writes(|v.src|, f.s, pg) && Heard(v, pg) && (WriteResult(f, write, pg) == Busy || WriteResult(f, write, pg) == Locked)
    && !Holds(f, Written(v.src, f.s, pg, data), v.dest, WriteEnd(f, write, pg), PageStart(pg, f.s) + f.s)
  }

  ghost predicate Harmful(f: Files, v: View, e: Event)
    requires v.iNext >= 1 && Fitting(f, e)
  {
    match e
    case StepEvent(pages, io) => HarmfulStep(f, v, pages, io)
    case WriteEvent(pg, data, write) => HarmfulWrite(f, v, pg, data, write)
    case ShrinkEvent(_) => false
    case RestartEvent(_) => false
  }

  // ---- one event ----

  lemma AgreesCopied(f: Files, src: seq<Page>, before: Pages, now: Pages, lo: nat, hi: nat, upto: nat)
    requires lo <= hi <= upto <= |src| * f.s && CopiedFrom(f, src, before, now, lo, hi) && Agrees(f, src, before, lo)
    ensures Agrees(f, src, now, upto) <==> Holds(f, src, before, hi, upto)
  {
    hide At, SourceAt, Plain, PageSize, Rewritten;
  }

  lemma AgreesKept(f: Files, src: seq<Page>, before: Pages, now: Pages, upto: nat)
    requires Kept(before, now, f.d, f.wal, |src| * f.s)
    ensures Agrees(f, src, before, upto) <==> Agrees(f, src, now, upto)
  {
    hide At, SourceAt, PageSize, Rewritten, InLockPage;
  }

  lemma HoldsNone(f: Files, src: seq<Page>, dest: Pages, lo: nat)
    ensures Holds(f, src, dest, lo, lo)
  {
  }

  /** Copying up to some page, all of it. */
  lemma CopiedAll(f: Files, v: View, now: Pages, limit: nat)
    requires 1 <= v.iNext <= limit && (limit <= |v.src| + 1 || limit == v.iNext)
    requires Coherent(f, v) && CopiedFrom(f, v.src, v.dest, now, PageStart(v.iNext, f.s), PageStart(limit, f.s))
    ensures Agrees(f, v.src, now, PageStart(limit, f.s))
  {
    hide At, SourceAt, Plain, PageSize, Rewritten, PageStart;
    PageStartMono(v.iNext, limit, f.s);
    if limit <= |v.src| + 1 {
      PageStartMono(limit, |v.src| + 1, f.s);
      EndStart(f, v.src);
      HoldsNone(f, v.src, v.dest, PageStart(limit, f.s));
      AgreesCopied(f, v.src, v.dest, now, PageStart(v.iNext, f.s), PageStart(limit, f.s), PageStart(limit, f.s));
    }
  }

  lemma EndStart(f: Files, src: seq<Page>)
    ensures PageStart(|src| + 1, f.s) == |src| * f.s
  {
  }

  lemma NextStart(f: Files, p: nat)
    requires p >= 1
    ensures PageStart(p + 1, f.s) == PageStart(p, f.s) + f.s
  {
  }

  /** A step that stops inside the source leaves a coherent copy exactly if the
      rest of that page was there already. */
  lemma StoppedCopy(f: Files, v: View, pages: int, io: Io, w: View)
    requires Good(f, v) && Coherent(f, v) && !Fatal(v.rc) && OpenResult(f, io, v.bDestLocked) == Ok && StepMoves(f, v, pages, io, w)
    requires Stop(f, v, pages, io) < Limit(v.iNext, |v.src|, pages)
    ensures w.iNext >= 1 && (Coherent(f, w) <==> AlreadyHolds(f, v, io, Stop(f, v, pages, io)))
  {
    hide At, SourceAt, Plain, PageSize, Rewritten, PageStart, Stop, Agrees, Holds, CopiedFrom, CopyEnd, StepResult;
    var p := Stop(f, v, pages, io);
    PageStartMono(v.iNext, p, f.s);
    NextStart(f, p);
    EndStart(f, v.src);
    PageStartMono(p + 1, |v.src| + 1, f.s);
    AgreesCopied(f, v.src, v.dest, w.dest, PageStart(v.iNext, f.s), CopyEnd(f, io, p), PageStart(p + 1, f.s));
  }

  /** Any other step keeps the copy coherent, whatever the commit reports. */
  lemma UnstoppedCopy(f: Files, v: View, pages: int, io: Io, w: View)
    requires Good(f, v) && Coherent(f, v) && StepMoves(f, v, pages, io, w)
    requires Stop(f, v, pages, io) == Limit(v.iNext, |v.src|, pages)
    ensures w.iNext >= 1 && Coherent(f, w)
  {
    hide At, SourceAt, Plain, PageSize, Rewritten, PageStart, Agrees, Holds, CopiedFrom, CopyEnd, StepResult, Kept, Extras;
    if !Fatal(v.rc) && OpenResult(f, io, v.bDestLocked) == Ok {
      var limit := Limit(v.iNext, |v.src|, pages);
      if limit <= |v.src| {
        CopiedAll(f, v, w.dest, limit);
      } else {
        var copied :| CopiedFrom(f, v.src, v.dest, copied, PageStart(v.iNext, f.s), PageStart(limit, f.s))
                      && Finished(f, v.src, copied, w.dest, w.rc, w.size);
        CopiedAll(f, v, copied, limit);
        AgreesKept(f, v.src, copied, w.dest, PageStart(limit, f.s));
      }
    }
  }

  /** A step from a sound state ends in a sound state exactly if it is not
      harmful. */
  lemma StepSound(f: Files, v: View, pages: int, io: Io, w: View)
    requires Good(f, v) && Good(f, w) && Sound(f, v) && StepMoves(f, v, pages, io, w)
    ensures Sound(f, w) <==> !HarmfulStep(f, v, pages, io)
  {
    hide PageSize, Agrees, AlreadyHolds, Stop, PageResult, OpenResult, CommitResult;
    if !Fatal(v.rc) {
      if Stop(f, v, pages, io) == Limit(v.iNext, |v.src|, pages) {
        UnstoppedCopy(f, v, pages, io, w);
      } else if OpenResult(f, io, v.bDestLocked) == Ok {
        StoppedCopy(f, v, pages, io, w);
        StopFails(f, v, pages, io);
      }
    }
  }

  lemma StopFails(f: Files, v: View, pages: int, io: Io)
    requires v.iNext >= 1
    ensures Stop(f, v, pages, io) < Limit(v.iNext, |v.src|, pages) ==> PageResult(f, io, Stop(f, v, pages, io)) != Ok
  {
    hide PageResult, PageSize;
  }

  /** A step that ends Done has copied everything, if what came before was
      copied; and the other way round. */
  lemma StepDone(f: Files, v: View, pages: int, io: Io, w: View)
    requires Good(f, v) && !Fatal(v.rc) && StepMoves(f, v, pages, io, w) && w.rc == Done
    ensures FullCopy(f, w.src, w.dest) <==> Coherent(f, v)
    ensures w.size == FinalSize(|w.src|, f.s, f.d)
  {
    hide At, SourceAt, Plain, PageSize, Rewritten, PageStart, Agrees, Holds, CopiedFrom, CopyEnd, PageResult, Kept, Extras, FullCopy;
    var lo, limit := PageStart(v.iNext, f.s), Limit(v.iNext, |v.src|, pages);
    StopFails(f, v, pages, io);
    var copied :| CopiedFrom(f, v.src, v.dest, copied, lo, PageStart(limit, f.s)) && Finished(f, v.src, copied, w.dest, w.rc, w.size);
    EndStart(f, v.src);
    PageStartMono(|v.src| + 1, limit, f.s);
    if Coherent(f, v) {
      CopiedAll(f, v, copied, limit);
      AgreesKept(f, v.src, copied, w.dest, PageStart(limit, f.s));
      Complete(f, v.src, w.dest, PageStart(limit, f.s));
    }
    if FullCopy(f, w.src, w.dest) {
      WasCopied(f, v.src, v.dest, copied, w.dest, lo, PageStart(limit, f.s));
    }
  }

  /** With the extra pages nothing is missing. */
  lemma Complete(f: Files, src: seq<Page>, now: Pages, upto: nat)
    requires Agrees(f, src, now, upto) && upto >= |src| * f.s && Extras(f, src, now)
    ensures FullCopy(f, src, now)
  {
    hide At, SourceAt, PageSize;
  }

  lemma WasCopied(f: Files, src: seq<Page>, before: Pages, copied: Pages, now: Pages, lo: nat, hi: nat)
    requires FullCopy(f, src, now) && CopiedFrom(f, src, before, copied, lo, hi) && Kept(copied, now, f.d, f.wal, |src| * f.s)
    ensures Agrees(f, src, before, lo)
  {
    hide At, SourceAt, PageSize;
  }

  // ---- the source changes ----

  lemma AgreesAtStart(f: Files, src: seq<Page>, dest: Pages)
    ensures Agrees(f, src, dest, PageStart(1, f.s))
  {
  }

  lemma AgreesShrunk(f: Files, src: seq<Page>, n: nat, dest: Pages, upto: nat)
    ensures Agrees(f, src, dest, upto) ==> Agrees(f, Shrunk(src, n), dest, upto)
  {
    hide At, Plain, Rewritten, PageSize;
    if n < |src| {
      MulMono(n, |src|, f.s);
      forall off: nat | off < n * f.s ensures SourceAt(Shrunk(src, n), f.s, off) == SourceAt(src, f.s, off) {
        Locate(off, f.s, off / f.s);
        MulMono(n, off / f.s, f.s);
      }
    }
  }

  lemma WrittenAll(f: Files, src: seq<Page>, pg: nat, data: Page)
    requires Writes(|src|, f.s, pg) && |data| == f.s
    ensures forall off: nat :: off < |Written(src, f.s, pg, data)| * f.s && !InLockPage(f.s, off) ==>
              var base := PageStart(pg, f.s);
              if base <= off < base + f.s then SourceAt(Written(src, f.s, pg, data), f.s, off) == data[off - base]
              else off < |src| * f.s && SourceAt(Written(src, f.s, pg, data), f.s, off) == SourceAt(src, f.s, off)
    ensures var end := |Written(src, f.s, pg, data)| * f.s; |src| * f.s <= end && PageStart(pg, f.s) + f.s <= end
  {
    hide SourceAt, PageStart, LockPage, Written, InLockPage, PageSize;
    var now := Written(src, f.s, pg, data);
    MulMono(|src|, |now|, f.s);
    PageStartMono(pg + 1, |now| + 1, f.s);
    EndStart(f, now);
    NextStart(f, pg);
    forall off: nat | off < |now| * f.s && !InLockPage(f.s, off)
      ensures var base := PageStart(pg, f.s);
              if base <= off < base + f.s then SourceAt(now, f.s, off) == data[off - base]
              else off < |src| * f.s && SourceAt(now, f.s, off) == SourceAt(src, f.s, off)
    {
      WrittenAt(src, f.s, pg, data, off);
    }
  }

  /** A written page behind the cursor is coherent again exactly if what was not
      copied of it was there already. */
  lemma AgreesWritten(f: Files, src: seq<Page>, pg: nat, data: Page, before: Pages, now: Pages, stop: nat, next: nat)
    requires Writes(|src|, f.s, pg) && |data| == f.s && pg < next && PageStart(pg, f.s) <= stop <= PageStart(pg, f.s) + f.s
    requires Agrees(f, src, before, PageStart(next, f.s)) && Copied(before, now, f.d, data, PageStart(pg, f.s), stop)
    ensures Agrees(f, Written(src, f.s, pg, data), now, PageStart(next, f.s))
       <==> Holds(f, Written(src, f.s, pg, data), before, stop, PageStart(pg, f.s) + f.s)
  {
    NextStart(f, pg);
    PageStartMono(pg + 1, next, f.s);
    WrittenAll(f, src, pg, data);
    hide At, SourceAt, PageStart, LockPage, Written, InLockPage, PageSize, Rewritten;
  }

  lemma AgreesBeyond(f: Files, src: seq<Page>, pg: nat, data: Page, dest: Pages, next: nat)
    requires Writes(|src|, f.s, pg) && |data| == f.s && 1 <= next <= pg
    ensures Agrees(f, src, dest, PageStart(next, f.s)) ==> Agrees(f, Written(src, f.s, pg, data), dest, PageStart(next, f.s))
  {
    PageStartMono(next, pg, f.s);
    WrittenAll(f, src, pg, data);
    hide At, SourceAt, PageStart, LockPage, Written, InLockPage, PageSize, Rewritten;
  }

  lemma WriteOk(f: Files, write: nat -> IoRc, pg: nat)
    requires pg >= 1
    ensures WriteResult(f, write, pg) == Ok ==> WriteEnd(f, write, pg) == PageStart(pg, f.s) + f.s
  {
    hide InLockPage, PageStart, PageSize;
  }

  /** A source write keeps the state sound exactly if it is not harmful. */
  lemma WriteSound(f: Files, v: View, pg: nat, data: Page, write: nat -> IoRc, w: View)
    requires Good(f, v) && |data| == f.s && Sound(f, v) && WriteMoves(f, v, pg, data, write, w)
    ensures Sound(f, w) <==> !HarmfulWrite(f, v, pg, data, write)
  {
    hide Agrees, Holds, Copied, PageStart, PageSize, WriteEnd, Written, LockPage;
    if Writes(|v.src|, f.s, pg) && !Fatal(v.rc) {
      if pg >= v.iNext {
        AgreesBeyond(f, v.src, pg, data, v.dest, v.iNext);
      } else {
        AgreesWritten(f, v.src, pg, data, v.dest, w.dest, WriteEnd(f, write, pg), v.iNext);
        HoldsNone(f, w.src, v.dest, PageStart(pg, f.s) + f.s);
        WriteOk(f, write, pg);
      }
    }
  }

  // ---- every run ----

  lemma EventSound(f: Files, v: View, e: Event, w: View)
    requires Good(f, v) && Good(f, w) && Fitting(f, e) && Sound(f, v) && Moves(f, v, e, w)
    ensures Sound(f, w) <==> !Harmful(f, v, e)
  {
    hide Agrees, PageStart, PageSize, StepMoves, WriteMoves, HarmfulStep, HarmfulWrite;
    match e {
      case StepEvent(pages, io) => StepSound(f, v, pages, io, w);
      case WriteEvent(pg, data, write) => WriteSound(f, v, pg, data, write, w);
      case ShrinkEvent(n) => AgreesShrunk(f, v.src, n, v.dest, PageStart(v.iNext, f.s));
      case RestartEvent(now) => AgreesAtStart(f, now, v.dest);
    }
  }

  lemma {:induction false} SoundUntil(f: Files, trace: seq<View>, events: seq<Event>, n: nat)
    requires IsRun(f, trace, events) && Sound(f, trace[0]) && n <= |events|
    requires forall i :: 0 <= i < n ==> !Harmful(f, trace[i], events[i])
    ensures Sound(f, trace[n])
  {
    hide Sound, Harmful, Moves, PageSize;
    if n > 0 {
      SoundUntil(f, trace, events, n - 1);
      EventSound(f, trace[n - 1], events[n - 1], trace[n]);
    }
  }

  /** Over every run of steps, writes, truncations and restarts: the copy is sound
      throughout exactly if no event is harmful. */
  lemma RunSound(f: Files, trace: seq<View>, events: seq<Event>)
    requires IsRun(f, trace, events) && Sound(f, trace[0])
    ensures (forall i :: 0 <= i <= |events| ==> Sound(f, trace[i])) <==> (forall i :: 0 <= i < |events| ==> !Harmful(f, trace[i], events[i]))
  {
    hide Sound, Harmful, Moves, PageSize;
    if forall i :: 0 <= i < |events| ==> !Harmful(f, trace[i], events[i]) {
      forall i | 0 <= i <= |events| ensures Sound(f, trace[i]) {
        SoundUntil(f, trace, events, i);
      }
    }
    if forall i :: 0 <= i <= |events| ==> Sound(f, trace[i]) {
      forall i | 0 <= i < |events| ensures !Harmful(f, trace[i], events[i]) {
        EventSound(f, trace[i], events[i], trace[i + 1]);
      }
    }
  }

  /** The source after a run of events; a write that cannot happen is ignored. */
  ghost function SourceAfter(f: Files, src: seq<Page>, events: seq<Event>): seq<Page> {
    if events == [] then src
    else
      var before := SourceAfter(f, src, events[..|events| - 1]);
      match events[|events| - 1]
      case StepEvent(_, _) => before
      case WriteEvent(pg, data, _) => if Writes(|before|, f.s, pg) then Written(before, f.s, pg, data) else before
      case ShrinkEvent(n) => Shrunk(before, n)
      case RestartEvent(now) => now
  }

  lemma {:induction false} RunSource(f: Files, trace: seq<View>, events: seq<Event>, n: nat)
    requires IsRun(f, trace, events) && n <= |events|
    ensures trace[n].src == SourceAfter(f, trace[0].src, events[..n])
  {
    hide Written, Writes, Shrunk, Copies, PageSize;
    if n > 0 {
      RunSource(f, trace, events, n - 1);
      assert events[..n][..n - 1] == events[..n - 1];
      assert Moves(f, trace[n - 1], events[n - 1], trace[n]);
    }
  }

  /** A run that ends Done ended with some step, and holds the source as it was
      then exactly if the copied part was coherent before that step. */
  lemma {:induction false} RunEnds(f: Files, trace: seq<View>, events: seq<Event>, n: nat) returns (k: nat)
    requires IsRun(f, trace, events) && !Fatal(trace[0].rc) && n <= |events| && trace[n].rc == Done
    ensures k < n && events[k].StepEvent? && !Fatal(trace[k].rc)
    ensures FullCopy(f, trace[k].src, trace[n].dest) <==> Coherent(f, trace[k])
  {
    hide FullCopy, Coherent, Written, Writes, Shrunk, Copied, PageSize, Copies, StepResult;
    var v, e, w := trace[n - 1], events[n - 1], trace[n];
    assert Moves(f, v, e, w);
    if v.rc == Done {
      k := RunEnds(f, trace, events, n - 1);
    } else {
      k := n - 1;
      StepDone(f, v, e.pages, e.io, w);
    }
  }

  /** So a run without harmful events that ends Done holds a full copy. */
  lemma RunCopies(f: Files, trace: seq<View>, events: seq<Event>) returns (k: nat)
    requires IsRun(f, trace, events) && Sound(f, trace[0]) && !Fatal(trace[0].rc) && trace[|events|].rc == Done
    ensures k < |events| && events[k].StepEvent?
    ensures (forall i :: 0 <= i < k ==> !Harmful(f, trace[i], events[i])) ==>
              FullCopy(f, SourceAfter(f, trace[0].src, events[..k]), trace[|events|].dest)
  {
    hide FullCopy, Coherent, Moves, Harmful, SourceAfter, PageSize;
    k := RunEnds(f, trace, events, |events|);
    RunSource(f, trace, events, k);
    if forall i :: 0 <= i < k ==> !Harmful(f, trace[i], events[i]) {
      SoundUntil(f, trace, events, k);
    }
  }

  // ---- what an unsound copy loses ----

  ghost predicate Smooth(io: Io) {
    && !io.writing && io.lock == Ok && io.open == Ok
    && (forall p :: io.read(p) == Ok && io.extra(p) == Ok)
    && (forall p, q :: io.write(p)(q) == Ok)
    && io.meta == Ok && io.version == Ok && io.phaseOne == Ok && io.truncate == Ok && io.sync == Ok && io.phaseTwo == Ok
  }

  /** Page sizes with which a backup is possible. */
  predicate Compatible(f: Files) {
    f.s == f.d || (!f.memdb && !f.wal)
  }

  lemma SmoothPage(f: Files, io: Io, p: nat)
    requires p >= 1 && io.read(p) == Ok && (forall q :: io.write(p)(q) == Ok) && Compatible(f)
    ensures PageResult(f, io, p) == Ok
  {
    hide PageSize, PageStart, InLockPage, LockPage;
  }

  lemma {:induction false} SmoothExtra(s: nat, io: Io, off: nat, end: nat)
    requires s > 0 && Smooth(io)
    ensures ExtraResult(s, io, off, end) == Ok
    decreases end - off
  {
    if off < end { SmoothExtra(s, io, off + s, end); }
  }

  lemma SmoothStop(f: Files, v: View, pages: int, io: Io)
    requires v.iNext >= 1 && Smooth(io) && Compatible(f)
    ensures Stop(f, v, pages, io) == Limit(v.iNext, |v.src|, pages) && OpenResult(f, io, v.bDestLocked) == Ok
    ensures CommitResult(f, |v.src|, io) == Done
  {
    hide PageResult, PageSize, ExtraResult;
    var limit := Limit(v.iNext, |v.src|, pages);
    forall q | v.iNext <= q < limit ensures PageResult(f, io, q) == Ok {
      SmoothPage(f, io, q);
    }
    FirstFailingIs(f, io, v.iNext, limit, limit);
    SmoothExtra(f.s, io, PENDING_BYTE + f.s, ExtraEnd(|v.src| * f.s, f.d));
  }

  /** Without errors a step ends the backup exactly if it is for all the pages that
      are left. */
  lemma SmoothDone(f: Files, v: View, pages: int, io: Io)
    requires v.iNext >= 1 && !Fatal(v.rc) && Smooth(io) && Compatible(f)
    ensures StepResult(f, v, pages, io) == Done <==> pages < 0 || v.iNext + pages > |v.src| || v.iNext > |v.src|
  {
    hide PageSize, Stop, CommitResult, OpenResult;
    SmoothStop(f, v, pages, io);
  }

  /** A step never copies more pages than it is for. */
  lemma StepBound(f: Files, v: View, pages: nat, io: Io, w: View)
    requires v.iNext >= 1 && StepMoves(f, v, pages, io, w)
    ensures v.iNext <= w.iNext <= v.iNext + pages && w.iNext <= if v.iNext <= |v.src| then |v.src| + 1 else v.iNext
  {
    hide PageSize, Stop;
  }

  /** Without errors a step copies exactly the pages it is for: the bytes of these
      pages, outside the lock pages, come from the source, and no others change. */
  lemma StepCopies(f: Files, v: View, pages: nat, io: Io, w: View)
    requires Good(f, v) && !Fatal(v.rc) && Smooth(io) && Compatible(f) && v.iNext + pages <= |v.src| && StepMoves(f, v, pages, io, w)
    ensures w.rc == Ok && w.iNext == v.iNext + pages && w.isAttached && w.size == v.size
    ensures forall off: nat :: off < (v.iNext - 1) * f.s || off >= (v.iNext + pages - 1) * f.s ==> At(w.dest, f.d, off) == At(v.dest, f.d, off)
    ensures forall off: nat :: (v.iNext - 1) * f.s <= off < (v.iNext + pages - 1) * f.s && Plain(f, off) ==>
              At(w.dest, f.d, off) == SourceAt(v.src, f.s, off)
  {
    hide PageSize, Stop, CommitResult, OpenResult, At, SourceAt, Plain;
    SmoothStop(f, v, pages, io);
  }

  /** A page at which a step meets a lock is passed: a step that then ends the
      backup leaves a full copy exactly if the rest of that page was there
      already. */
  lemma LostPage(f: Files, v: View, pages: int, io: Io, w: View, rest: Io, x: View)
    requires Good(f, v) && Good(f, w) && Coherent(f, v) && Compatible(f) && Smooth(rest) && MeetsLock(f, v, pages, io)
    requires Stop(f, v, pages, io) < Limit(v.iNext, |v.src|, pages)
    requires StepMoves(f, v, pages, io, w) && StepMoves(f, w, -1, rest, x)
    ensures x.rc == Done && (FullCopy(f, x.src, x.dest) <==> AlreadyHolds(f, v, io, Stop(f, v, pages, io)))
  {
    hide Coherent, AlreadyHolds, FullCopy, Stop, Copies, PageSize;
    StoppedCopy(f, v, pages, io, w);
    SmoothDone(f, w, -1, rest);
    StepDone(f, w, -1, rest, x);
  }

  /** A page that is written behind the cursor of a backup that is not attached is
      lost, unless the write changes nothing. */
  lemma LostWrite(f: Files, v: View, pg: nat, data: Page, write: nat -> IoRc, w: View, rest: Io, x: View)
    requires Good(f, v) && Good(f, w) && Coherent(f, v) && !Fatal(v.rc) && !v.isAttached && Compatible(f) && Smooth(rest)
    requires |data| == f.s && Writes(|v.src|, f.s, pg) && pg < v.iNext
    requires WriteMoves(f, v, pg, data, write, w) && StepMoves(f, w, -1, rest, x)
    ensures x.rc == Done
    ensures FullCopy(f, x.src, x.dest) <==> Holds(f, w.src, v.dest, PageStart(pg, f.s), PageStart(pg, f.s) + f.s)
  {
    hide Agrees, Holds, FullCopy, Copies, Copied, PageStart, LockPage, PageSize, Written;
    Start(v.dest, f.d, data, PageStart(pg, f.s), write);
    AgreesWritten(f, v.src, pg, data, v.dest, v.dest, PageStart(pg, f.s), v.iNext);
    SmoothDone(f, w, -1, rest);
    StepDone(f, w, -1, rest, x);
  }

  const OkRead: nat -> IoRc := p => Ok
  const OkWrite: nat -> nat -> IoRc := p => q => Ok
  const AllOk: Io := Io(false, Ok, Ok, OkRead, OkWrite, Ok, Ok, Ok, OkRead, Ok, Ok, Ok)

  /** What ends a backup without a full copy, from a state that is not sound: one
      step, after a write of the first page if the copied part is coherent. */
  function LosingEvents(f: Files, v: View): (events: seq<Event>)
    requires v.iNext >= 1
    ensures forall i :: 0 <= i < |events| ==> Fitting(f, events[i])
  {
    if !Coherent(f, v) then [StepEvent(-1, AllOk)]
    else [WriteEvent(1, seq(f.s, i => (At(v.dest, f.d, 0) + 1) % 256), OkRead), StepEvent(-1, AllOk)]
  }

  lemma LosingRun(f: Files, v: View, trace: seq<View>)
    requires Good(f, v) && !Fatal(v.rc) && Compatible(f) && !Sound(f, v)
    requires var events := LosingEvents(f, v); IsRun(f, trace, events) && trace[0] == v
    ensures var w := trace[|trace| - 1]; w.rc == Done && !FullCopy(f, w.src, w.dest)
  {
    hide Agrees, FullCopy, PageStart, PageSize, StepMoves, WriteMoves, Holds;
    var events := LosingEvents(f, v);
    assert Moves(f, trace[0], events[0], trace[1]);
    if !Coherent(f, v) {
      EndsIncoherent(f, v, trace[1]);
    } else {
      assert Moves(f, trace[1], events[1], trace[2]);
      var data := events[0].data;
      FirstByteWritten(f, v, data, trace[1]);
      LostWrite(f, v, 1, data, OkRead, trace[1], AllOk, trace[2]);
    }
  }

  /** From every state that is not sound one source write and one step can end the
      backup without a full copy, so nothing weaker than soundness would do. */
  method UnsoundLoses(f: Files, v: View) returns (events: seq<Event>, ghost trace: seq<View>)
    requires Good(f, v) && !Fatal(v.rc) && Compatible(f) && !Sound(f, v)
    ensures 1 <= |events| <= 2 && IsRun(f, trace, events) && trace[0] == v
    ensures trace[|events|].rc == Done && !FullCopy(f, trace[|events|].src, trace[|events|].dest)
  {
    hide Sound, Coherent, FullCopy, PageSize, Moves;
    events := LosingEvents(f, v);
    var b := new BackupState.Resumed(f, v);
    trace := b.Run(events);
    LosingRun(f, v, trace);
  }

  lemma EndsIncoherent(f: Files, v: View, w: View)
    requires Good(f, v) && !Fatal(v.rc) && Compatible(f) && !Coherent(f, v) && StepMoves(f, v, -1, AllOk, w)
    ensures w.rc == Done && !FullCopy(f, w.src, w.dest)
  {
    hide Coherent, FullCopy, PageSize, Copies;
    SmoothDone(f, v, -1, AllOk);
    StepDone(f, v, -1, AllOk, w);
  }

  lemma FirstByteWritten(f: Files, v: View, data: Page, w: View)
    requires |data| == f.s && data[0] != At(v.dest, f.d, 0) && WriteMoves(f, v, 1, data, OkRead, w)
    ensures Writes(|v.src|, f.s, 1) && !Holds(f, w.src, v.dest, PageStart(1, f.s), PageStart(1, f.s) + f.s)
  {
    LockPageStart(f.s);
    assert Writes(|v.src|, f.s, 1);
    assert SourceAt(w.src, f.s, 0) == data[0];
    assert Plain(f, 0) && !Rewritten(f.wal, 0);
  }

  /** For every source and destination: if the read of some page meets a lock, the
      backup still ends Done, with the old bytes of that page. */
  method BusyLosesPage(src: seq<Page>, s: nat, dest: Pages, d: nat, p: nat) returns (rc: Rc, copy: Pages)
    requires PageSize(s) && PageSize(d) && Sized(dest, d) && forall i :: 0 <= i < |src| ==> |src[i]| == s
    requires 1 <= p <= |src| && p != LockPage(s)
    ensures rc == Done
    ensures var f := Form(s, d, false, false);
            FullCopy(f, src, copy) <==> Holds(f, src, dest, PageStart(p, s), PageStart(p, s) + s)
  {
    hide FullCopy, Holds, At, Sized, LockPage, PageStart, PageSize, Agrees, Copies;
    assert s > 0 && d > 0 by { PositiveSizes(s, d); }
    var b := new BackupState(src, s, dest, d, false, false);
    var locked := AllOk.(read := q => if q == p then Busy else Ok);
    ghost var f, v := b.Files(), b.Now();
    LockAt(f, v, locked, p);
    var first := b.Step(-1, locked);
    ghost var w := b.Now();
    rc := b.Step(-1, AllOk);
    copy := b.dest;
    LostPage(f, v, -1, locked, w, AllOk, b.Now());
  }

  lemma PositiveSizes(s: nat, d: nat)
    requires PageSize(s) && PageSize(d)
    ensures s > 0 && d > 0
  {
  }

  lemma LockAt(f: Files, v: View, io: Io, p: nat)
    requires v.iNext == 1 && v.rc == Ok && 1 <= p <= |v.src| && p != LockPage(f.s) && Compatible(f)
    requires !io.writing && io.lock == Ok && io.open == Ok && (forall q :: io.read(q) == if q == p then Busy else Ok)
    requires forall p, q :: io.write(p)(q) == Ok
    ensures Coherent(f, v) && MeetsLock(f, v, -1, io) && Stop(f, v, -1, io) == p < Limit(1, |v.src|, -1)
    ensures CopyEnd(f, io, p) == PageStart(p, f.s)
  {
    hide LockPage, PageSize, PageStart, WriteEnd, WriteResult, Agrees, PageResult;
    AgreesAtStart(f, v.src, v.dest);
    forall q | 1 <= q < p ensures PageResult(f, io, q) == Ok {
      SmoothPage(f, io, q);
    }
    assert PageResult(f, io, p) == Busy by { LockRead(f, io, p); }
    FirstFailingIs(f, io, 1, |v.src| + 1, p);
  }

  lemma LockRead(f: Files, io: Io, p: nat)
    requires p >= 1 && p != LockPage(f.s) && io.read(p) == Busy
    ensures PageResult(f, io, p) == Busy
  {
  }

  /** For every source and destination: if the commit of a backup that copied all
      pages in one step meets a lock, a page written before the next step is not
      copied again, and the backup still ends Done. */
  method BusyLosesWrite(src: seq<Page>, s: nat, dest: Pages, d: nat, data: Page) returns (rc: Rc, now: seq<Page>, copy: Pages)
    requires PageSize(s) && PageSize(d) && Sized(dest, d) && src != [] && |data| == s && forall i :: 0 <= i < |src| ==> |src[i]| == s
    ensures rc == Done && now == src[0 := data]
    ensures FullCopy(Form(s, d, false, false), now, copy) <==> forall i :: 0 <= i < s && !Rewritten(false, i) ==> data[i] == src[0][i]
  {
    hide FullCopy, Holds, At, Sized, LockPage, PageStart, PageSize, Agrees, Copies;
    assert s > 0 && d > 0 by { PositiveSizes(s, d); }
    var b := new BackupState(src, s, dest, d, false, false);
    var locked := AllOk.(phaseTwo := Busy);
    ghost var f, v := b.Files(), b.Now();
    var first := b.Step(-1, locked);
    ghost var w := b.Now();
    LockedCommit(f, v, locked, w);
    FirstPageWrites(f, src);
    b.WriteSource(1, data, OkRead);
    ghost var x := b.Now();
    rc := b.Step(-1, AllOk);
    now, copy := b.src, b.dest;
    LostWrite(f, w, 1, data, OkRead, x, AllOk, b.Now());
    FirstPageHeld(f, src, data, w.dest);
  }

  lemma FirstPageWrites(f: Files, src: seq<Page>)
    requires src != []
    ensures Writes(|src|, f.s, 1) && PageStart(1, f.s) == 0
  {
    LockPageStart(f.s);
  }

  lemma LockedCommit(f: Files, v: View, io: Io, w: View)
    requires Good(f, v) && v.iNext == 1 && v.rc == Ok && !v.isAttached && io == AllOk.(phaseTwo := Busy) && Compatible(f) && StepMoves(f, v, -1, io, w)
    ensures Coherent(f, w) && w.rc == Busy && !w.isAttached && w.iNext == |v.src| + 1
  {
    hide PageResult, PageSize, ExtraResult, Agrees, CopiedFrom, Finished;
    var limit := |v.src| + 1;
    forall q | 1 <= q < limit ensures PageResult(f, io, q) == Ok {
      SmoothPage(f, io, q);
    }
    FirstFailingIs(f, io, 1, limit, limit);
    AgreesAtStart(f, v.src, v.dest);
    UnstoppedCopy(f, v, -1, io, w);
    SmoothExtra(f.s, AllOk, PENDING_BYTE + f.s, ExtraEnd(|v.src| * f.s, f.d));
    ExtraSame(f.s, io, AllOk, PENDING_BYTE + f.s, ExtraEnd(|v.src| * f.s, f.d));
  }

  lemma {:induction false} ExtraSame(s: nat, a: Io, b: Io, off: nat, end: nat)
    requires s > 0 && a.extra == b.extra
    ensures ExtraResult(s, a, off, end) == ExtraResult(s, b, off, end)
    decreases end - off
  {
    if off < end { ExtraSame(s, a, b, off + s, end); }
  }

  lemma FirstPageHeld(f: Files, src: seq<Page>, data: Page, dest: Pages)
    requires src != [] && |src[0]| == |data| == f.s && Agrees(f, src, dest, PageStart(|src| + 1, f.s))
    ensures Holds(f, src[0 := data], dest, 0, f.s) <==> forall i :: 0 <= i < f.s && !Rewritten(f.wal, i) ==> data[i] == src[0][i]
  {
    MulMono(1, |src|, f.s);
    forall off: nat | off < f.s
      ensures SourceAt(src, f.s, off) == src[0][off] && SourceAt(src[0 := data], f.s, off) == data[off] && Plain(f, off)
    {
      SourceInPage(src, f.s, 1, off);
      SourceInPage(src[0 := data], f.s, 1, off);
    }
    hide At, SourceAt, Plain, PageSize;
  }

  /** The first step of a backup of several pages, for fewer than all of them. */
  method FirstStep(src: seq<Page>, s: nat, dest: Pages, d: nat, pages: nat) returns (b: BackupState)
    requires PageSize(s) && PageSize(d) && Sized(dest, d) && (forall i :: 0 <= i < |src| ==> |src[i]| == s) && pages < |src|
    ensures b.rc == Ok && b.iNext == 1 + pages && b.nPagecount == |src| && b.nRemaining == |src| - pages && b.isAttached
  {
    hide At, Sized, PageSize, Good, Copies;
    assert s > 0 && d > 0 by { PositiveSizes(s, d); }
    b := new BackupState(src, s, dest, d, false, false);
    ghost var f, v := b.Files(), b.Now();
    var rc := b.Step(pages, AllOk);
    StepCopies(f, v, pages, AllOk, b.Now());
  }

  /** What a full copy is, page by page: apart from the lock page and the header
      fields, byte `i` of source page `q` stands at the same offset in the file. */
  lemma FullCopyMeans(f: Files, src: seq<Page>, dest: Pages, q: nat, i: nat)
    requires FullCopy(f, src, dest) && q < |src| && |src[q]| == f.s && i < f.s && q != 0x40000000 / f.s
    requires q == 0 ==> !(40 <= i < 44) && (f.wal ==> i != 18 && i != 19)
    ensures var off := q * f.s + i;
            src[q][i] == if off / f.d + 1 in dest && off % f.d < |dest[off / f.d + 1]| then dest[off / f.d + 1][off % f.d] else 0
  {
    var off := q * f.s + i;
    Locate(off, f.s, q);
    Below(q, |src|, f.s);
    MulMono(q + 1, |src|, f.s);
    InLock(f.s, off);
    if q > 0 { MulMono(1, q, f.s); }
    assert f.s >= 512;
    assert SourceAt(src, f.s, off) == src[q][i];
  }

  /** The copy has the length of the source, but for a source that ends in its own
      lock page and larger pages of the destination. */
  lemma FinalSizeMeans(n: nat, s: nat, d: nat)
    ensures s >= d || n * s != 0x40000000 + s ==> FinalSize(n, s, d) == n * s
    ensures s < d && n * s == 0x40000000 + s ==> FinalSize(n, s, d) == 0x40000000
  {
  }

  // ---- which failure is reported ----

  function FirstFailure(results: seq<Rc>, none: Rc): Rc {
    if results == [] then none else if results[0] != Ok then results[0] else FirstFailure(results[1..], none)
  }

  /** The locks are tried in this order, and the first that fails is reported. */
  lemma OpenIsFirst(f: Files, io: Io, locked: bool)
    ensures OpenResult(f, io, locked)
         == FirstFailure([if io.writing then Busy else Ok, if locked then Ok else io.lock, io.open, if f.wal && f.s != f.d then Readonly else Ok], Ok)
  {
    FirstOfFour(if io.writing then Busy else Ok, if locked then Ok else io.lock, io.open, if f.wal && f.s != f.d then Readonly else Ok, Ok);
  }

  lemma FirstOfFour(a: Rc, b: Rc, c: Rc, d: Rc, none: Rc)
    ensures FirstFailure([a, b, c, d], none) == if a != Ok then a else if b != Ok then b else if c != Ok then c else if d != Ok then d else none
  {
    assert [a, b, c, d][1..] == [b, c, d] && [b, c, d][1..] == [c, d] && [c, d][1..] == [d] && [d][1..] == [];
    assert FirstFailure([d], none) == if d != Ok then d else none;
    assert FirstFailure([c, d], none) == if c != Ok then c else FirstFailure([d], none);
    assert FirstFailure([b, c, d], none) == if b != Ok then b else FirstFailure([c, d], none);
  }

  /** So are the stages of the commit: the header, the format version of a WAL
      destination, the first phase, the extra pages, truncation and sync where the
      source has smaller pages, and the second phase. */
  lemma CommitIsFirst(f: Files, n: nat, io: Io)
    ensures var extra := ExtraResult(f.s, io, PENDING_BYTE + f.s, ExtraEnd(n * f.s, f.d));
            var version := if f.wal then io.version else Ok;
            CommitResult(f, n, io)
            == if f.s < f.d then FirstFailure([io.meta, version, io.phaseOne, extra], FirstFailure([io.truncate, io.sync, io.phaseTwo, Ok], Done))
               else FirstFailure([io.meta, version, io.phaseOne, io.phaseTwo], Done)
  {
    hide ExtraResult;
    var extra := ExtraResult(f.s, io, PENDING_BYTE + f.s, ExtraEnd(n * f.s, f.d));
    var version := if f.wal then io.version else Ok;
    var last := FirstFailure([io.truncate, io.sync, io.phaseTwo, Ok], Done);
    FirstOfFour(io.truncate, io.sync, io.phaseTwo, Ok, Done);
    FirstOfFour(io.meta, version, io.phaseOne, extra, last);
    FirstOfFour(io.meta, version, io.phaseOne, io.phaseTwo, Done);
  }

  /** The schema cookie is written with its highest byte first, and read so. */
  lemma CookieMeans(pages: Pages, n: nat, v: nat)
    requires n > 0 && forall off: nat :: 40 <= off < 44 ==> At(pages, n, off) == BigEndian(v)[off - 40]
    ensures Cookie(pages, n) == v % 0x1_0000_0000
    ensures BigEndian(0x01020304) == [1, 2, 3, 4]
  {
    hide At;
    var b := BigEndian(v);
    assert At(pages, n, 40) == b[0] && At(pages, n, 41) == b[1] && At(pages, n, 42) == b[2] && At(pages, n, 43) == b[3];
    FourBytes(v);
  }

  lemma FourBytes(v: nat)
    ensures v / 0x1000000 % 256 * 0x1000000 + v / 0x10000 % 256 * 0x10000 + v / 0x100 % 256 * 0x100 + v % 256 == v % 0x1_0000_0000
  {
    var a, b, c := v / 0x100, v / 0x10000, v / 0x1000000;
    assert v == 0x100 * a + v % 256 && a == 256 * b + a % 256 && b == 256 * c + b % 256;
    var d := c / 256;
    assert c == 256 * d + c % 256;
    assert v == 0x1_0000_0000 * d + (c % 256 * 0x1000000 + b % 256 * 0x10000 + a % 256 * 0x100 + v % 256);
  }
}
