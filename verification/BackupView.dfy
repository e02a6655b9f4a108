/** The online backup as a state machine: what every event does to the cursor,
    the result code and the bytes of the destination. */
module BackupView {
  import opened BackupPages

  datatype Form = Form(s: nat, d: nat, memdb: bool, wal: bool)
  /** The page sizes of both files and the kind of the destination. */
  type Files = f: Form | f.s > 0 && f.d > 0 && PageSize(f.s) && PageSize(f.d) witness Form(512, 512, false, false)

  /** The state of a backup. */
  datatype View = View(src: seq<Page>, dest: Pages, iNext: nat, rc: Rc, bDestLocked: bool, isAttached: bool, size: nat)

  predicate Fatal(rc: Rc) {
    rc != Ok && rc != Busy && rc != Locked
  }

  ghost predicate Good(f: Files, v: View) {
    && Sized(v.dest, f.d) && (forall i :: 0 <= i < |v.src| ==> |v.src[i]| == f.s)
    && v.iNext >= 1 && (v.iNext > 1 ==> v.bDestLocked)
  }

  /** All the I/O a step may do: whether the source is being written, the locks,
      the page reads and writes (by source page, then destination page), and the
      stages of the commit. */
  datatype Io = Io(writing: bool, lock: IoRc, open: IoRc, read: nat -> IoRc, write: nat -> nat -> IoRc,
                   meta: IoRc, version: IoRc, phaseOne: IoRc, extra: nat -> IoRc, truncate: IoRc, sync: IoRc, phaseTwo: IoRc)

  datatype Event =
    | StepEvent(pages: int, io: Io)
    | WriteEvent(pg: nat, data: Page, write: nat -> IoRc)
    | ShrinkEvent(n: nat)
    | RestartEvent(now: seq<Page>)

  /** Page buffers have the size of a page. */
  ghost predicate Fitting(f: Files, e: Event) {
    match e
    case StepEvent(_, _) => true
    case WriteEvent(_, data, _) => |data| == f.s
    case ShrinkEvent(_) => true
    case RestartEvent(now) => forall i :: 0 <= i < |now| ==> |now[i]| == f.s
  }

  // ---- what a step reports ----

  /** Whether pages can be copied at all between pages of these sizes. */
  predicate Copyable(f: Files) {
    f.s == f.d || !f.memdb
  }

  /** The offset up to which a page is copied, and the result. */
  ghost function WriteEnd(f: Files, write: nat -> IoRc, p: nat): (r: nat)
    requires p >= 1
    ensures PageStart(p, f.s) <= r <= PageStart(p, f.s) + f.s
  {
    if Copyable(f) then FirstBlocked(write, f.d, PageStart(p, f.s), PageStart(p, f.s) + f.s) else PageStart(p, f.s)
  }

  ghost function WriteResult(f: Files, write: nat -> IoRc, p: nat): (r: Rc)
    requires p >= 1
    ensures r != Done
  {
    var stop := WriteEnd(f, write, p);
    if !Copyable(f) then Readonly else if stop < PageStart(p, f.s) + f.s then write(PageNo(stop, f.d)) else Ok
  }

  ghost function CopyEnd(f: Files, io: Io, p: nat): (r: nat)
    requires p >= 1
    ensures PageStart(p, f.s) <= r <= PageStart(p, f.s) + f.s
  {
    if p == LockPage(f.s) then PageStart(p, f.s) + f.s
    else if io.read(p) != Ok then PageStart(p, f.s)
    else WriteEnd(f, io.write(p), p)
  }

  ghost function PageResult(f: Files, io: Io, p: nat): (r: Rc)
    requires p >= 1
    ensures r != Done
  {
    if p == LockPage(f.s) then Ok else if io.read(p) != Ok then io.read(p) else WriteResult(f, io.write(p), p)
  }

  /** The first page from `p` on that cannot be copied. */
  ghost function FirstFailing(f: Files, io: Io, p: nat, limit: nat): (r: nat)
    requires 1 <= p <= limit
    ensures p <= r <= limit && (r < limit ==> PageResult(f, io, r) != Ok)
    ensures forall q :: p <= q < r ==> PageResult(f, io, q) == Ok
    decreases limit - p
  {
    if p == limit || PageResult(f, io, p) != Ok then p else FirstFailing(f, io, p + 1, limit)
  }

  /** The page at which a step of so many pages (all if negative) would stop. */
  function Limit(next: nat, n: nat, pages: int): (r: nat)
    ensures next <= r
  {
    if next > n then next else if pages < 0 || next + pages > n then n + 1 else next + pages
  }

  /** What the locks report before any page is copied. */
  function OpenResult(f: Files, io: Io, locked: bool): (r: Rc)
    ensures r != Done
  {
    if io.writing then Busy
    else if !locked && io.lock != Ok then io.lock
    else if io.open != Ok then io.open
    else if f.wal && f.s != f.d then Readonly
    else Ok
  }

  function ExtraResult(s: nat, io: Io, off: nat, end: nat): (r: Rc)
    requires s > 0
    ensures r != Done
    decreases end - off
  {
    if off >= end then Ok
    else if io.extra(PageNo(off, s)) != Ok then io.extra(PageNo(off, s))
    else ExtraResult(s, io, off + s, end)
  }

  /** What resizing the destination reports. */
  function ResizeResult(f: Files, n: nat, io: Io): (r: Rc)
    ensures r != Done
  {
    if io.phaseOne != Ok || f.s >= f.d then io.phaseOne
    else
      var extra := ExtraResult(f.s, io, PENDING_BYTE + f.s, ExtraEnd(n * f.s, f.d));
      if extra != Ok then extra else if io.truncate != Ok then io.truncate else io.sync
  }

  /** What the stages of the commit report, for a source of `n` pages. */
  function CommitResult(f: Files, n: nat, io: Io): (r: Rc)
    ensures r != Ok
  {
    if io.meta != Ok then io.meta
    else if f.wal && io.version != Ok then io.version
    else if ResizeResult(f, n, io) != Ok then ResizeResult(f, n, io)
    else if io.phaseTwo != Ok then io.phaseTwo
    else Done
  }

  ghost function Stop(f: Files, v: View, pages: int, io: Io): (r: nat)
    requires v.iNext >= 1
    ensures v.iNext <= r <= Limit(v.iNext, |v.src|, pages)
  {
    FirstFailing(f, io, v.iNext, Limit(v.iNext, |v.src|, pages))
  }

  /** The result of a step once the locks are taken. */
  ghost function AdvanceResult(f: Files, v: View, pages: int, io: Io): Rc
    requires v.iNext >= 1
  {
    var limit, stop := Limit(v.iNext, |v.src|, pages), Stop(f, v, pages, io);
    if stop < limit then PageResult(f, io, stop)
    else if limit <= |v.src| then Ok
    else CommitResult(f, |v.src|, io)
  }

  /** The result of a step, from the state before it. */
  ghost function StepResult(f: Files, v: View, pages: int, io: Io): Rc
    requires v.iNext >= 1
  {
    if Fatal(v.rc) then v.rc
    else if OpenResult(f, io, v.bDestLocked) != Ok then OpenResult(f, io, v.bDestLocked)
    else AdvanceResult(f, v, pages, io)
  }

  // ---- what the destination holds ----

  /** Outside the lock pages of both files. */
  predicate Plain(f: Files, off: nat) {
    !InLockPage(f.s, off) && !InLockPage(f.d, off)
  }

  /** Header bytes set by the backup: the schema cookie and, for a WAL
      destination, the format versions. */
  predicate Rewritten(wal: bool, off: nat) {
    40 <= off < 44 || (wal && 18 <= off < 20)
  }

  /** The bytes from `lo` to `hi` come from the source; no other has changed. */
  ghost predicate CopiedFrom(f: Files, src: seq<Page>, before: Pages, now: Pages, lo: nat, hi: nat) {
    forall off: nat ::
      At(now, f.d, off) == if lo <= off < hi && Plain(f, off) then SourceAt(src, f.s, off) else At(before, f.d, off)
  }

  /** Destination bytes that ending the backup leaves alone: below the end of the
      source, outside the lock page and the rewritten header. */
  ghost predicate Kept(before: Pages, now: Pages, d: nat, wal: bool, end: nat)
    requires d > 0
  {
    forall off: nat :: off < end && !InLockPage(d, off) && !Rewritten(wal, off) ==> At(now, d, off) == At(before, d, off)
  }

  /** The pages that share the destination's lock page are there too. */
  ghost predicate Extras(f: Files, src: seq<Page>, now: Pages) {
    f.s < f.d ==> forall off: nat :: PENDING_BYTE + f.s <= off < ExtraEnd(|src| * f.s, f.d) ==> At(now, f.d, off) == SourceAt(src, f.s, off)
  }

  /** The end of a backup whose pages were all copied, as `copied`. */
  ghost predicate Finished(f: Files, src: seq<Page>, copied: Pages, now: Pages, rc: Rc, size: nat) {
    && Kept(copied, now, f.d, f.wal, |src| * f.s)
    && (rc == Done ==> Extras(f, src, now) && size == FinalSize(|src|, f.s, f.d))
  }

  // ---- the transitions ----

  /** Where a step goes once the locks are taken. */
  ghost predicate Copies(f: Files, v: View, pages: int, io: Io, w: View)
    requires v.iNext >= 1
  {
    var limit, stop, lo := Limit(v.iNext, |v.src|, pages), Stop(f, v, pages, io), PageStart(v.iNext, f.s);
    if stop < limit then
      && w.iNext == stop + 1 && w.isAttached == v.isAttached && w.size == v.size
      && CopiedFrom(f, v.src, v.dest, w.dest, lo, CopyEnd(f, io, stop))
    else if limit <= |v.src| then
      && w.iNext == limit && w.isAttached && w.size == v.size
      && CopiedFrom(f, v.src, v.dest, w.dest, lo, PageStart(limit, f.s))
    else
      && w.iNext == limit && w.isAttached == v.isAttached
      && exists copied ::
           CopiedFrom(f, v.src, v.dest, copied, lo, PageStart(limit, f.s)) && Finished(f, v.src, copied, w.dest, w.rc, w.size)
  }

  ghost predicate StepMoves(f: Files, v: View, pages: int, io: Io, w: View)
    requires v.iNext >= 1
  {
    && w.rc == StepResult(f, v, pages, io) && w.src == v.src
    && if Fatal(v.rc) then w == v
       else
         && w.bDestLocked == (v.bDestLocked || (!io.writing && io.lock == Ok))
         && if OpenResult(f, io, v.bDestLocked) != Ok then w == v.(rc := w.rc, bDestLocked := w.bDestLocked)
            else Copies(f, v, pages, io, w)
  }

  /** The backup hears of the write of a page. */
  predicate Heard(v: View, pg: nat) {
    v.isAttached && !Fatal(v.rc) && pg < v.iNext
  }

  ghost predicate WriteMoves(f: Files, v: View, pg: nat, data: Page, write: nat -> IoRc, w: View)
    requires |data| == f.s
  {
    if !Writes(|v.src|, f.s, pg) then w == v
    else
      && w == v.(src := Written(v.src, f.s, pg, data), dest := w.dest, rc := w.rc)
      && if Heard(v, pg) then
           && Copied(v.dest, w.dest, f.d, data, PageStart(pg, f.s), WriteEnd(f, write, pg))
           && w.rc == if WriteResult(f, write, pg) != Ok then WriteResult(f, write, pg) else v.rc
         else w.dest == v.dest && w.rc == v.rc
  }

  ghost predicate Moves(f: Files, v: View, e: Event, w: View)
    requires Good(f, v) && Fitting(f, e)
  {
    match e
    case StepEvent(pages, io) => StepMoves(f, v, pages, io, w)
    case WriteEvent(pg, data, write) => WriteMoves(f, v, pg, data, write, w)
    case ShrinkEvent(n) => w == v.(src := Shrunk(v.src, n))
    case RestartEvent(now) => w == v.(src := now, iNext := if v.isAttached then 1 else v.iNext)
  }

  /** A run of the state machine. */
  ghost predicate IsRun(f: Files, trace: seq<View>, events: seq<Event>) {
    && |trace| == |events| + 1
    && (forall i :: 0 <= i < |trace| ==> Good(f, trace[i]))
    && (forall i :: 0 <= i < |events| ==> Fitting(f, events[i]))
    && (forall i :: 0 <= i < |events| ==> Moves(f, trace[i], events[i], trace[i + 1]))
  }
}
