/** The files of an online backup, whose page sizes may differ: pages and bytes,
    copying one page, and the size and extra pages of the finished copy. */
module BackupPages {
  import opened Varint

  type Page = seq<Byte>
  type Pages = map<nat, Page>

  const PENDING_BYTE := 0x40000000

  predicate PageSize(n: nat) {
    n == 512 || n == 1024 || n == 2048 || n == 4096 || n == 8192 || n == 16384 || n == 32768 || n == 65536
  }

  /** The page holding the pending byte, never used for content. */
  function LockPage(n: nat): nat
    requires n > 0
  {
    PENDING_BYTE / n + 1
  }

  predicate InLockPage(n: nat, off: nat) {
    PENDING_BYTE <= off < PENDING_BYTE + n
  }

  function PageNo(off: nat, n: nat): nat
    requires n > 0
  {
    off / n + 1
  }

  /** The file offset of a page. */
  function PageStart(pg: nat, n: nat): nat
    requires pg >= 1
  {
    (pg - 1) * n
  }

  function InPage(off: nat, n: nat): nat
    requires n > 0
  {
    off % n
  }

  /** The byte at a file offset. */
  function At(pages: Pages, n: nat, off: nat): Byte
    requires n > 0
  {
    var q, o := PageNo(off, n), InPage(off, n);
    if q in pages && o < |pages[q]| then pages[q][o] else 0
  }

  function SourceAt(src: seq<Page>, n: nat, off: nat): Byte
    requires n > 0
  {
    var q := off / n;
    if q < |src| && off % n < |src[q]| then src[q][off % n] else 0
  }

  function PageOf(pages: Pages, n: nat, q: nat): Page {
    if q in pages then pages[q] else seq(n, i => 0)
  }

  predicate Sized(pages: Pages, n: nat) {
    forall q :: q in pages ==> |pages[q]| == n
  }

  /** Overwrites part of a page. */
  function Patch(pages: Pages, n: nat, q: nat, o: nat, data: seq<Byte>): (r: Pages)
    requires Sized(pages, n) && o + |data| <= n
    ensures Sized(r, n)
  {
    var page := PageOf(pages, n, q);
    pages[q := page[..o] + data + page[o + |data|..]]
  }

  // ---- arithmetic ----

  lemma MulMono(a: nat, b: nat, n: nat)
    requires n > 0
    ensures a <= b ==> a * n <= b * n
  {
  }

  lemma Locate(off: nat, n: nat, q: nat)
    requires n > 0
    ensures off / n == q <==> q * n <= off < q * n + n
    ensures off / n == q ==> off % n == off - q * n
  {
    var k := off / n;
    assert off == k * n + off % n;
    MulMono(k + 1, q, n);
    MulMono(q + 1, k, n);
  }

  lemma PatchAt(pages: Pages, n: nat, q: nat, o: nat, data: seq<Byte>, off: nat)
    requires Sized(pages, n) && o + |data| <= n && n > 0 && q >= 1
    ensures var lo := (q - 1) * n + o;
            At(Patch(pages, n, q, o, data), n, off) == if lo <= off < lo + |data| then data[off - lo] else At(pages, n, off)
  {
    Locate(off, n, q - 1);
  }

  /** The larger of two page sizes is a multiple of the smaller, and the pending
      byte starts a page of either size. */
  lemma Multiple(a: nat, b: nat) returns (k: nat)
    requires PageSize(a) && PageSize(b) && a <= b
    ensures k >= 1 && b == k * a
  {
    k := b / a;
  }

  lemma LockPageStart(n: nat)
    requires PageSize(n)
    ensures (LockPage(n) - 1) * n == PENDING_BYTE && LockPage(n) >= 1
  {
  }

  lemma InLock(n: nat, off: nat)
    requires PageSize(n)
    ensures InLockPage(n, off) <==> off / n + 1 == LockPage(n)
  {
    LockPageStart(n);
    Locate(off, n, LockPage(n) - 1);
  }

  lemma Spread(q: nat, k: nat, r: nat, c: nat)
    ensures (q * k + r) * c == q * (k * c) + r * c
    ensures (r + 1) * c == r * c + c
  {
  }

  /** A chunk of `c` bytes at a multiple of `c` stays inside one page of `k * c`
      bytes. */
  lemma ChunkFits(m: nat, c: nat, k: nat)
    requires c > 0 && k > 0
    ensures m * c % (k * c) + c <= k * c
    ensures m * c / (k * c) == m / k
  {
    var q, r := m / k, m % k;
    assert m == q * k + r;
    Spread(q, k, r, c);
    MulMono(r + 1, k, c);
    Locate(m * c, k * c, q);
  }

  // ---- copying one page ----

  /** `now` is `before` with the bytes of `data` (whose first byte belongs at
      `base`) written at the offsets from `base` to `hi`, except in the lock
      page. */
  ghost predicate Copied(before: Pages, now: Pages, n: nat, data: Page, base: nat, hi: int)
    requires n > 0 && hi <= base + |data|
  {
    forall off: nat :: At(now, n, off) == if base <= off < hi && !InLockPage(n, off) then data[off - base] else At(before, n, off)
  }

  /** Where the chunk at `off` lies in both files. */
  lemma Chunk(s: nat, d: nat, pg: nat, off: nat)
    requires PageSize(s) && PageSize(d) && pg >= 1 && PageStart(pg, s) <= off < PageStart(pg, s) + s
    requires s > d ==> InPage(off, d) == 0
    requires s <= d ==> off == PageStart(pg, s)
    ensures var c := if s < d then s else d;
            && PageNo(off, s) == pg && InPage(off, s) == off - PageStart(pg, s) && off + c <= PageStart(pg, s) + s
            && InPage(off, d) + c <= d
            && (s > d ==> InPage(off + d, d) == 0)
  {
    hide PageSize;
    Locate(off, s, pg - 1);
    if s <= d {
      var k := Multiple(s, d);
      ChunkFits(pg - 1, s, k);
    } else {
      var k := Multiple(d, s);
      SmallChunk(k, d, pg, off);
    }
  }

  lemma Aligned(s: nat, d: nat, pg: nat)
    requires PageSize(s) && PageSize(d) && pg >= 1 && s > d
    ensures InPage(PageStart(pg, s), d) == 0
  {
    hide PageSize;
    var k := Multiple(d, s);
    Spread(pg - 1, k, 0, d);
    Locate(PageStart(pg, s), d, (pg - 1) * k);
  }

  lemma PageStartMono(p: nat, q: nat, n: nat)
    requires 1 <= p <= q && n > 0
    ensures PageStart(p, n) <= PageStart(q, n)
  {
    MulMono(p - 1, q - 1, n);
  }

  lemma SmallChunk(k: nat, d: nat, pg: nat, off: nat)
    requires d > 0 && InPage(off, d) == 0 && off < pg * (k * d)
    ensures off + d <= pg * (k * d) && InPage(off + d, d) == 0
  {
    var m := off / d;
    assert off == m * d;
    Spread(pg, k, 0, d);
    MulMono(pg * k, m, d);
    MulMono(m + 1, pg * k, d);
    Locate(off + d, d, m + 1);
  }

  lemma {:induction false} ChunkCopied(before: Pages, now: Pages, n: nat, data: Page, base: nat, off: nat, c: nat)
    requires PageSize(n) && Sized(now, n) && base <= off && off + c <= base + |data| && InPage(off, n) + c <= n && c > 0
    requires Copied(before, now, n, data, base, off)
    ensures PageNo(off, n) == LockPage(n) ==> Copied(before, now, n, data, base, off + c)
    ensures PageNo(off, n) != LockPage(n) ==>
              Copied(before, Patch(now, n, PageNo(off, n), InPage(off, n), data[off - base..off - base + c]), n, data, base, off + c)
  {
    hide Patch;
    var q := PageNo(off, n);
    assert off == (q - 1) * n + InPage(off, n);
    assert forall x: nat :: off <= x < off + c ==> (InLockPage(n, x) <==> q == LockPage(n)) by {
      forall x: nat | off <= x < off + c ensures InLockPage(n, x) <==> q == LockPage(n) {
        Locate(x, n, q - 1);
        InLock(n, x);
      }
    }
    if q != LockPage(n) {
      var piece := data[off - base..off - base + c];
      forall x: nat
        ensures At(Patch(now, n, q, InPage(off, n), piece), n, x)
             == if base <= x < off + c && !InLockPage(n, x) then data[x - base] else At(before, n, x)
      {
        PatchAt(now, n, q, InPage(off, n), piece, x);
      }
    }
  }

  // ---- which pages can be written ----

  datatype Rc = Ok | Busy | Locked | Readonly | IoError | Done
  /** What an I/O primitive may report. */
  type IoRc = r: Rc | r != Done witness Ok

  /** The byte at `off` is to be written, and its page cannot be. */
  predicate Blocked(write: nat -> IoRc, n: nat, off: nat)
    requires n > 0
  {
    !InLockPage(n, off) && write(PageNo(off, n)) != Ok
  }

  /** The first byte between two offsets that cannot be written. */
  ghost function FirstBlocked(write: nat -> IoRc, n: nat, lo: nat, hi: nat): (r: nat)
    requires n > 0 && lo <= hi
    ensures lo <= r <= hi && (r < hi ==> Blocked(write, n, r))
    ensures forall off: nat :: lo <= off < r ==> !Blocked(write, n, off)
    decreases hi - lo
  {
    if lo == hi || Blocked(write, n, lo) then lo else FirstBlocked(write, n, lo + 1, hi)
  }

  ghost predicate Free(write: nat -> IoRc, n: nat, lo: nat, hi: nat)
    requires n > 0
  {
    forall off: nat :: lo <= off < hi ==> !Blocked(write, n, off)
  }

  lemma FirstBlockedIs(write: nat -> IoRc, n: nat, lo: nat, hi: nat, r: nat)
    requires n > 0 && lo <= r <= hi && Free(write, n, lo, r)
    ensures r == hi || Blocked(write, n, r) ==> FirstBlocked(write, n, lo, hi) == r
  {
    hide Blocked;
  }

  /** A chunk lies on one destination page, so it is written or not as a whole. */
  lemma ChunkBlocked(write: nat -> IoRc, n: nat, base: nat, off: nat, c: nat)
    requires PageSize(n) && base <= off && InPage(off, n) + c <= n && c > 0 && Free(write, n, base, off)
    ensures var fine := PageNo(off, n) == LockPage(n) || write(PageNo(off, n)) == Ok;
            if fine then Free(write, n, base, off + c) else Blocked(write, n, off)
  {
    assert n > 0;
    hide InLockPage, LockPage, PageSize;
    var q := PageNo(off, n) - 1;
    assert off == q * n + InPage(off, n);
    InLock(n, off);
    forall x: nat | off <= x < off + c ensures x / n == q && (InLockPage(n, x) <==> q + 1 == LockPage(n)) {
      Locate(x, n, q);
      InLock(n, x);
    }
  }

  lemma Start(pages: Pages, n: nat, data: Page, base: nat, write: nat -> IoRc)
    requires n > 0
    ensures Copied(pages, pages, n, data, base, base) && Free(write, n, base, base)
  {
  }

  // ---- the end of a backup ----

  function BigEndian(v: nat): (b: seq<Byte>)
    ensures |b| == 4
  {
    [v / 0x1000000 % 256, v / 0x10000 % 256, v / 0x100 % 256, v % 256]
  }

  function ExtraEnd(iSize: nat, d: nat): nat {
    if PENDING_BYTE + d < iSize then PENDING_BYTE + d else iSize
  }

  /** The length of a file of `size` bytes once the extra pages are written. */
  function ExtraSize(size: nat, iSize: nat, s: nat, d: nat): nat {
    var end := ExtraEnd(iSize, d);
    if PENDING_BYTE + s < end && end > size then end else size
  }

  predicate OnBoundary(off: nat, n: nat)
    requires n > 0
  {
    off % n == 0
  }

  ghost predicate Mirrored(before: Pages, now: Pages, n: nat, src: seq<Page>, s: nat, lo: nat, hi: nat)
    requires n > 0 && s > 0
  {
    forall off: nat :: At(now, n, off) == if lo <= off < hi then SourceAt(src, s, off) else At(before, n, off)
  }

  lemma MirroredNone(pages: Pages, n: nat, src: seq<Page>, s: nat, lo: nat)
    requires n > 0 && s > 0
    ensures Mirrored(pages, pages, n, src, s, lo, lo)
  {
  }

  lemma ExtraStart(s: nat, d: nat, iSize: nat)
    requires PageSize(s) && PageSize(d) && s < d
    ensures OnBoundary(PENDING_BYTE + s, s)
  {
  }

  /** Writing one extra page. */
  lemma ExtraChunk(before: Pages, now: Pages, d: nat, src: seq<Page>, s: nat, off: nat)
    requires PageSize(s) && PageSize(d) && s < d && Sized(now, d)
    requires forall i :: 0 <= i < |src| ==> |src[i]| == s
    requires OnBoundary(off, s) && PENDING_BYTE + s <= off < ExtraEnd(|src| * s, d)
    requires Mirrored(before, now, d, src, s, PENDING_BYTE + s, off)
    ensures 1 <= PageNo(off, s) <= |src| && InPage(off, d) + s <= d
    ensures OnBoundary(off + s, s) && off + s <= ExtraEnd(|src| * s, d)
    ensures Mirrored(before, Patch(now, d, PageNo(off, d), InPage(off, d), src[PageNo(off, s) - 1]), d, src, s, PENDING_BYTE + s, off + s)
  {
    hide Patch, At, SourceAt, PageSize, Sized;
    ExtraFits(s, d, |src|, off);
    var q := PageNo(off, s);
    forall x: nat
      ensures At(Patch(now, d, PageNo(off, d), InPage(off, d), src[q - 1]), d, x)
           == if PENDING_BYTE + s <= x < off + s then SourceAt(src, s, x) else At(before, d, x)
    {
      PatchAt(now, d, PageNo(off, d), InPage(off, d), src[q - 1], x);
      if off <= x < off + s { SourceInPage(src, s, q, x); }
    }
  }

  lemma ExtraFits(s: nat, d: nat, n: nat, off: nat)
    requires PageSize(s) && PageSize(d) && s < d && OnBoundary(off, s) && off < ExtraEnd(n * s, d)
    ensures 1 <= PageNo(off, s) <= n && InPage(off, d) + s <= d && PageStart(PageNo(off, s), s) == off
    ensures (PageNo(off, d) - 1) * d + InPage(off, d) == off
    ensures OnBoundary(off + s, s) && off + s <= ExtraEnd(n * s, d)
  {
    var k := Multiple(s, d);
    LockPageStart(s);
    var l := LockPage(s) - 1;
    hide PageSize, LockPage;
    var m := off / s;
    assert off == m * s;
    ChunkFits(m, s, k);
    Locate(off + s, s, m + 1);
    Below(m, n, s);
    Spread(1, l, k, s);
    Below(m, l + k, s);
  }

  lemma Below(m: nat, n: nat, s: nat)
    requires s > 0
    ensures m * s < n * s ==> m < n && m * s + s <= n * s
  {
    MulMono(n, m, s);
    MulMono(m + 1, n, s);
  }

  lemma MirroredLock(before: Pages, now: Pages, n: nat, src: seq<Page>, s: nat, hi: nat)
    requires n > 0 && s > 0 && hi <= PENDING_BYTE + n && Mirrored(before, now, n, src, s, PENDING_BYTE + s, hi)
    ensures forall off: nat :: !InLockPage(n, off) ==> At(now, n, off) == At(before, n, off)
    ensures forall off: nat :: PENDING_BYTE + s <= off < hi ==> At(now, n, off) == SourceAt(src, s, off)
  {
  }

  /** How many pages the destination is cut to. */
  function TruncatedPages(n: nat, s: nat, d: nat): nat
    requires s > 0 && d > 0
  {
    if s < d then
      var ratio := d / s;
      var t := (n + ratio - 1) / ratio;
      if t == LockPage(d) then t - 1 else t
    else n * (s / d)
  }

  function FirstPages(pages: Pages, n: nat): Pages {
    map q | q in pages && q <= n :: pages[q]
  }

  /** The destination ends as long as the source, except that a source ending in
      its own lock page loses that page when the destination's pages are larger. */
  function FinalSize(n: nat, s: nat, d: nat): nat {
    if s < d && n * s == PENDING_BYTE + s then PENDING_BYTE else n * s
  }

  lemma CeilBounds(n: nat, k: nat)
    requires k > 0
    ensures var t := (n + k - 1) / k; n <= t * k && (n > 0 ==> t >= 1 && (t - 1) * k < n)
  {
    var t := (n + k - 1) / k;
    assert n + k - 1 == t * k + (n + k - 1) % k;
  }

  /** The size cut to, as asserted when the source pages are the smaller ones:
      enough for the whole source unless it ends inside the lock page. */
  lemma TruncatedSize(n: nat, s: nat, d: nat)
    requires PageSize(s) && PageSize(d) && s < d
    ensures var t := TruncatedPages(n, s, d);
            if PENDING_BYTE < n * s <= PENDING_BYTE + d then t == LockPage(d) - 1 && t * d == PENDING_BYTE else t * d >= n * s
  {
    var k := Multiple(s, d);
    LockPageStart(d);
    hide PageSize, LockPage;
    Locate(d, s, k);
    CeilBounds(n, k);
    CeilSize(n, s, k, (n + k - 1) / k, LockPage(d));
  }

  lemma CeilSize(n: nat, s: nat, k: nat, t: nat, l: nat)
    requires s > 0 && k > 0 && l >= 1 && n <= t * k && (n > 0 ==> t >= 1 && (t - 1) * k < n)
    ensures n * s <= t * (k * s)
    ensures n > 0 ==> (t == l <==> (l - 1) * (k * s) < n * s <= (l - 1) * (k * s) + k * s)
  {
    Spread(t, k, 0, s);
    MulMono(n, t * k, s);
    if n > 0 {
      Spread(t - 1, k, 0, s);
      Strict((t - 1) * k, n, s);
      Locate(n * s - 1, k * s, t - 1);
      Locate(n * s - 1, k * s, l - 1);
    }
  }

  lemma Strict(a: nat, b: nat, s: nat)
    requires a < b && s > 0
    ensures a * s < b * s
  {
    MulMono(a + 1, b, s);
  }

  lemma SizeFinal(n: nat, s: nat, d: nat)
    requires PageSize(s) && PageSize(d)
    ensures var cut := TruncatedPages(n, s, d) * d;
            if s < d then
              var size := ExtraSize(cut, n * s, s, d);
              (if size > n * s then n * s else size) == FinalSize(n, s, d)
            else cut == FinalSize(n, s, d)
  {
    LockPageStart(s);
    if s < d {
      TruncatedSize(n, s, d);
      Below(LockPage(s) - 1, n, s);
    } else {
      var k := Multiple(d, s);
      hide PageSize, LockPage;
      Locate(s, d, k);
      Spread(n, k, 0, d);
    }
  }

  /** Every content byte lies on a page that is kept. */
  lemma TruncatedCovers(n: nat, s: nat, d: nat, off: nat)
    requires PageSize(s) && PageSize(d) && off < n * s && !InLockPage(d, off)
    ensures PageNo(off, d) <= TruncatedPages(n, s, d)
  {
    var t := TruncatedPages(n, s, d);
    if s < d {
      TruncatedSize(n, s, d);
    } else {
      SizeFinal(n, s, d);
    }
    assert off < t * d;
    hide PageSize, LockPage, TruncatedPages;
    Locate(off, d, off / d);
    MulMono(t, off / d, d);
  }

  lemma TruncatedKeeps(pages: Pages, n: nat, s: nat, d: nat)
    requires PageSize(s) && PageSize(d) && Sized(pages, d)
    ensures Sized(FirstPages(pages, TruncatedPages(n, s, d)), d)
    ensures forall off: nat :: off < n * s && !InLockPage(d, off) ==>
              At(FirstPages(pages, TruncatedPages(n, s, d)), d, off) == At(pages, d, off)
    ensures n > 0 ==> forall off: nat :: off < 44 ==> At(FirstPages(pages, TruncatedPages(n, s, d)), d, off) == At(pages, d, off)
  {
    hide TruncatedPages;
    forall off: nat | off < n * s && !InLockPage(d, off) ensures PageNo(off, d) <= TruncatedPages(n, s, d) {
      TruncatedCovers(n, s, d, off);
    }
    if n > 0 { MulMono(1, n, s); }
  }

  lemma SourceInPage(src: seq<Page>, s: nat, pg: nat, off: nat)
    requires s > 0 && 1 <= pg <= |src| && |src[pg - 1]| == s && PageStart(pg, s) <= off < PageStart(pg, s) + s
    ensures SourceAt(src, s, off) == src[pg - 1][off - PageStart(pg, s)]
  {
    Locate(off, s, pg - 1);
  }

  // ---- the source changes ----

  /** The pages a writer can write: an existing one, or the next one after the
      end, the lock page being stepped over. */
  predicate Writes(n: nat, s: nat, pg: nat)
    requires s > 0
  {
    1 <= pg && pg != LockPage(s) && (pg <= n + 1 || (pg == n + 2 && n + 1 == LockPage(s)))
  }

  function Written(src: seq<Page>, s: nat, pg: nat, data: Page): (r: seq<Page>)
    requires s > 0 && Writes(|src|, s, pg)
    ensures |src| <= |r| && pg <= |r| && r[pg - 1] == data
  {
    if pg <= |src| then src[pg - 1 := data]
    else if pg == |src| + 1 then src + [data]
    else src + [seq(s, i => 0)] + [data]
  }

  function Shrunk(src: seq<Page>, n: nat): (r: seq<Page>)
    ensures r <= src && |r| == if |src| < n then |src| else n
  {
    if n < |src| then src[..n] else src
  }

  /** Outside the written page and the lock page the source is as it was. */
  lemma WrittenAt(src: seq<Page>, s: nat, pg: nat, data: Page, off: nat)
    requires PageSize(s) && Writes(|src|, s, pg) && |data| == s
    requires off < |Written(src, s, pg, data)| * s && !InLockPage(s, off)
    ensures var base := PageStart(pg, s);
            if base <= off < base + s then SourceAt(Written(src, s, pg, data), s, off) == data[off - base]
            else off < |src| * s && SourceAt(Written(src, s, pg, data), s, off) == SourceAt(src, s, off)
  {
    InLock(s, off);
    hide InLockPage, LockPage, PageSize;
    var q := off / s;
    Locate(off, s, pg - 1);
    Locate(off, s, q);
    MulMono(|Written(src, s, pg, data)|, q, s);
    MulMono(q + 1, |src|, s);
  }
}
