/**
 The page cache over a file (src/fs/new_vfs/page_cache.rs). The file on disk never changes here:
 writes stay in the cache. `content` is the byte string that the cached file stands for.
 */
module PageCache {
  import opened Collections
  import opened Address
  import opened Bytes

  datatype CachedPage = CachedPage(len: nat, data: seq<Byte>)

  function EmptyPage(): CachedPage { CachedPage(0, seq(PAGE_SIZE, _ => 0)) }

  type Pages = map<nat, CachedPage>

  function PageAt(c: seq<Byte>, a: nat): seq<Byte> { Slice(c, a, PAGE_SIZE) }

  /** A cached page with the bytes that `content` has at `at`, and zeros after them. */
  predicate Shows(content: seq<Byte>, at: nat, page: CachedPage) {
    && |page.data| == PAGE_SIZE && page.len <= PAGE_SIZE && page.data[..page.len] == PageAt(content, at)
    && forall i :: page.len <= i < PAGE_SIZE ==> page.data[i] == 0
  }

  /** The page at `a` shows what the content has there: the cached bytes if it is cached, else the disk's. */
  predicate PageRight(disk: seq<Byte>, pages: Pages, content: seq<Byte>, a: nat) {
    if a in pages then Shows(content, a, pages[a]) else PageAt(content, a) == PageAt(disk, a)
  }

  predicate PagesAligned(pages: Pages) { forall a :: a in pages ==> Aligned(a) }

  ghost predicate Refines(disk: seq<Byte>, pages: Pages, content: seq<Byte>) {
    forall a: nat :: Aligned(a) ==> PageRight(disk, pages, content, a)
  }

  /** `as_mut_slice()[off..].copy_from_slice(data)` after `try_update_len`. */
  function Put(p: CachedPage, off: nat, data: seq<Byte>): CachedPage
    requires |p.data| == PAGE_SIZE && off + |data| <= PAGE_SIZE
  {
    CachedPage(Max(p.len, off + |data|), p.data[..off] + data + p.data[off + |data|..])
  }

  function GetOrEmpty(pages: Pages, a: nat): CachedPage { if a in pages then pages[a] else EmptyPage() }

  /**
   What `get_or_alloc` may forget about the page at `a` when `[at, end)` is written there: nothing
   if the page is cached; else the bytes before the write, unless they are zero, and after it. An
   empty write beyond the end makes the page longer all the same.
   */
  predicate KeepsPage(pages: Pages, content: seq<Byte>, a: nat, at: nat, end: nat) {
    && (at == end ==> at <= |content| || at == a)
    && (|| a in pages
        || ((forall i :: a <= i < at && i < |content| ==> content[i] == 0)
            && (end < a + PAGE_SIZE ==> |content| <= end)))
  }

  /** A page read from the disk, or an empty one beyond its end. */
  function Load(disk: seq<Byte>, a: nat): CachedPage {
    var data := PageAt(disk, a);
    CachedPage(|data|, data + seq(if |data| < PAGE_SIZE then PAGE_SIZE - |data| else 0, _ => 0))
  }

  lemma PageBytes(c: seq<Byte>, a: nat)
    ensures |PageAt(c, a)| == if |c| <= a then 0 else Min(PAGE_SIZE, |c| - a)
    ensures forall i :: 0 <= i < |PageAt(c, a)| ==> PageAt(c, a)[i] == c[a + i]
  {
  }

  lemma PutBytes(p: CachedPage, off: nat, data: seq<Byte>)
    requires |p.data| == PAGE_SIZE && off + |data| <= PAGE_SIZE
    ensures |Put(p, off, data).data| == PAGE_SIZE && Put(p, off, data).len == Max(p.len, off + |data|)
    ensures forall i :: 0 <= i < PAGE_SIZE ==>
              Put(p, off, data).data[i] == if off <= i < off + |data| then data[i - off] else p.data[i]
  {
  }

  /** One page is written. */
  lemma PutHere(disk: seq<Byte>, pages: Pages, content: seq<Byte>, a: nat, at: nat, data: seq<Byte>)
    requires Aligned(a) && PageRight(disk, pages, content, a)
    requires a <= at < a + PAGE_SIZE && at + |data| <= a + PAGE_SIZE
    ensures |GetOrEmpty(pages, a).data| == PAGE_SIZE
    ensures PageRight(disk, pages[a := Put(GetOrEmpty(pages, a), at - a, data)], Written(content, at, data), a)
            <==> KeepsPage(pages, content, a, at, at + |data|)
  {
    hide Slice, Written, Put, Aligned, Shows;
    RightSize(disk, pages, content, a);
    if a in pages {
      PutCached(pages[a], content, a, at, data);
    } else {
      PutFresh(content, a, at, data);
    }
  }

  lemma PutCached(page: CachedPage, content: seq<Byte>, a: nat, at: nat, data: seq<Byte>)
    requires a <= at < a + PAGE_SIZE && at + |data| <= a + PAGE_SIZE && Shows(content, a, page)
    ensures Shows(Written(content, at, data), a, Put(page, at - a, data)) <==>
            (data == [] ==> at <= |content| || at == a)
  {
    hide Slice, Written, Put;
    var c, p := Written(content, at, data), Put(page, at - a, data);
    PutBytes(page, at - a, data);
    WrittenBytes(content, at, data);
    PageBytes(content, a);
    PageBytes(c, a);
    if data == [] ==> at <= |content| || at == a {
      forall i: nat | i < p.len
        ensures p.data[i] == PageAt(c, a)[i]
      {
        if i < page.len {
          assert page.data[..page.len][i] == PageAt(content, a)[i];
        }
      }
    } else {
      assert |PageAt(c, a)| == page.len < p.len;
    }
  }

  lemma PutFresh(content: seq<Byte>, a: nat, at: nat, data: seq<Byte>)
    requires a <= at < a + PAGE_SIZE && at + |data| <= a + PAGE_SIZE
    ensures Shows(Written(content, at, data), a, Put(EmptyPage(), at - a, data)) <==>
            KeepsPage(map[], content, a, at, at + |data|)
  {
    hide Slice, Written, Put;
    var c, p := Written(content, at, data), Put(EmptyPage(), at - a, data);
    PutBytes(EmptyPage(), at - a, data);
    WrittenBytes(content, at, data);
    PageBytes(c, a);
    if KeepsPage(map[], content, a, at, at + |data|) {
      forall i: nat | i < p.len
        ensures p.data[i] == PageAt(c, a)[i]
      {
      }
    } else if exists i :: a <= i < at && i < |content| && content[i] != 0 {
      var i :| a <= i < at && i < |content| && content[i] != 0;
      assert i - a < p.len && p.data[i - a] == 0;
      assert PageAt(c, a)[i - a] == content[i];
    } else {
      assert |PageAt(c, a)| != p.len;
    }
  }

  lemma PagesApart(a: nat, b: nat)
    requires Aligned(a) && Aligned(b) && a < b
    ensures a + PAGE_SIZE <= b
  {
    assert a == PAGE_SIZE * (a / PAGE_SIZE) && b == PAGE_SIZE * (b / PAGE_SIZE);
  }

  lemma NextPage(at: nat)
    requires Aligned(at)
    ensures forall a: nat :: Aligned(a) && at <= a < at + PAGE_SIZE ==> a == at
  {
    forall a: nat | Aligned(a) && at < a
      ensures at + PAGE_SIZE <= a
    {
      PagesApart(at, a);
    }
  }

  lemma PutElsewhere(disk: seq<Byte>, pages: Pages, content: seq<Byte>, a: nat, at: nat, data: seq<Byte>,
                     p: CachedPage, b: nat)
    requires Aligned(a) && Aligned(b) && a < b && a <= at && at + |data| <= a + PAGE_SIZE
    ensures PageRight(disk, pages[a := p], Written(content, at, data), b) <==> PageRight(disk, pages, content, b)
  {
    PagesApart(a, b);
    WrittenBytes(content, at, data);
    assert PageAt(Written(content, at, data), b) == PageAt(content, b);
  }

  /** A write to `[at, end)` goes through the page at `a`. */
  predicate Touched(a: nat, at: nat, end: nat) { a == Floor(at) || at < a < end }

  /** Exactly when `cached_write` loses nothing in the pages that it goes through. */
  ghost predicate WriteKeeps(pages: Pages, content: seq<Byte>, at: nat, end: nat) {
    forall a: nat :: Aligned(a) ==> TouchKeeps(pages, content, a, at, end)
  }

  predicate TouchKeeps(pages: Pages, content: seq<Byte>, a: nat, at: nat, end: nat) {
    Touched(a, at, end) ==> KeepsPage(pages, content, a, at, end)
  }

  /** The page at `a` is right, or was touched already and lost something. */
  predicate RightSoFar(disk: seq<Byte>, p0: Pages, c0: seq<Byte>, at: nat, end: nat, next: nat, pages: Pages,
                       c: seq<Byte>, a: nat) {
    PageRight(disk, pages, c, a) <==> (a < next ==> TouchKeeps(p0, c0, a, at, end))
  }

  /** The pages before the first one are as they were. */
  predicate SameBelow(p0: Pages, pages: Pages, first: nat) {
    forall a: nat :: a < first ==> (a in pages <==> a in p0) && (a in pages ==> pages[a] == p0[a])
  }

  /** `cached_write` after the pages below `next`, with `done` bytes written. */
  ghost predicate Writing(disk: seq<Byte>, p0: Pages, c0: seq<Byte>, at: nat, data: seq<Byte>, done: nat, next: nat,
                          pages: Pages) {
    && done <= |data| && (data != [] ==> done > 0) && Aligned(next) && Floor(at) < next && at < next
    && (if done < |data| then at + done == next else at + |data| <= next)
    && SameBelow(p0, pages, Floor(at))
    && (forall a :: next <= a ==> (a in pages <==> a in p0))
    && forall a: nat :: Aligned(a) && Floor(at) <= a ==>
         RightSoFar(disk, p0, c0, at, at + |data|, next, pages, Written(c0, at, data[..done]), a)
  }

  lemma WriteFirst(disk: seq<Byte>, p0: Pages, c0: seq<Byte>, at: nat, data: seq<Byte>)
    requires Refines(disk, p0, c0)
    ensures
      var a := Floor(at);
      var len := Min(|data|, PAGE_SIZE - (at - a));
      && |GetOrEmpty(p0, a).data| == PAGE_SIZE
      && Writing(disk, p0, c0, at, data, len, a + PAGE_SIZE,
                 p0[a := Put(GetOrEmpty(p0, a), at - a, data[..len])])
  {
    hide Floor, Written, Put, Refines, PageRight, KeepsPage;
    FloorFacts(at);
    var first := Floor(at);
    var len := Min(|data|, PAGE_SIZE - (at - first));
    RefinesAt(disk, p0, c0, first);
    RightSize(disk, p0, c0, first);
    var pages := p0[first := Put(GetOrEmpty(p0, first), at - first, data[..len])];
    var c := Written(c0, at, data[..len]);
    NextAligned(first);
    forall a: nat | Aligned(a) && first <= a
      ensures RightSoFar(disk, p0, c0, at, at + |data|, first + PAGE_SIZE, pages, c, a)
    {
      RefinesAt(disk, p0, c0, a);
      WriteFirstPage(disk, p0, c0, at, data, len, a);
    }
  }

  lemma WriteFirstPage(disk: seq<Byte>, p0: Pages, c0: seq<Byte>, at: nat, data: seq<Byte>, len: nat, a: nat)
    requires Aligned(a) && Floor(at) <= a && PageRight(disk, p0, c0, a)
    requires len == Min(|data|, PAGE_SIZE - (at - Floor(at))) && |GetOrEmpty(p0, Floor(at)).data| == PAGE_SIZE
    ensures RightSoFar(disk, p0, c0, at, at + |data|, Floor(at) + PAGE_SIZE,
                       p0[Floor(at) := Put(GetOrEmpty(p0, Floor(at)), at - Floor(at), data[..len])],
                       Written(c0, at, data[..len]), a)
  {
    hide Floor, Written, Put, PageRight;
    FloorFacts(at);
    var first := Floor(at);
    if a == first {
      PutHere(disk, p0, c0, a, at, data[..len]);
    } else {
      PutElsewhere(disk, p0, c0, first, at, data[..len], Put(GetOrEmpty(p0, first), at - first, data[..len]), a);
      PagesApart(first, a);
    }
  }

  lemma RefinesAt(disk: seq<Byte>, pages: Pages, c: seq<Byte>, a: nat)
    requires Refines(disk, pages, c) && Aligned(a)
    ensures PageRight(disk, pages, c, a)
  {
  }

  lemma FloorTwice(a: nat)
    ensures Floor(Floor(a)) == Floor(a)
  {
  }

  lemma FloorFacts(a: nat)
    ensures Aligned(Floor(a)) && Floor(a) <= a < Floor(a) + PAGE_SIZE
  {
  }

  lemma WriteMore(disk: seq<Byte>, p0: Pages, c0: seq<Byte>, at: nat, data: seq<Byte>, done: nat, next: nat,
                  pages: Pages)
    requires Writing(disk, p0, c0, at, data, done, next, pages) && done < |data|
    ensures
      var len := Min(|data| - done, PAGE_SIZE);
      && |GetOrEmpty(pages, next).data| == PAGE_SIZE
      && Writing(disk, p0, c0, at, data, done + len, next + PAGE_SIZE,
                 pages[next := Put(GetOrEmpty(pages, next), 0, data[done..done + len])])
  {
    hide Written, Put, Floor, KeepsPage, PageRight;
    var len := Min(|data| - done, PAGE_SIZE);
    var chunk := data[done..done + len];
    var c := Written(c0, at, data[..done]);
    assert RightSoFar(disk, p0, c0, at, at + |data|, next, pages, c, next);
    RightSize(disk, pages, c, next);
    var pages' := pages[next := Put(GetOrEmpty(pages, next), 0, chunk)];
    WrittenTwice(c0, at, data[..done], chunk);
    assert data[..done] + chunk == data[..done + len];
    var c' := Written(c, next, chunk);
    forall a: nat | Aligned(a) && Floor(at) <= a
      ensures RightSoFar(disk, p0, c0, at, at + |data|, next + PAGE_SIZE, pages', c', a)
    {
      assert RightSoFar(disk, p0, c0, at, at + |data|, next, pages, c, a);
      WriteMorePage(disk, p0, c0, at, data, done, next, pages, a);
    }
  }

  lemma RightSize(disk: seq<Byte>, pages: Pages, c: seq<Byte>, a: nat)
    requires PageRight(disk, pages, c, a)
    ensures |GetOrEmpty(pages, a).data| == PAGE_SIZE
  {
  }

  lemma WriteMorePage(disk: seq<Byte>, p0: Pages, c0: seq<Byte>, at: nat, data: seq<Byte>, done: nat, next: nat,
                      pages: Pages, a: nat)
    requires 0 < done < |data| && Aligned(next) && Aligned(a) && at < next && at + done == next
    requires next in pages <==> next in p0
    requires |GetOrEmpty(pages, next).data| == PAGE_SIZE
    requires RightSoFar(disk, p0, c0, at, at + |data|, next, pages, Written(c0, at, data[..done]), a)
    ensures
      var len := Min(|data| - done, PAGE_SIZE);
      var c := Written(c0, at, data[..done]);
      RightSoFar(disk, p0, c0, at, at + |data|, next + PAGE_SIZE,
                 pages[next := Put(GetOrEmpty(pages, next), 0, data[done..done + len])],
                 Written(c, next, data[done..done + len]), a)
  {
    hide Written, Put, Floor;
    var len := Min(|data| - done, PAGE_SIZE);
    var chunk := data[done..done + len];
    var c := Written(c0, at, data[..done]);
    WrittenBytes(c0, at, data[..done]);
    hide KeepsPage, PageRight, TouchKeeps;
    if a == next {
      PutHere(disk, pages, c, a, next, chunk);
      KeepsSame(p0, c0, at, data, done, next, pages);
    } else if next < a {
      PutElsewhere(disk, pages, c, next, next, chunk, Put(GetOrEmpty(pages, next), 0, chunk), a);
      PagesApart(next, a);
    } else {
      PutBehind(disk, pages, c, next, chunk, Put(GetOrEmpty(pages, next), 0, chunk), a);
    }
  }

  /** The pages before the one that the content reaches already stay as they are. */
  lemma PutBehind(disk: seq<Byte>, pages: Pages, content: seq<Byte>, at: nat, data: seq<Byte>, p: CachedPage, b: nat)
    requires Aligned(at) && Aligned(b) && b < at <= |content|
    ensures PageRight(disk, pages[at := p], Written(content, at, data), b) <==> PageRight(disk, pages, content, b)
  {
    PagesApart(b, at);
    WrittenBytes(content, at, data);
    assert PageAt(Written(content, at, data), b) == PageAt(content, b);
  }

  lemma KeepsSame(p0: Pages, c0: seq<Byte>, at: nat, data: seq<Byte>, done: nat, next: nat, pages: Pages)
    requires 0 < done < |data| && at + done == next && at < next && Aligned(next)
    requires next in pages <==> next in p0
    ensures
      var len := Min(|data| - done, PAGE_SIZE);
      KeepsPage(pages, Written(c0, at, data[..done]), next, next, next + len)
      <==> TouchKeeps(p0, c0, next, at, at + |data|)
  {
    var len := Min(|data| - done, PAGE_SIZE);
    var c := Written(c0, at, data[..done]);
    WrittenBytes(c0, at, data[..done]);
    assert Touched(next, at, at + |data|);
    if len < PAGE_SIZE {
      assert next + len == at + |data|;
    }
  }

  /**
   Exactly when `cached_write` leaves the written file in the cache: the pages that it goes through
   lose nothing, and the write does not skip a page, because the page with the old end would have to grow.
   */
  ghost predicate CachedWriteKeeps(pages: Pages, content: seq<Byte>, at: nat, n: nat) {
    WriteKeeps(pages, content, at, at + n) && (n == 0 || Floor(at) <= |content|)
  }

  lemma WriteDone(disk: seq<Byte>, p0: Pages, c0: seq<Byte>, at: nat, data: seq<Byte>, next: nat, pages: Pages)
    requires Refines(disk, p0, c0) && Writing(disk, p0, c0, at, data, |data|, next, pages)
    ensures Refines(disk, pages, Written(c0, at, data)) <==> CachedWriteKeeps(p0, c0, at, |data|)
  {
    hide PageRight, TouchKeeps, Written, Floor;
    var c := Written(c0, at, data);
    assert data[..|data|] == data;
    forall a: nat | Aligned(a) && Floor(at) <= a
      ensures PageRight(disk, pages, c, a) <==> TouchKeeps(p0, c0, a, at, at + |data|)
    {
      assert RightSoFar(disk, p0, c0, at, at + |data|, next, pages, c, a);
      if next <= a {
        NotTouched(p0, c0, a, at, at + |data|);
      }
    }
    forall a: nat | Aligned(a) && a < Floor(at)
      ensures TouchKeeps(p0, c0, a, at, at + |data|)
      ensures data == [] || Floor(at) <= |c0| ==> PageRight(disk, pages, c, a)
    {
      NotTouchedBelow(p0, c0, a, at, at + |data|);
      RefinesAt(disk, p0, c0, a);
      if data == [] || Floor(at) <= |c0| {
        BelowSame(disk, p0, c0, at, data, pages, a);
      }
    }
    if data != [] && |c0| < Floor(at) {
      FloorFacts(|c0|);
      RefinesAt(disk, p0, c0, Floor(|c0|));
      HoleWrong(disk, p0, c0, at, data, pages);
    }
  }

  lemma NotTouched(p0: Pages, c0: seq<Byte>, a: nat, at: nat, end: nat)
    requires Floor(at) < a && end <= a
    ensures TouchKeeps(p0, c0, a, at, end)
  {
  }

  lemma NotTouchedBelow(p0: Pages, c0: seq<Byte>, a: nat, at: nat, end: nat)
    requires a < Floor(at)
    ensures TouchKeeps(p0, c0, a, at, end)
  {
  }

  lemma BelowSame(disk: seq<Byte>, p0: Pages, c0: seq<Byte>, at: nat, data: seq<Byte>, pages: Pages, a: nat)
    requires Aligned(a) && a < Floor(at) && PageRight(disk, p0, c0, a) && SameBelow(p0, pages, Floor(at))
    requires data == [] || Floor(at) <= |c0|
    ensures PageRight(disk, pages, Written(c0, at, data), a)
  {
    hide Shows, Written;
    FloorFacts(at);
    PagesApart(a, Floor(at));
    WrittenBytes(c0, at, data);
    PageBytes(c0, a);
    PageBytes(Written(c0, at, data), a);
    assert PageAt(Written(c0, at, data), a) == PageAt(c0, a);
    ShowsSame(c0, Written(c0, at, data), a);
  }

  lemma ShowsSame(c: seq<Byte>, c': seq<Byte>, a: nat)
    requires PageAt(c, a) == PageAt(c', a)
    ensures forall p: CachedPage :: Shows(c, a, p) <==> Shows(c', a, p)
  {
  }

  /** The page with the old end is too short for the longer file. */
  lemma HoleWrong(disk: seq<Byte>, p0: Pages, c0: seq<Byte>, at: nat, data: seq<Byte>, pages: Pages)
    requires data != [] && |c0| < Floor(at) && SameBelow(p0, pages, Floor(at))
    requires PageRight(disk, p0, c0, Floor(|c0|))
    ensures !PageRight(disk, pages, Written(c0, at, data), Floor(|c0|))
  {
    var a := Floor(|c0|);
    FloorFacts(|c0|);
    FloorFacts(at);
    if a < Floor(at) {
      PagesApart(a, Floor(at));
    }
    WrittenBytes(c0, at, data);
    PageBytes(c0, a);
    PageBytes(Written(c0, at, data), a);
    assert |PageAt(c0, a)| < PAGE_SIZE == |PageAt(Written(c0, at, data), a)|;
  }

  class PageCacheFile {
    const disk: seq<Byte>
    var pages: Pages
    var avail: nat  // frames that the allocator can still hand out
    ghost var content: seq<Byte>

    constructor (disk: seq<Byte>, avail: nat)
      ensures Valid() && content == disk && pages == map[] && this.disk == disk && this.avail == avail
    {
      this.disk := disk;
      this.avail := avail;
      pages := map[];
      content := disk;
    }

    ghost predicate Valid()
      reads this
    {
      Refines(disk, pages, content) && |disk| <= |content| && PagesAligned(pages)
    }

    /** Every page of `[begin, end)` is cached or lies beyond the end of the file. */
    ghost predicate Prepared(begin: nat, end: nat)
      reads this
    {
      forall a: nat :: begin <= a < end && Aligned(a) ==> a in pages || |content| <= a
    }

    /**
     `perpare_range`; fails only when the allocator is empty, and even then shows the same file. It
     returns the number of bytes in the pages that it loaded.
     */
    method PerpareRange(offset: nat, len: nat) returns (ok: bool, total: nat)
      requires Valid()
      modifies this
      ensures Valid() && content == old(content)
      ensures forall a :: a in old(pages) ==> a in pages && pages[a] == old(pages)[a]
      ensures forall a :: a in pages && a !in old(pages) ==> Floor(offset) <= a < Ceil(offset + len)
      ensures ok ==> Prepared(Floor(offset), Ceil(offset + len)) && (len > 0 ==> Floor(offset) in pages)
      ensures ok ==> total == NewBytes(old(pages), pages, Floor(offset), Ceil(offset + len))
      ensures !ok ==> avail == 0
    {
      hide Refines, Floor, Ceil, Load, NewBytes, Aligned;
      var begin, end := Floor(offset), Ceil(offset + len);
      CeilAbove(offset, len);
      NewBytesNone(old(pages), pages, begin);
      var at := begin;
      total := 0;
      while at < end
        invariant begin <= at <= end && Aligned(at) && Valid() && content == old(content)
        invariant forall a :: a in old(pages) ==> a in pages && pages[a] == old(pages)[a]
        invariant forall a :: a in pages && a !in old(pages) ==> begin <= a < at
        invariant forall a: nat :: begin <= a < at && Aligned(a) ==> a in pages
        invariant total == NewBytes(old(pages), pages, begin, at)
      {
        ghost var was := pages;
        NextPage(at);
        NextAligned(at);
        PagesApart(at, end);
        if at !in pages {
          if avail == 0 {
            return false, total;
          }
          avail := avail - 1;
          CacheLoad(disk, pages, content, at);
          var page := Load(disk, at);
          pages := pages[at := page];
          total := total + page.len;
          NewBytesSame(old(pages), was, pages, begin, at);
          NewBytesMore(old(pages), pages, begin, at);
          if page.len != PAGE_SIZE {
            NewBytesUpTo(old(pages), pages, begin, at + PAGE_SIZE, end);
            return true, total;
          }
        } else {
          NewBytesMore(old(pages), pages, begin, at);
        }
        at := at + PAGE_SIZE;
      }
      return true, total;
    }

    /** `cached_read` */
    method CachedRead(offset: nat, buf: array<Byte>) returns (total: nat)
      requires Valid() && Prepared(Floor(offset), offset + buf.Length) && (buf.Length > 0 ==> Floor(offset) in pages)
      modifies buf
      ensures total == |Slice(content, offset, buf.Length)| && buf[..total] == Slice(content, offset, buf.Length)
      ensures buf[total..] == old(buf[total..])
    {
      hide Slice, Floor, Reading, Refines, ReadSoFar;
      var at: nat := Floor(offset);
      FloorFacts(offset);
      if at !in pages {
        NothingThere(content, offset, buf.Length);
        return 0;
      }
      var page := pages[at];
      RefinesAt(disk, pages, content, at);
      if offset - at >= page.len {
        BeyondEnd(content, offset, page, buf.Length);
        return 0;
      }
      FirstBytes(content, offset, page);
      ghost var was := buf[..];
      total := CopyPages(offset, buf, at, page, page.data[offset - at..page.len]);
      ReadAll(content, offset, total, buf.Length);
      ReadEnd(content, offset, total, was);
      assert buf[..total] == buf[..][..total] && buf[total..] == buf[..][total..];
    }

    /** The loop of `cached_read`: `pageBuf` is what the current page has to give. */
    method CopyPages(offset: nat, buf: array<Byte>, first: nat, firstPage: CachedPage, firstBuf: seq<Byte>)
      returns (total: nat)
      requires Valid() && Prepared(Floor(offset), offset + buf.Length) && offset <= |content|
      requires first == Floor(offset) && first in pages && pages[first] == firstPage
      requires Reading(content, offset, 0, first, firstPage, firstBuf)
      modifies buf
      ensures total <= buf.Length && offset + total <= |content| && (total == buf.Length || offset + total == |content|)
      ensures buf[..] == ReadSoFar(content, offset, total, old(buf[..]))
    {
      hide Slice, Floor, Reading, Refines, ReadSoFar, Overlay;
      var at, page, pageBuf := first, firstPage, firstBuf;
      ghost var was := buf[..];
      FloorFacts(offset);
      ReadStart(content, offset, was);
      total := 0;
      while true
        invariant at in pages && page == pages[at] && Aligned(at) && Floor(offset) <= at
        invariant total <= buf.Length && offset + total <= |content|
        invariant Reading(content, offset, total, at, page, pageBuf)
        invariant buf[..] == ReadSoFar(content, offset, total, was)
        decreases buf.Length - total
      {
        if buf.Length - total > |pageBuf| {
          CopiedMore(content, offset, total, at, page, pageBuf, |pageBuf|);
          ReadMore(content, offset, total, |pageBuf|, was);
          CopyInto(buf, total, pageBuf);
          total := total + |pageBuf|;
          if page.len != PAGE_SIZE {
            return;
          }
          if at + PAGE_SIZE !in pages {
            return;
          }
          RefinesAt(disk, pages, content, at + PAGE_SIZE);
          page := pages[at + PAGE_SIZE];
          NextBytes(content, offset, total, at, page);
          pageBuf := page.data[..page.len];
          at := at + PAGE_SIZE;
        } else {
          CopiedMore(content, offset, total, at, page, pageBuf, buf.Length - total);
          ReadMore(content, offset, total, buf.Length - total, was);
          CopyInto(buf, total, pageBuf[..buf.Length - total]);
          total := buf.Length;
          return;
        }
      }
    }

    /** `read_at` */
    method ReadAt(offset: nat, buf: array<Byte>) returns (ok: bool, total: nat)
      requires Valid()
      modifies this, buf
      ensures Valid() && content == old(content)
      ensures ok ==> total == |Slice(content, offset, buf.Length)| && buf[..total] == Slice(content, offset, buf.Length)
      ensures total <= buf.Length && buf[total..] == old(buf[total..])
      ensures ok && buf.Length > 0 ==> Floor(offset) in pages
      ensures !ok ==> avail == 0 && total == 0
    {
      total := 0;
      if buf.Length == 0 {
        return true, 0;
      }
      var loaded;
      ok, loaded := PerpareRange(offset, buf.Length);
      if ok {
        total := CachedRead(offset, buf);
      }
    }

    /** `get_or_alloc`; on failure the source panics. */
    method GetOrAlloc(a: nat) returns (ok: bool, page: CachedPage)
      modifies this`avail
      ensures page == GetOrEmpty(pages, a)
      ensures ok <==> a in pages || old(avail) > 0
      ensures avail == if a in pages || old(avail) == 0 then old(avail) else old(avail) - 1
    {
      if a in pages {
        return true, pages[a];
      }
      ok := avail > 0;
      avail := if ok then avail - 1 else 0;
      page := EmptyPage();
    }

    /** `cached_write`: the cache shows the written file afterwards if and only if the write keeps what it must. */
    method CachedWrite(offset: nat, data: seq<Byte>) returns (ok: bool)
      requires Valid()
      modifies this
      ensures ok ==> content == Written(old(content), offset, data)
      ensures ok ==> (Valid() <==> CachedWriteKeeps(old(pages), old(content), offset, |data|))
      ensures !ok ==> avail == 0
    {
      hide Writing, WriteKeeps, CachedWriteKeeps, Refines;
      FloorFacts(offset);
      ghost var p0, c0 := pages, content;
      var begin := Floor(offset);
      WriteFirst(disk, p0, c0, offset, data);
      // the first page
      var first;
      ok, first := GetOrAlloc(begin);
      if !ok {
        return;
      }
      var done := Min(|data|, PAGE_SIZE - (offset - begin));
      pages := pages[begin := Put(first, offset - begin, data[..done])];
      // the pages in the middle
      var at: nat := begin + PAGE_SIZE;
      while |data| - done >= PAGE_SIZE
        invariant content == c0 && done <= |data| && PagesAligned(pages) && Aligned(at)
        invariant Writing(disk, p0, c0, offset, data, done, at, pages)
      {
        WriteMore(disk, p0, c0, offset, data, done, at, pages);
        var page;
        ok, page := GetOrAlloc(at);
        if !ok {
          return;
        }
        pages := pages[at := Put(page, 0, data[done..done + PAGE_SIZE])];
        done := done + PAGE_SIZE;
        at := at + PAGE_SIZE;
      }
      // the last page
      if done < |data| {
        WriteMore(disk, p0, c0, offset, data, done, at, pages);
        var last;
        ok, last := GetOrAlloc(at);
        if !ok {
          return;
        }
        assert data[done..] == data[done..|data|];
        pages := pages[at := Put(last, 0, data[done..])];
        done := |data|;
        at := at + PAGE_SIZE;
      }
      WriteDone(disk, p0, c0, offset, data, at, pages);
      WrittenBytes(c0, offset, data);
      content := Written(c0, offset, data);
      ok := true;
    }

    /**
     `write_at`. The pages are prepared from the start of the first page on, so the last page may be
     missed; the cache shows the written file if and only if that does no harm and no page is skipped.
     */
    method WriteAt(offset: nat, data: seq<Byte>) returns (res: Outcome)
      requires Valid()
      modifies this
      ensures res == Done ==> content == Written(old(content), offset, data)
      ensures res == Done ==> (Valid() <==> WriteAtKeeps(old(pages), |old(content)|, offset, |data|))
      ensures res == NoMemory ==> Valid() && content == old(content)
      ensures res != Done ==> avail == 0
    {
      hide Refines, Floor, Ceil, Aligned, CachedWriteKeeps, WriteAtKeeps, Written;
      if |data| == 0 {
        EmptyWrite(old(pages), content, offset, data);
        return Done;
      }
      ghost var p0 := pages;
      var begin := Floor(offset);
      FloorTwice(offset);
      var ok, loaded := PerpareRange(begin, |data|);
      if !ok {
        return NoMemory;
      }
      WriteAtExact(p0, pages, content, offset, |data|);
      ok := CachedWrite(offset, data);
      res := if ok then Done else Panic;
    }

    /** `poll_ready` and then `poll_write` on the same range: right unless a page is skipped. */
    method PollWrite(offset: nat, data: seq<Byte>) returns (res: Outcome)
      requires Valid()
      modifies this
      ensures res == Done ==> content == Written(old(content), offset, data)
      ensures res == Done ==> (Valid() <==> PollWriteKeeps(old(pages), |old(content)|, offset, |data|))
      ensures res == NoMemory ==> Valid() && content == old(content)
      ensures res != Done ==> avail == 0
    {
      hide Refines, Floor, Ceil, Aligned, CachedWriteKeeps, PollWriteKeeps, Written;
      ghost var p0 := pages;
      var ok, loaded := PerpareRange(offset, |data|);
      if !ok {
        return NoMemory;
      }
      ReadyExact(p0, pages, content, offset, |data|);
      ok := CachedWrite(offset, data);
      res := if ok then Done else Panic;
    }

    /** `attr_size`: the size of the file on disk or the end of the last cached page. */
    method AttrSize() returns (size: nat)
      requires Valid()
      ensures size == |content| <==> forall a :: a in pages ==> a <= |content|
      ensures size >= |content|
    {
      if pages == map[] {
        if |disk| < |content| {
          EndCached(disk, pages, content);
        }
        return |disk|;
      }
      ghost var greatest := MaxExists(pages.Keys);
      var last :| last in pages && forall k :: k in pages ==> k <= last;
      SizeExact(disk, pages, content, last);
      size := Max(|disk|, last + pages[last].len);
    }
  }

  datatype Outcome = Done | NoMemory | Panic

  /**
   When `write_at` loses nothing: no page between the end of the file and the write is skipped; and its
   last page was cached, or is prepared although the range is counted from the start of the first
   page, or has nothing behind the end of the write.
   */
  predicate WriteAtKeeps(pages: Pages, len: nat, offset: nat, n: nat) {
    n == 0 || (Floor(offset) <= len && LastKept(pages, len, offset, n))
  }

  predicate LastKept(pages: Pages, len: nat, offset: nat, n: nat)
    requires n > 0
  {
    var last := Floor(offset + n - 1);
    last in pages || last < Ceil(Floor(offset) + n) || Aligned(offset + n) || len <= offset + n
  }

  lemma WriteAtExact(p0: Pages, p1: Pages, content: seq<Byte>, offset: nat, n: nat)
    requires n > 0 && Floor(offset) in p1
    requires forall a :: a in p0 ==> a in p1
    requires forall a :: a in p1 && a !in p0 ==> Floor(offset) <= a < Ceil(Floor(offset) + n)
    requires forall a: nat :: Floor(offset) <= a < Ceil(Floor(offset) + n) && Aligned(a) ==> a in p1 || |content| <= a
    ensures CachedWriteKeeps(p1, content, offset, n) <==> WriteAtKeeps(p0, |content|, offset, n)
  {
    var end := offset + n;
    var last := Floor(end - 1);
    FloorFacts(offset);
    FloorFacts(end - 1);
    hide Floor, Ceil, TouchKeeps, Aligned;
    if LastKept(p0, |content|, offset, n) {
      forall a: nat | Aligned(a)
        ensures TouchKeeps(p1, content, a, offset, end)
      {
        PageKept(p0, p1, content, offset, n, a);
      }
    } else {
      LastLost(p0, p1, content, offset, n);
    }
  }

  lemma EmptyWrite(pages: Pages, content: seq<Byte>, offset: nat, data: seq<Byte>)
    requires data == []
    ensures Written(content, offset, data) == content && WriteAtKeeps(pages, |content|, offset, 0)
  {
  }

  lemma PageKept(p0: Pages, p1: Pages, content: seq<Byte>, offset: nat, n: nat, a: nat)
    requires n > 0 && Floor(offset) in p1 && Aligned(a) && LastKept(p0, |content|, offset, n)
    requires forall b :: b in p0 ==> b in p1
    requires forall b: nat :: Floor(offset) <= b < Ceil(Floor(offset) + n) && Aligned(b) ==> b in p1 || |content| <= b
    ensures TouchKeeps(p1, content, a, offset, offset + n)
  {
    var end := offset + n;
    FloorFacts(offset);
    FloorFacts(end - 1);
    hide Floor, Ceil;
    if Touched(a, offset, end) && a !in p1 && end < a + PAGE_SIZE {
      PagesSame(a, Floor(end - 1), end - 1);
    }
  }

  lemma LastLost(p0: Pages, p1: Pages, content: seq<Byte>, offset: nat, n: nat)
    requires n > 0 && Floor(offset) in p1 && !LastKept(p0, |content|, offset, n)
    requires forall a :: a in p1 && a !in p0 ==> Floor(offset) <= a < Ceil(Floor(offset) + n)
    ensures Aligned(Floor(offset + n - 1)) && !TouchKeeps(p1, content, Floor(offset + n - 1), offset, offset + n)
  {
    var last := Floor(offset + n - 1);
    FloorFacts(offset);
    FloorFacts(offset + n - 1);
    if last != Floor(offset) {
      LastAfterFirst(offset, offset + n - 1);
    }
    hide Floor, Ceil;
  }

  lemma LastAfterFirst(a: nat, b: nat)
    requires a <= b && Floor(a) != Floor(b)
    ensures a < Floor(b)
  {
  }

  lemma PagesSame(a: nat, b: nat, x: nat)
    requires Aligned(a) && Aligned(b) && a <= x < a + PAGE_SIZE && b <= x < b + PAGE_SIZE
    ensures a == b
  {
    NextPage(a);
    NextPage(b);
  }

  /** When a prepared write loses nothing; an empty one may prepare no page at all. */
  predicate PollWriteKeeps(pages: Pages, len: nat, offset: nat, n: nat) {
    if n > 0 then Floor(offset) <= len
    else if Aligned(offset) then offset in pages || len <= offset
    else offset <= len
  }

  lemma ReadyExact(p0: Pages, p1: Pages, content: seq<Byte>, offset: nat, n: nat)
    requires n > 0 ==> Floor(offset) in p1
    requires forall a :: a in p0 ==> a in p1
    requires forall a :: a in p1 && a !in p0 ==> Floor(offset) <= a < Ceil(offset + n)
    requires forall a: nat :: Floor(offset) <= a < Ceil(offset + n) && Aligned(a) ==> a in p1 || |content| <= a
    ensures CachedWriteKeeps(p1, content, offset, n) <==> PollWriteKeeps(p0, |content|, offset, n)
  {
    var end := offset + n;
    FloorFacts(offset);
    assert TouchKeeps(p1, content, Floor(offset), offset, end) <==>
           KeepsPage(p1, content, Floor(offset), offset, end);
    forall a: nat | Aligned(a) && a != Floor(offset)
      ensures TouchKeeps(p1, content, a, offset, end)
    {
      if Touched(a, offset, end) {
        assert a < Ceil(end);
      }
    }
  }

  lemma SizeExact(disk: seq<Byte>, pages: Pages, content: seq<Byte>, last: nat)
    requires Refines(disk, pages, content) && |disk| <= |content| && PagesAligned(pages)
    requires last in pages && forall k :: k in pages ==> k <= last
    ensures
      var size := Max(|disk|, last + pages[last].len);
      |content| <= size && (size == |content| <==> last <= |content|)
  {
    RefinesAt(disk, pages, content, last);
    PageBytes(content, last);
    if |disk| < |content| {
      EndCached(disk, pages, content);
    }
  }

  /** Bytes that the disk does not have are in the cache. */
  lemma EndCached(disk: seq<Byte>, pages: Pages, content: seq<Byte>)
    requires Refines(disk, pages, content) && |disk| < |content|
    ensures Floor(|content| - 1) in pages
  {
    var end := Floor(|content| - 1);
    FloorFacts(|content| - 1);
    RefinesAt(disk, pages, content, end);
    PageBytes(content, end);
    PageBytes(disk, end);
  }

  lemma NextAligned(a: nat)
    requires Aligned(a)
    ensures Aligned(a + PAGE_SIZE)
  {
  }

  lemma CeilAbove(offset: nat, len: nat)
    ensures Aligned(Floor(offset)) && Aligned(Ceil(offset + len)) && Floor(offset) <= Ceil(offset + len)
    ensures len > 0 ==> Floor(offset) < Ceil(offset + len)
  {
  }

  /** The bytes in the pages of `[begin, end)` that `p1` has and `p0` has not. */
  function NewBytes(p0: Pages, p1: Pages, begin: nat, end: nat): nat {
    if end < begin + PAGE_SIZE then 0
    else
      var last := end - PAGE_SIZE;
      NewBytes(p0, p1, begin, last) + (if last in p1 && last !in p0 then p1[last].len else 0)
  }

  lemma NewBytesNone(p0: Pages, p1: Pages, begin: nat)
    ensures NewBytes(p0, p1, begin, begin) == 0
  {
  }

  lemma NewBytesMore(p0: Pages, p1: Pages, begin: nat, at: nat)
    requires begin <= at
    ensures NewBytes(p0, p1, begin, at + PAGE_SIZE) ==
            NewBytes(p0, p1, begin, at) + (if at in p1 && at !in p0 then p1[at].len else 0)
  {
  }

  lemma {:induction false} NewBytesSame(p0: Pages, p1: Pages, p2: Pages, begin: nat, end: nat)
    requires forall a :: a < end ==> (a in p1 <==> a in p2) && (a in p1 ==> p1[a] == p2[a])
    ensures NewBytes(p0, p1, begin, end) == NewBytes(p0, p2, begin, end)
    decreases end
  {
    if end < begin + PAGE_SIZE {
    } else {
      NewBytesSame(p0, p1, p2, begin, end - PAGE_SIZE);
    }
  }

  lemma {:induction false} NewBytesUpTo(p0: Pages, p1: Pages, begin: nat, mid: nat, end: nat)
    requires begin <= mid <= end && Aligned(begin) && Aligned(mid) && Aligned(end)
    requires forall a :: a in p1 && a !in p0 ==> a < mid
    ensures NewBytes(p0, p1, begin, end) == NewBytes(p0, p1, begin, mid)
    decreases end
  {
    if mid == end {
    } else {
      PagesApart(mid, end);
      NewBytesUpTo(p0, p1, begin, mid, end - PAGE_SIZE);
    }
  }

  /** 200 bytes written at 4000 over a file of 5000 bytes: the second page forgets the last 800. */
  lemma WriteAtLoses(content: seq<Byte>)
    requires |content| == 5000
    ensures !WriteAtKeeps(map[], |content|, 4000, 200)
  {
  }

  /** One byte written two pages behind the end of a file of ten bytes: the first page would have to grow. */
  lemma HoleLost(content: seq<Byte>)
    requires |content| == 10
    ensures !WriteAtKeeps(map[], |content|, 8192, 1) && !PollWriteKeeps(map[], |content|, 8192, 1)
  {
  }

  /** `cached_read` with `total` bytes copied: `pageBuf` is what the page at `at` still has to give. */
  ghost predicate Reading(content: seq<Byte>, offset: nat, total: nat, at: nat, page: CachedPage, pageBuf: seq<Byte>) {
    && offset + total <= |content| && at <= offset + total < at + PAGE_SIZE && Shows(content, at, page)
    && pageBuf == Slice(content, offset + total, at + PAGE_SIZE - (offset + total))
    && (page.len == PAGE_SIZE ==> pageBuf != [])
  }

  lemma NothingThere(content: seq<Byte>, offset: nat, n: nat)
    requires n == 0
    ensures Slice(content, offset, n) == []
  {
  }

  lemma BeyondEnd(content: seq<Byte>, offset: nat, page: CachedPage, n: nat)
    requires Shows(content, Floor(offset), page) && page.len <= offset - Floor(offset)
    ensures Slice(content, offset, n) == []
  {
    FloorFacts(offset);
  }

  lemma FirstBytes(content: seq<Byte>, offset: nat, page: CachedPage)
    requires Shows(content, Floor(offset), page) && offset - Floor(offset) < page.len
    ensures offset <= |content|
    ensures Reading(content, offset, 0, Floor(offset), page, page.data[offset - Floor(offset)..page.len])
  {
    var at := Floor(offset);
    FloorFacts(offset);
    var p := page.data[..page.len];
    assert page.data[offset - at..page.len] == p[offset - at..];
    assert p == content[at..at + page.len];
  }

  lemma NextBytes(content: seq<Byte>, offset: nat, total: nat, at: nat, page: CachedPage)
    requires offset + total == at + PAGE_SIZE <= |content| && Shows(content, at + PAGE_SIZE, page)
    ensures Reading(content, offset, total, at + PAGE_SIZE, page, page.data[..page.len])
  {
  }

  lemma CopiedMore(content: seq<Byte>, offset: nat, total: nat, at: nat, page: CachedPage, pageBuf: seq<Byte>, n: nat)
    requires Reading(content, offset, total, at, page, pageBuf) && n <= |pageBuf|
    ensures offset + total + n <= |content| && |pageBuf| <= PAGE_SIZE && (page.len == PAGE_SIZE ==> pageBuf != [])
    ensures pageBuf[..n] == content[offset + total..offset + total + n]
    ensures n == |pageBuf| ==>
              && pageBuf[..n] == pageBuf
              && (if page.len == PAGE_SIZE then offset + total + n == at + PAGE_SIZE else offset + total + n == |content|)
  {
    assert pageBuf[..n] == content[offset + total..offset + total + n];
  }

  lemma ReadAll(content: seq<Byte>, offset: nat, total: nat, n: nat)
    requires offset + total <= |content| && total <= n && (total == n || offset + total == |content|)
    ensures Slice(content, offset, n) == content[offset..offset + total]
  {
  }

  lemma CacheLoad(disk: seq<Byte>, pages: Pages, content: seq<Byte>, a: nat)
    requires Refines(disk, pages, content) && Aligned(a) && a !in pages
    ensures Refines(disk, pages[a := Load(disk, a)], content)
    ensures Load(disk, a).len <= PAGE_SIZE && (Load(disk, a).len < PAGE_SIZE ==> |content| < a + PAGE_SIZE)
  {
    RefinesAt(disk, pages, content, a);
    PageBytes(content, a);
    PageBytes(disk, a);
    var page := Load(disk, a);
    assert page.data[..page.len] == PageAt(disk, a);
    ShowsSame(disk, content, a);
    hide Shows, Slice;
    forall b: nat | Aligned(b)
      ensures PageRight(disk, pages[a := page], content, b)
    {
      RefinesAt(disk, pages, content, b);
    }
  }

  /** Reading beyond the end of the file makes `attr_size` report a longer file. */
  method SizeAfterRead(f: PageCacheFile, offset: nat, buf: array<Byte>) returns (ok: bool, total: nat, size: nat)
    requires f.Valid() && buf.Length > 0 && |f.content| < Floor(offset)
    modifies f, buf
    ensures f.Valid() && f.content == old(f.content)
    ensures ok ==> total == 0 && size > |f.content|
  {
    FloorFacts(offset);
    ok, total := f.ReadAt(offset, buf);
    size := f.AttrSize();
  }

  /** What `write_at` wrote, when it loses nothing, is what `read_at` returns. */
  method WriteThenRead(f: PageCacheFile, offset: nat, data: seq<Byte>) returns (ok: bool, back: seq<Byte>)
    requires f.Valid() && WriteAtKeeps(f.pages, |f.content|, offset, |data|)
    modifies f
    ensures ok ==> back == data && f.Valid() && f.content == Written(old(f.content), offset, data)
    ensures !ok ==> f.avail == 0
  {
    var res := f.WriteAt(offset, data);
    if res != Done {
      return false, [];
    }
    WrittenSlice(old(f.content), offset, data);
    var buf := new Byte[|data|];
    var total;
    ok, total := f.ReadAt(offset, buf);
    back := buf[..total];
  }

  // ---- Whole runs ----

  datatype Op = Read(offset: nat, n: nat) | Poll(offset: nat, data: seq<Byte>) | Write(offset: nat, data: seq<Byte>)

  /** When the cached file does what a plain byte array does. */
  predicate OpKeeps(pages: Pages, len: nat, op: Op) {
    match op
    case Read(_, _) => true
    case Poll(offset, data) => PollWriteKeeps(pages, len, offset, |data|)
    case Write(offset, data) => WriteAtKeeps(pages, len, offset, |data|)
  }

  /** What a plain byte array does. */
  function Next(c: seq<Byte>, op: Op): seq<Byte> {
    match op
    case Read(_, _) => c
    case Poll(offset, data) => Written(c, offset, data)
    case Write(offset, data) => Written(c, offset, data)
  }

  function Answer(c: seq<Byte>, op: Op): seq<Byte> {
    match op
    case Read(offset, n) => Slice(c, offset, n)
    case Poll(_, _) => []
    case Write(_, _) => []
  }

  /** The answers and the states of a plain byte array over a run. */
  predicate FlatRun(states: seq<seq<Byte>>, ops: seq<Op>, answers: seq<seq<Byte>>) {
    && |states| == |ops| + 1 && |answers| == |ops|
    && forall i :: 0 <= i < |ops| ==>
         states[i + 1] == Next(states[i], ops[i]) && answers[i] == Answer(states[i], ops[i])
  }

  /** One operation on the cached file. */
  method Apply(f: PageCacheFile, op: Op) returns (ok: bool, answer: seq<Byte>)
    requires f.Valid()
    modifies f
    ensures ok && OpKeeps(old(f.pages), |old(f.content)|, op) ==>
              f.Valid() && f.content == Next(old(f.content), op) && answer == Answer(old(f.content), op)
    ensures !ok ==> f.avail == 0
  {
    match op {
      case Read(offset, n) =>
        var buf := new Byte[n];
        var total;
        ok, total := f.ReadAt(offset, buf);
        answer := buf[..total];
      case Poll(offset, data) =>
        var res := f.PollWrite(offset, data);
        ok, answer := res == Done, [];
      case Write(offset, data) =>
        var res := f.WriteAt(offset, data);
        ok, answer := res == Done, [];
    }
  }

  /**
   Whatever the order in which pages come into the cache, a run of reads and writes gives the answers
   of a plain byte array, as far as it gets before the allocator is empty or a write loses something.
   */
  method Replay(f: PageCacheFile, size: nat, ops: seq<Op>) returns (answers: seq<seq<Byte>>,
                ghost states: seq<seq<Byte>>)
    requires f.Valid() && size == |f.content|
    modifies f
    ensures |answers| <= |ops| && |states| == |answers| + 1 && states[0] == old(f.content)
    ensures FlatRun(states, ops[..|answers|], answers)
    ensures |answers| == |ops| ==> f.Valid() && f.content == states[|ops|]
    ensures |answers| < |ops| ==>
              f.avail == 0 || !OpKeeps(f.pages, |states[|answers|]|, ops[|answers|])
  {
    answers, states := [], [f.content];
    var len := size;
    for i := 0 to |ops|
      invariant |answers| == i && f.Valid() && |states| == i + 1 && states[0] == old(f.content)
      invariant f.content == states[i] && len == |states[i]|
      invariant FlatRun(states, ops[..i], answers)
    {
      if !OpKeeps(f.pages, len, ops[i]) {
        return;
      }
      var ok, answer := Apply(f, ops[i]);
      if !ok {
        return;
      }
      answers := answers + [answer];
      RunMore(states, ops, i, answers, f.content);
      states := states + [f.content];
      len := NextLen(len, ops[i]);
      NextLenRight(states[i], ops[i]);
    }
    assert ops[..|ops|] == ops;
  }

  function NextLen(len: nat, op: Op): nat {
    if op.Read? || op.data == [] then len else Max(len, op.offset + |op.data|)
  }

  lemma NextLenRight(c: seq<Byte>, op: Op)
    ensures |Next(c, op)| == NextLen(|c|, op)
  {
    if !op.Read? {
      WrittenBytes(c, op.offset, op.data);
    }
  }

  lemma RunMore(states: seq<seq<Byte>>, ops: seq<Op>, i: nat, answers: seq<seq<Byte>>, c: seq<Byte>)
    requires i < |ops| && |answers| == i + 1 && FlatRun(states, ops[..i], answers[..i])
    requires c == Next(states[i], ops[i]) && answers[i] == Answer(states[i], ops[i])
    ensures FlatRun(states + [c], ops[..i + 1], answers)
  {
  }
}
