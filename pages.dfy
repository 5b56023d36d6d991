/** The page pool the tree runs on: fixed-size pages addressed by a page id,
    handed out as buffers whose bytes and dirty flag are written in place.
    `PoolState` is the value view of the pool that the tree's specification
    is stated over; `BufferPoolManager` is the object the tree code calls. */
module Pages {
  import opened Errors
  import opened Bytes
  import opened Pairs

  const PageSize: nat := 4096

  /** Page ids are 8-byte unsigned integers. */
  const IdLimit: nat := 0x1_0000_0000_0000_0000

  type PageId = x: nat | x < IdLimit

  lemma Pow256Eight()
    ensures Pow256(8) == IdLimit
  {
  }

  /** `PageId.to_bytes()`: the id as 8 big-endian bytes. */
  function IdBytes(id: PageId): (r: seq<byte>)
    ensures |r| == 8
  {
    Pow256Eight();
    ToBigEndian(id, 8)
  }

  /** `PageId.from_bytes(b)` for an 8-byte string. */
  function ReadPageId(b: seq<byte>): PageId
    requires |b| == 8
  {
    Pow256Eight();
    FromBigEndian(b)
  }

  /** Reading back a written id gives the same id. */
  lemma IdRoundTrip(id: PageId)
    ensures ReadPageId(IdBytes(id)) == id
  {
    Pow256Eight();
    FromToBigEndian(id, 8);
  }

  /** Every 8-byte string is the encoding of the id read from it. */
  lemma IdBytesOfRead(b: seq<byte>)
    requires |b| == 8
    ensures IdBytes(ReadPageId(b)) == b
  {
    Pow256Eight();
    ToFromBigEndian(b);
  }

  /** Python's slice assignment `s[off:off + len(data)] = data` on a
      bytearray: the slice bounds are clamped to the length, so a write past
      the end grows the array. */
  function Overwrite(s: seq<byte>, off: nat, data: seq<byte>): (r: seq<byte>)
    ensures off + |data| <= |s| ==> |r| == |s| && r[off..off + |data|] == data
    ensures off + |data| <= |s| ==> r[..off] == s[..off] && r[off + |data|..] == s[off + |data|..]
  {
    s[..Min(off, |s|)] + data + s[Min(off + |data|, |s|)..]
  }

  /** Writing `p` and then `b` right after the prefix `a` replaces the first
      `|p| + |b|` bytes that follow it. */
  lemma OverwriteTwice(a: seq<byte>, rest: seq<byte>, p: seq<byte>, b: seq<byte>)
    requires |p| + |b| <= |rest|
    ensures Overwrite(Overwrite(a + rest, |a|, p), |a| + |p|, b) == a + p + b + rest[|p| + |b|..]
  {
    var once := Overwrite(a + rest, |a|, p);
    assert once == a + p + rest[|p|..];
    assert once[..|a| + |p|] == a + p;
    assert once[|a| + |p| + |b|..] == rest[|p| + |b|..];
  }

  /** The separators and child ids of a branch node, as `get_branch` returns
      and `set_branch` stores them. */
  datatype Branch = Branch(keys: seq<Key>, children: seq<PageId>)

  /** Everything the tree can observe of one page. */
  datatype PageImage = PageImage(bytes: seq<byte>, dirty: bool, branch: Branch)

  /** The pool as a value: its pages by id, and the id the next new page gets. */
  datatype PoolState = PoolState(pages: map<PageId, PageImage>, next: nat)

  /** A newly created page: all zero bytes, not dirty, no branch content. */
  function FreshImage(): (r: PageImage)
    ensures |r.bytes| == PageSize && !r.dirty
    ensures forall i :: 0 <= i < PageSize ==> r.bytes[i] == 0
  {
    PageImage(Zeros(PageSize), false, Branch([], []))
  }

  /** Every page is full size and every id in use is below the next one. */
  predicate WellFormed(s: PoolState)
  {
    forall id :: id in s.pages ==> id < s.next && |s.pages[id].bytes| == PageSize
  }

  /** The pool after `page[off:off + len(data)] = data` on page `id`. */
  function WriteAt(s: PoolState, id: PageId, off: nat, data: seq<byte>): (r: PoolState)
    ensures r.next == s.next && r.pages.Keys == s.pages.Keys
  {
    if id in s.pages then s.(pages := s.pages[id := s.pages[id].(bytes := Overwrite(s.pages[id].bytes, off, data))])
    else s
  }

  /** The pool after `is_dirty = True` on page `id`. */
  function MarkPage(s: PoolState, id: PageId): (r: PoolState)
    ensures r.next == s.next && r.pages.Keys == s.pages.Keys
  {
    if id in s.pages then s.(pages := s.pages[id := s.pages[id].(dirty := true)]) else s
  }

  /** The pool after `set_branch` stored `b` in page `id`. */
  function StoreBranch(s: PoolState, id: PageId, b: Branch): (r: PoolState)
    ensures r.next == s.next && r.pages.Keys == s.pages.Keys
  {
    if id in s.pages then s.(pages := s.pages[id := s.pages[id].(branch := b)]) else s
  }

  /** Replacing a page and then marking it dirty replaces it by the dirty
      version. */
  lemma PutThenMark(s: PoolState, id: PageId, img: PageImage)
    requires id in s.pages
    ensures MarkPage(s.(pages := s.pages[id := img]), id) == s.(pages := s.pages[id := img.(dirty := true)])
  {
    assert s.pages[id := img][id := img.(dirty := true)] == s.pages[id := img.(dirty := true)];
  }

  /** `create_page`: a fresh zero page under the next unused id, or an error
      when the ids are used up. */
  function AllocPage(s: PoolState): (r: Result<(PoolState, PageId)>)
    ensures r.Err? <==> s.next >= IdLimit
    ensures WellFormed(s) && r.Ok? ==> WellFormed(r.value.0) && r.value.1 !in s.pages
    ensures r.Ok? ==> r.value.0.pages == s.pages[r.value.1 := FreshImage()]
  {
    if s.next >= IdLimit then Err(PoolExhausted)
    else Ok((PoolState(s.pages[s.next := FreshImage()], s.next + 1), s.next))
  }

  /** A page held in memory: its id, its bytes, its dirty flag, and the
      branch content `set_branch` stored in it. */
  class Buffer {
    const pageId: PageId
    const page: array<byte>
    var isDirty: bool
    var branch: Branch

    constructor (id: PageId)
      ensures pageId == id && fresh(page) && !isDirty && branch == Branch([], [])
      ensures page[..] == FreshImage().bytes
    {
      pageId := id;
      page := new byte[PageSize](_ => 0);
      isDirty := false;
      branch := Branch([], []);
    }
  }

  /** What a buffer currently holds. */
  function Image(b: Buffer): PageImage
    reads b, b.page
  {
    PageImage(b.page[..], b.isDirty, b.branch)
  }

  /** `buffer.page[off:off + len(data)] = data` on a full-size page. */
  method WriteBytes(a: array<byte>, off: nat, data: seq<byte>)
    requires off + |data| <= a.Length
    modifies a
    ensures a[..] == Overwrite(old(a[..]), off, data)
  {
    forall i | off <= i < off + |data| {
      a[i] := data[i - off];
    }
    assert a[..] == old(a[..])[..off] + data + old(a[..])[off + |data|..];
  }

  /** Each buffer sits under its own id, below the next id, with a
      full-size page that no other buffer shares; buffers and pages are in
      `repr`. */
  ghost predicate PoolInvariant(buffers: map<PageId, Buffer>, next: nat, repr: set<object>)
  {
    (forall id :: id in buffers ==>
      buffers[id].pageId == id && buffers[id].page.Length == PageSize && id < next &&
      buffers[id] in repr && buffers[id].page in repr) &&
    (forall i, j :: i in buffers && j in buffers && i != j ==> buffers[i].page != buffers[j].page)
  }

  /** Adding a full-size buffer under the next id, with a page no other
      buffer has, keeps the invariant. */
  lemma PoolInvariantAdd(buffers: map<PageId, Buffer>, next: nat, repr: set<object>, b: Buffer)
    requires PoolInvariant(buffers, next, repr) && b.pageId == next && b.page.Length == PageSize
    requires forall id :: id in buffers ==> buffers[id].page != b.page
    ensures PoolInvariant(buffers[next := b], next + 1, repr + {b, b.page})
  {
  }

  class BufferPoolManager {
    var buffers: map<PageId, Buffer>
    var nextPageId: nat
    /** The buffers and their pages. */
    ghost var Repr: set<object>

    /** See `PoolInvariant`. */
    ghost predicate Valid()
      reads this
    {
      this !in Repr && PoolInvariant(buffers, nextPageId, Repr)
    }

    predicate Holds(b: Buffer)
      reads this
    {
      b.pageId in buffers && buffers[b.pageId] == b
    }

    ghost function View(): (s: PoolState)
      requires Valid()
      reads this, Repr
      ensures WellFormed(s) && s.next == nextPageId
      ensures forall id :: id in buffers <==> id in s.pages
    {
      PoolState(map id | id in buffers :: Image(buffers[id]), nextPageId)
    }

    /** `create_page`. */
    method CreatePage() returns (r: Result<Buffer>)
      requires Valid()
      modifies this
      ensures Valid()
      ensures AllocPage(old(View())) == if r.Ok? then Ok((View(), r.value.pageId)) else Err(r.error)
      ensures r.Ok? ==> fresh(r.value) && fresh(r.value.page) && r.value.pageId == old(nextPageId)
      ensures r.Ok? ==> buffers == old(buffers)[r.value.pageId := r.value] && Holds(r.value)
      ensures r.Ok? ==> Repr == old(Repr) + {r.value, r.value.page}
      ensures r.Err? ==> Repr == old(Repr)
      ensures r.Err? ==> buffers == old(buffers) && nextPageId == old(nextPageId) && View() == old(View())
    {
      if nextPageId >= IdLimit {
        return Err(PoolExhausted);
      }
      var b := new Buffer(nextPageId);
      Adopt(b);
      r := Ok(b);
    }

    /** Record a new full-size buffer, allocated after every buffer the pool
        holds, under the next id. */
    method Adopt(b: Buffer)
      requires Valid() && b.pageId == nextPageId && b.page.Length == PageSize
      requires b !in Repr && b.page !in Repr && Image(b) == FreshImage()
      requires forall id :: id in buffers ==> buffers[id].page != b.page
      modifies this
      ensures Valid() && buffers == old(buffers)[b.pageId := b] && nextPageId == old(nextPageId) + 1
      ensures Repr == old(Repr) + {b, b.page}
      ensures View() == PoolState(old(View()).pages[b.pageId := FreshImage()], nextPageId)
    {
      PoolInvariantAdd(buffers, nextPageId, Repr, b);
      buffers := buffers[nextPageId := b];
      Repr := Repr + {b, b.page};
      nextPageId := nextPageId + 1;
      assert View().pages == old(View()).pages[b.pageId := FreshImage()];
    }

    /** `fetch_page`: the buffer of a page the pool holds. */
    method FetchPage(id: PageId) returns (r: Result<Buffer>)
      requires Valid()
      ensures r.Ok? <==> id in buffers
      ensures r.Ok? ==> r.value == buffers[id] && r.value.pageId == id
      ensures r.Err? ==> r.error == NoSuchPage
      ensures View() == old(View())
    {
      if id in buffers {
        return Ok(buffers[id]);
      }
      return Err(NoSuchPage);
    }
  }

  /** `buffer.page[off:off + len(data)] = data` on a buffer of the pool:
      the pool's view changes at that page only. */
  method WritePage(pool: BufferPoolManager, b: Buffer, off: nat, data: seq<byte>)
    requires pool.Valid() && pool.Holds(b) && off + |data| <= PageSize
    modifies b.page
    ensures pool.Valid() && b.page[..] == Overwrite(old(b.page[..]), off, data)
    ensures pool.View() == WriteAt(old(pool.View()), b.pageId, off, data)
  {
    WriteBytes(b.page, off, data);
    forall id | id in pool.buffers && id != b.pageId
      ensures Image(pool.buffers[id]) == old(Image(pool.buffers[id]))
    {
      assert pool.buffers[id].page != b.page;
    }
  }

  /** `buffer.page[off:off + len(data)] = data` followed by
      `buffer.is_dirty = True`. */
  method WriteAndMark(pool: BufferPoolManager, b: Buffer, off: nat, data: seq<byte>)
    requires pool.Valid() && pool.Holds(b) && off + |data| <= PageSize
    modifies b, b.page
    ensures pool.Valid() && b.isDirty && b.branch == old(b.branch)
    ensures pool.View() == MarkPage(WriteAt(old(pool.View()), b.pageId, off, data), b.pageId)
  {
    ghost var s0 := pool.View();
    WritePage(pool, b, off, data);
    ghost var s1 := pool.View();
    MarkDirty(pool, b);
    assert s1 == WriteAt(s0, b.pageId, off, data);
  }

  /** `buffer.is_dirty = True` on a buffer of the pool. */
  method MarkDirty(pool: BufferPoolManager, b: Buffer)
    requires pool.Valid() && pool.Holds(b)
    modifies b
    ensures pool.Valid() && b.isDirty && b.branch == old(b.branch)
    ensures pool.View() == MarkPage(old(pool.View()), b.pageId)
  {
    b.isDirty := true;
    forall id | id in pool.buffers && id != b.pageId
      ensures Image(pool.buffers[id]) == old(Image(pool.buffers[id]))
    {
    }
  }
}
