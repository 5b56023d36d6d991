/** The B+Tree handle of `btree.py`: it remembers the id of its meta page and
    works on the buffers of a page pool. Each method is proved against the
    function of `TreeSpec` or `LeafFormat` that states what it does. */
module BTree {
  import opened Errors
  import opened Bytes
  import opened Pairs
  import opened LeafFormat
  import opened Pages
  import opened TreeSpec

  /** One turn of `set_leaf`'s loop: writing entry `i`'s length field and
      blob right after the first `i` entries extends the written frame by
      that entry and consumes as many bytes of what followed. */
  lemma WriteEntryStep(head: seq<byte>, blobs: seq<Blob>, i: nat, rest: seq<byte>,
                       cur: seq<byte>, at: nat, blob: seq<byte>)
    requires Framable(blobs) && i < |blobs| && 4 + |blobs[i]| <= |rest| && blob == blobs[i]
    requires Framable(blobs[..i]) && cur == head + Frame(blobs[..i]) + rest && at == |head| + FrameLen(blobs[..i])
    ensures Framable(blobs[..i + 1])
    ensures Overwrite(Overwrite(cur, at, PackU32(|blob|)), at + 4, blob) ==
      head + Frame(blobs[..i + 1]) + rest[4 + |blob|..]
  {
    FramePrefix(blobs, i);
    var before := Frame(blobs[..i]);
    var done := head + before;
    var field := PackU32(|blob|);
    OverwriteTwice(done, rest, field, blob);
    SeqAssoc(head, before + field, blob);
    SeqAssoc(head, before, field);
    assert done + field + blob == head + Frame(blobs[..i + 1]);
  }

  /** The loop `for pair in pairs: if pair.key == key` of `search_internal`
      and `insert_internal`: the first pair with the key, if any. */
  method ScanLeaf(pairs: seq<Pair>, key: Key) returns (r: Option<Pair>)
    ensures r == FindInLeaf(pairs, key)
  {
    var i := 0;
    while i < |pairs|
      invariant 0 <= i <= |pairs|
      invariant FindInLeaf(pairs[i..], key) == FindInLeaf(pairs, key)
    {
      if pairs[i].key == key {
        return Some(pairs[i]);
      }
      assert pairs[i..][1..] == pairs[i + 1..];
      i := i + 1;
    }
    return None;
  }

  /** The loop `for i, key in enumerate(keys): if search_key < key` of
      `search_internal`: the position of the first separator above the key,
      or the number of separators. */
  method ScanSeparators(keys: seq<Key>, key: Key) returns (i: nat)
    ensures i == ChildIndex(keys, key)
  {
    i := 0;
    while i < |keys| && !KeyLess(key, keys[i])
      invariant i <= |keys|
      invariant i + ChildIndex(keys[i..], key) == ChildIndex(keys, key)
    {
      assert keys[i..][1..] == keys[i + 1..];
      i := i + 1;
    }
  }

  /** The child `search_internal` descends into: the one left of the first
      separator above the key, or the last one; a branch whose child list is
      too short for that is an error (an IndexError in Python). */
  method PickChild(branch: Branch, key: Key) returns (r: Option<PageId>)
    ensures r == ChildOf(branch, key)
  {
    var keys, children := branch.keys, branch.children;
    var i := ScanSeparators(keys, key);
    if i < |keys| {
      if i >= |children| {
        return None;
      }
      return Some(children[i]);
    }
    if |children| == 0 {
      return None;
    }
    return Some(children[|children| - 1]);
  }


  /** The body of `set_leaf`'s loop: entry `i`'s length field and blob,
      written right after the first `i` entries. */
  method WriteEntry(page: array<byte>, ghost head: seq<byte>, ghost blobs: seq<Blob>, ghost i: nat,
                    ghost before: seq<byte>, offset: nat, blob: seq<byte>)
    requires Framable(blobs) && i < |blobs| && blob == blobs[i] && |head| == HeaderSize
    requires HeaderSize + FrameLen(blobs) <= |before| == page.Length
    requires Framable(blobs[..i]) && offset == HeaderSize + FrameLen(blobs[..i]) && offset <= |before|
    requires page[..] == head + Frame(blobs[..i]) + before[offset..]
    modifies page
    ensures Framable(blobs[..i + 1]) && offset + 4 + |blob| == HeaderSize + FrameLen(blobs[..i + 1])
    ensures offset + 4 + |blob| <= page.Length
    ensures page[..] == head + Frame(blobs[..i + 1]) + before[offset + 4 + |blob|..]
  {
    FramePrefix(blobs, i);
    ghost var rest := before[offset..];
    WriteEntryStep(head, blobs, i, rest, page[..], offset, blob);
    WriteBytes(page, offset, PackU32(|blob|));
    WriteBytes(page, offset + 4, blob);
    assert rest[4 + |blob|..] == before[offset + 4 + |blob|..];
  }

  /** The tree handle never changes after construction: it is a value. */
  datatype BPlusTree = BPlusTree(metaPageId: PageId)
  {

    /** `create`: allocate the meta page and the root page, mark the root a
        leaf, store the root's id in the meta page and mark both dirty. */
    static method Create(pool: BufferPoolManager) returns (r: Result<BPlusTree>)
      requires pool.Valid()
      modifies pool
      ensures pool.Valid()
      ensures CreateTree(old(pool.View())) == Step(pool.View(), if r.Ok? then Ok(r.value.metaPageId) else Err(r.error))
    {
      ghost var s0 := pool.View();
      var metaBuffer := pool.CreatePage();
      if metaBuffer.Err? {
        return Err(metaBuffer.error);
      }
      var meta := metaBuffer.value;
      ghost var s1 := pool.View();
      assert AllocPage(s0) == Ok((s1, meta.pageId));
      var rootBuffer := pool.CreatePage();
      if rootBuffer.Err? {
        assert AllocPage(s1) == Err(rootBuffer.error);
        return Err(rootBuffer.error);
      }
      var root := rootBuffer.value;
      ghost var s2 := pool.View();
      assert AllocPage(s1) == Ok((s2, root.pageId));
      InitPages(pool, meta, root);
      CreateSteps(s0, s1, meta.pageId, s2, root.pageId);
      return Ok(BPlusTree(meta.pageId));
    }

    /** The writes of `create`: tag the root page as a leaf, store its id
        in the meta page, and mark both dirty. */
    static method InitPages(pool: BufferPoolManager, meta: Buffer, root: Buffer)
      requires pool.Valid() && pool.Holds(meta) && pool.Holds(root)
      modifies meta, meta.page, root, root.page
      ensures pool.Valid()
      ensures pool.View() == MarkPage(MarkPage(WriteAt(WriteAt(old(pool.View()), root.pageId, 0, PackU32(0)),
        meta.pageId, 0, IdBytes(root.pageId)), meta.pageId), root.pageId)
    {
      ghost var s0 := pool.View();
      WritePage(pool, root, 0, PackU32(0));
      ghost var s1 := pool.View();
      assert s1 == WriteAt(s0, root.pageId, 0, PackU32(0));
      WritePage(pool, meta, 0, IdBytes(root.pageId));
      ghost var s2 := pool.View();
      assert s2 == WriteAt(s1, meta.pageId, 0, IdBytes(root.pageId));
      MarkDirty(pool, meta);
      ghost var s3 := pool.View();
      assert s3 == MarkPage(s2, meta.pageId);
      MarkDirty(pool, root);
    }

    /** `fetch_root_page`: read the root's id from the meta page and fetch it. */
    method FetchRootPage(pool: BufferPoolManager) returns (r: Result<Buffer>)
      requires pool.Valid()
      ensures r.Ok? <==> RootOf(pool.View(), metaPageId).Ok?
      ensures r.Ok? ==> pool.Holds(r.value) && r.value.pageId == RootOf(pool.View(), metaPageId).value
      ensures r.Err? ==> r.error == RootOf(pool.View(), metaPageId).error
    {
      var metaBuffer := pool.FetchPage(metaPageId);
      if metaBuffer.Err? {
        return Err(metaBuffer.error);
      }
      var rootPageId := ReadPageId(metaBuffer.value.page[..8]);
      r := pool.FetchPage(rootPageId);
    }

    /** `search` with `SearchMode.Key(key)`. */
    method Search(codec: Codec, pool: BufferPoolManager, key: Key) returns (r: Result<Option<Pair>>)
      requires pool.Valid()
      ensures r == SearchTree(codec, pool.View(), metaPageId, key)
    {
      var rootPage := FetchRootPage(pool);
      if rootPage.Err? {
        return Err(rootPage.error);
      }
      r := SearchInternal(codec, pool, rootPage.value, key, RecursionLimit);
    }

    /** `search_internal`: in a leaf, the first pair with the key; in a
        branch, descend into the child left of the first separator above the
        key, or into the last child. */
    method SearchInternal(codec: Codec, pool: BufferPoolManager, node: Buffer, key: Key, depth: nat)
      returns (r: Result<Option<Pair>>)
      requires pool.Valid() && pool.Holds(node)
      ensures r == SearchNode(codec, pool.View().pages, Image(node), key, depth)
      decreases depth
    {
      var nodeType := UnpackU32(node.page[..4]);
      if nodeType == 0 {
        var got := GetPairs(codec, node);
        if got.Err? {
          return Err(got.error);
        }
        var found := ScanLeaf(got.value, key);
        return Ok(found);
      }
      var childId := PickChild(node.branch, key);
      if childId.None? {
        return Err(BadBranch);
      }
      var child := pool.FetchPage(childId.value);
      if child.Err? {
        return Err(child.error);
      }
      if depth == 0 {
        return Err(TooDeep);
      }
      r := SearchInternal(codec, pool, child.value, key, depth - 1);
    }

    /** `insert`: insert into the root, and put a new branch root above it
        when the root reports a split. */
    method Insert(codec: Codec, pool: BufferPoolManager, key: Key, value: Value) returns (r: Result<()>)
      requires pool.Valid()
      modifies pool, pool.Repr
      ensures pool.Valid()
      ensures InsertTree(codec, old(pool.View()), metaPageId, key, value) == Step(pool.View(), r)
    {
      ghost var s0 := pool.View();
      var rootPage := FetchRootPage(pool);
      if rootPage.Err? {
        return Err(rootPage.error);
      }
      var root := rootPage.value;
      assert RootOf(s0, metaPageId) == Ok(root.pageId);
      ghost var img := s0.pages[root.pageId];
      assert img == Image(root);
      var newChild := InsertInternal(codec, pool, root, key, value);
      if newChild.Err? {
        assert InsertIntoNode(codec, img, key, value) == Err(newChild.error);
        return Err(newChild.error);
      }
      assert InsertIntoNode(codec, img, key, value) == Ok((Image(root), newChild.value));
      match newChild.value {
        case None =>
          return Ok(());
        case Some(_) =>
          // insert_internal never reports a split (see InsertIntoNode), so
          // the root-growing branch of `insert`, modelled by GrowRoot, is not reached.
          assert false;
      }
    }

    /** The root-growing branch of `insert`: a new page tagged as a branch
        becomes the root, over the old root and the new sibling. */
    method GrowRoot(pool: BufferPoolManager, oldRoot: PageId, sep: Key, sib: PageId) returns (r: Result<()>)
      requires pool.Valid()
      modifies pool, pool.Repr
      ensures pool.Valid()
      ensures GrowTree(old(pool.View()), metaPageId, oldRoot, sep, sib) == Step(pool.View(), r)
    {
      ghost var s0, repr0 := pool.View(), pool.Repr;
      var created := pool.CreatePage();
      if created.Err? {
        return Err(created.error);
      }
      var newRoot := created.value;
      assert pool.Repr == repr0 + {newRoot, newRoot.page};
      ghost var s1 := pool.View();
      assert AllocPage(s0) == Ok((s1, newRoot.pageId));
      GrowSteps(s0, metaPageId, oldRoot, sep, sib, s1, newRoot.pageId);
      WriteAndMark(pool, newRoot, 0, PackU32(1));
      ghost var s2 := pool.View();
      assert s2 == MarkPage(WriteAt(s1, newRoot.pageId, 0, PackU32(1)), newRoot.pageId);
      var repointed := RepointMeta(pool, newRoot.pageId);
      if repointed.Err? {
        return repointed;
      }
      SetBranch(pool, newRoot, [sep], [oldRoot, sib]);
      return Ok(());
    }

    /** The repointing step of `insert`'s root growth: store `rootId` in the
        first 8 bytes of the meta page and mark it dirty; a missing meta page
        is an error. */
    method RepointMeta(pool: BufferPoolManager, rootId: PageId) returns (r: Result<()>)
      requires pool.Valid()
      modifies pool.Repr
      ensures pool.Valid()
      ensures r.Err? <==> metaPageId !in old(pool.View()).pages
      ensures r.Err? ==> r.error == NoSuchPage && pool.View() == old(pool.View())
      ensures r.Ok? ==> pool.View() == MarkPage(WriteAt(old(pool.View()), metaPageId, 0, IdBytes(rootId)), metaPageId)
    {
      var metaBuffer := pool.FetchPage(metaPageId);
      if metaBuffer.Err? {
        return Err(metaBuffer.error);
      }
      WriteAndMark(pool, metaBuffer.value, 0, IdBytes(rootId));
      return Ok(());
    }

    /** `insert_internal`: a leaf rejects a key it already holds, and
        otherwise is rewritten with the new pair in key order and marked
        dirty; a branch is not handled. */
    method InsertInternal(codec: Codec, pool: BufferPoolManager, node: Buffer, key: Key, value: Value)
      returns (r: Result<Option<(Key, PageId)>>)
      requires pool.Valid() && pool.Holds(node)
      modifies node, node.page
      ensures pool.Valid()
      ensures InsertIntoNode(codec, old(Image(node)), key, value) ==
        if r.Ok? then Ok((Image(node), r.value)) else Err(r.error)
      ensures r.Err? ==> pool.View() == old(pool.View())
      ensures r.Ok? ==> pool.View() == old(pool.View()).(pages := old(pool.View()).pages[node.pageId := Image(node)])
    {
      ghost var before, s0 := Image(node), pool.View();
      var planned := PlanLeafInsert(codec, node, key, value);
      assert Image(node) == before && pool.View() == s0;
      if planned.Err? {
        return Err(planned.error);
      }
      StoreLeaf(codec, pool, node, planned.value);
      return Ok(None);
    }

    /** The part of `insert_internal` that only reads the node: a
        branch is not handled, a key the leaf already holds is an error, and
        otherwise the result is the leaf's pairs with the new pair, sorted by
        key, once it is known that they fit the page. */
    method PlanLeafInsert(codec: Codec, node: Buffer, key: Key, value: Value) returns (r: Result<seq<Pair>>)
      requires node.page.Length == PageSize
      ensures r.Err? ==> InsertIntoNode(codec, Image(node), key, value) == Err(r.error)
      ensures r.Ok? ==> LeafFits(EncodeAll(codec, r.value), node.page.Length) && node.page.Length < U32Limit
      ensures r.Ok? ==>
        InsertIntoNode(codec, Image(node), key, value) ==
        Ok((Image(node).(bytes := WriteLeaf(node.page[..], EncodeAll(codec, r.value)), dirty := true), None))
    {
      var nodeType := UnpackU32(node.page[..4]);
      if nodeType != 0 {
        return Err(NotImplemented);
      }
      var got := GetPairs(codec, node);
      if got.Err? {
        return Err(got.error);
      }
      var pairs := got.value;
      var duplicate := ScanLeaf(pairs, key);
      if duplicate.Some? {
        return Err(DuplicateKey);
      }
      pairs := SortByKey(pairs + [Pair(key, value)]);
      if !LeafFits(EncodeAll(codec, pairs), node.page.Length) {
        return Err(LeafOverflow);
      }
      return Ok(pairs);
    }

    /** The last step of `insert_internal` on a leaf: `set_leaf` on a buffer
        of the pool, then `is_dirty = True`. Only that page of the pool changes. */
    method StoreLeaf(codec: Codec, pool: BufferPoolManager, node: Buffer, pairs: seq<Pair>)
      requires pool.Valid() && pool.Holds(node)
      requires LeafFits(EncodeAll(codec, pairs), node.page.Length) && node.page.Length < U32Limit
      modifies node, node.page
      ensures Image(node) == old(Image(node)).(bytes := WriteLeaf(old(node.page[..]), EncodeAll(codec, pairs)), dirty := true)
      ensures pool.Valid() && pool.View() == old(pool.View()).(pages := old(pool.View()).pages[node.pageId := Image(node)])
    {
      ghost var s0 := pool.View();
      SetLeaf(codec, node, pairs);
      forall id | id in pool.buffers && id != node.pageId
        ensures Image(pool.buffers[id]) == old(Image(pool.buffers[id]))
      {
        assert pool.buffers[id].page != node.page;
      }
      ghost var s1 := pool.View();
      assert s1 == s0.(pages := s0.pages[node.pageId := Image(node)]);
      MarkDirty(pool, node);
      PutThenMark(s0, node.pageId, s1.pages[node.pageId]);
    }

    /** `get_pairs`: read the entry count, then each entry's length field
        and blob, and unpickle the blob. */
    method GetPairs(codec: Codec, buffer: Buffer) returns (r: Result<seq<Pair>>)
      requires buffer.page.Length >= HeaderSize
      ensures r == ParseLeaf(codec, buffer.page[..])
    {
      var page := buffer.page;
      ghost var bytes := page[..];
      var numPairs := UnpackU32(page[4..8]);
      var pairs: seq<Pair> := [];
      var offset: nat := HeaderSize;
      var i := 0;
      assert bytes[4..8] == page[4..8];
      ResumeStart(codec, bytes);
      while i < numPairs
        invariant 0 <= i <= numPairs
        invariant ParseLeaf(codec, bytes) == ResumeLeaf(codec, bytes, numPairs - i, offset, pairs)
      {
        if offset + 4 > page.Length {
          return Err(Corrupt);
        }
        var pairSize := UnpackU32(page[offset..offset + 4]);
        var pairData := page[offset + 4..Min(offset + 4 + pairSize, page.Length)];
        assert bytes[offset..offset + 4] == page[offset..offset + 4];
        assert bytes[offset + 4..Min(offset + 4 + pairSize, page.Length)] == pairData;
        var decoded := codec.fromBytes(pairData);
        if decoded.None? {
          return Err(Corrupt);
        }
        pairs := pairs + [decoded.value];
        offset := offset + 4 + pairSize;
        i := i + 1;
      }
      return Ok(pairs);
    }

    /** `set_leaf`: write the entry count, then each pair's length field and
        pickled bytes back to back from byte 8. */
    method SetLeaf(codec: Codec, buffer: Buffer, pairs: seq<Pair>)
      requires LeafFits(EncodeAll(codec, pairs), buffer.page.Length) && buffer.page.Length < U32Limit
      modifies buffer.page
      ensures buffer.page[..] == WriteLeaf(old(buffer.page[..]), EncodeAll(codec, pairs))
    {
      ghost var blobs := EncodeAll(codec, pairs);
      ghost var before := buffer.page[..];
      assert |before| == buffer.page.Length;
      FitsBounds(blobs, buffer.page.Length);
      WriteBytes(buffer.page, 4, PackU32(|pairs|));
      ghost var head := before[..4] + PackU32(|pairs|);
      assert buffer.page[..] == head + Frame(blobs[..0]) + before[HeaderSize..];
      var offset: nat := HeaderSize;
      var i := 0;
      while i < |pairs|
        invariant 0 <= i <= |pairs| && Framable(blobs[..i])
        invariant offset == HeaderSize + FrameLen(blobs[..i])
        invariant offset <= buffer.page.Length
        invariant buffer.page[..] == head + Frame(blobs[..i]) + before[offset..]
      {
        var pairData := codec.toBytes(pairs[i]);
        var pairSize := |pairData|;
        WriteEntry(buffer.page, head, blobs, i, before, offset, pairData);
        offset := offset + 4 + pairSize;
        i := i + 1;
      }
      assert blobs[..i] == blobs;
    }

    /** `set_branch`: store a branch node's separators and children in a
        buffer of the pool. */
    method SetBranch(pool: BufferPoolManager, buffer: Buffer, keys: seq<Key>, children: seq<PageId>)
      requires pool.Valid() && pool.Holds(buffer)
      modifies buffer
      ensures pool.Valid() && buffer.branch == Branch(keys, children) && buffer.isDirty == old(buffer.isDirty)
      ensures pool.View() == StoreBranch(old(pool.View()), buffer.pageId, Branch(keys, children))
    {
      buffer.branch := Branch(keys, children);
      forall id | id in pool.buffers && id != buffer.pageId
        ensures Image(pool.buffers[id]) == old(Image(pool.buffers[id]))
      {
      }
    }
  }
}
