/** What `BPlusTree.create`, `search` and `insert` do to the page pool,
    stated over its value view `PoolState`, and the properties of the tree
    those operations keep. */
module TreeSpec {
  import opened Errors
  import opened Bytes
  import opened Pairs
  import opened LeafFormat
  import opened Pages

  /** Python's default recursion limit: `search_internal` recurses once per
      level, so a descent deeper than this raises RecursionError. */
  const RecursionLimit: nat := 1000

  /** The pool after an operation, and what the operation returned or raised. */
  datatype Step<+T> = Step(pool: PoolState, out: Result<T>)

  // ---------------------------------------------------------------- lookup

  /** The loop `for pair in pairs: if pair.key == key: return ...`: the first
      pair with that key. */
  function FindInLeaf(pairs: seq<Pair>, key: Key): (r: Option<Pair>)
    ensures r.Some? ==> r.value in pairs && r.value.key == key
    ensures r.None? <==> !HasKey(pairs, key)
  {
    if pairs == [] then None
    else if pairs[0].key == key then Some(pairs[0])
    else
      var r := FindInLeaf(pairs[1..], key);
      assert HasKey(pairs, key) ==> HasKey(pairs[1..], key) by {
        if HasKey(pairs, key) {
          var i :| 0 <= i < |pairs| && pairs[i].key == key;
          assert pairs[1..][i - 1].key == key;
        }
      }
      assert HasKey(pairs[1..], key) ==> HasKey(pairs, key) by {
        if HasKey(pairs[1..], key) {
          var i :| 0 <= i < |pairs[1..]| && pairs[1..][i].key == key;
          assert pairs[i + 1].key == key;
        }
      }
      r
  }

  /** In a list without repeated keys, the lookup finds the one pair that has
      the key. */
  lemma FindUnique(s: seq<Pair>, p: Pair)
    requires StrictlySorted(s) && p in s
    ensures FindInLeaf(s, p.key) == Some(p)
  {
    var q := FindInLeaf(s, p.key).value;
    var i :| 0 <= i < |s| && s[i] == p;
    var j :| 0 <= j < |s| && s[j] == q;
    if i < j {
      KeyLessIrreflexive(p.key);
    } else if j < i {
      KeyLessIrreflexive(p.key);
    }
  }

  /** The loop `for i, key in enumerate(keys): if search_key < key: ...`:
      the index of the first separator strictly greater than the key, or the
      number of separators when there is none. */
  function ChildIndex(keys: seq<Key>, key: Key): (r: nat)
    ensures r <= |keys|
    ensures forall j :: 0 <= j < r ==> !KeyLess(key, keys[j])
    ensures r < |keys| ==> KeyLess(key, keys[r])
  {
    if keys == [] then 0
    else if KeyLess(key, keys[0]) then 0
    else 1 + ChildIndex(keys[1..], key)
  }

  /** Separators in strictly ascending order. */
  predicate KeysAscending(keys: seq<Key>)
  {
    forall i, j :: 0 <= i < j < |keys| ==> KeyLess(keys[i], keys[j])
  }

  /** With ascending separators, the chosen child splits the separators: all
      before it are at most the key, all from it on are above the key. */
  lemma SeparatorPartition(keys: seq<Key>, key: Key)
    requires KeysAscending(keys)
    ensures forall j :: 0 <= j < ChildIndex(keys, key) ==> !KeyLess(key, keys[j])
    ensures forall j :: ChildIndex(keys, key) <= j < |keys| ==> KeyLess(key, keys[j])
  {
    var r := ChildIndex(keys, key);
    forall j | r < j < |keys| ensures KeyLess(key, keys[j]) {
      KeyLessTransitive(key, keys[r], keys[j]);
    }
  }

  /** Ties go right: a key equal to separator `j` is routed to child `j + 1`. */
  lemma TiesGoRight(keys: seq<Key>, j: nat)
    requires KeysAscending(keys) && j < |keys|
    ensures ChildIndex(keys, keys[j]) == j + 1
  {
    var r := ChildIndex(keys, keys[j]);
    if r <= j {
      if r == j {
        KeyLessIrreflexive(keys[j]);
      } else {
        KeyLessAsymmetric(keys[r], keys[j]);
      }
    }
  }

  /** The child `search_internal` descends into: `children[i]` for the first
      separator above the key, otherwise `children[-1]`; `None` where Python
      raises IndexError. */
  function ChildOf(b: Branch, key: Key): (r: Option<PageId>)
    ensures |b.children| == |b.keys| + 1 ==> r == Some(b.children[ChildIndex(b.keys, key)])
    ensures r.None? ==> |b.children| <= |b.keys|
  {
    var i := ChildIndex(b.keys, key);
    if i < |b.keys| then
      if i < |b.children| then Some(b.children[i]) else None
    else if |b.children| > 0 then Some(b.children[|b.children| - 1])
    else None
  }

  /** `search_internal` on the node held in `img`, with `depth` levels of
      recursion left. */
  function SearchNode(codec: Codec, pages: map<PageId, PageImage>, img: PageImage, key: Key, depth: nat)
    : (r: Result<Option<Pair>>)
    ensures r.Ok? && r.value.Some? ==> r.value.value.key == key
    decreases depth
  {
    if |img.bytes| < 4 then Err(Corrupt)
    else if Tag(img.bytes) == 0 then
      if |img.bytes| < HeaderSize then Err(Corrupt)
      else match ParseLeaf(codec, img.bytes)
        case Err(e) => Err(e)
        case Ok(pairs) => Ok(FindInLeaf(pairs, key))
    else
      match ChildOf(img.branch, key)
      case None => Err(BadBranch)
      case Some(child) =>
        if child !in pages then Err(NoSuchPage)
        else if depth == 0 then Err(TooDeep)
        else SearchNode(codec, pages, pages[child], key, depth - 1)
  }

  /** `fetch_root_page`: the id stored in the first 8 bytes of the meta page. */
  function RootOf(s: PoolState, meta: PageId): (r: Result<PageId>)
    ensures r.Ok? ==> meta in s.pages && r.value in s.pages
    ensures r.Ok? ==> |s.pages[meta].bytes| >= 8 && IdBytes(r.value) == s.pages[meta].bytes[..8]
  {
    if meta !in s.pages then Err(NoSuchPage)
    else if |s.pages[meta].bytes| < 8 then Err(Corrupt)
    else
      var id := ReadPageId(s.pages[meta].bytes[..8]);
      IdBytesOfRead(s.pages[meta].bytes[..8]);
      if id !in s.pages then Err(NoSuchPage) else Ok(id)
  }

  /** `search` with `SearchMode.Key(key)`. */
  function SearchTree(codec: Codec, s: PoolState, meta: PageId, key: Key): (r: Result<Option<Pair>>)
    ensures r.Ok? ==> RootOf(s, meta).Ok?
    ensures r.Ok? && r.value.Some? ==> r.value.value.key == key
  {
    match RootOf(s, meta)
    case Err(e) => Err(e)
    case Ok(root) => SearchNode(codec, s.pages, s.pages[root], key, RecursionLimit)
  }

  // ---------------------------------------------------------------- insertion

  /** `insert_internal` on the node held in `img`: the node's new image and
      the split it reports to its parent. A branch is not handled; a leaf
      rejects a key it already holds before writing anything, and otherwise
      is rewritten with the new pair added in key order and marked dirty. */
  function InsertIntoNode(codec: Codec, img: PageImage, key: Key, value: Value)
    : (r: Result<(PageImage, Option<(Key, PageId)>)>)
    ensures |img.bytes| >= 4 && Tag(img.bytes) != 0 ==> r == Err(NotImplemented)
    ensures r.Ok? ==> r.value.1.None?
    ensures r.Ok? ==> r.value.0.dirty && r.value.0.branch == img.branch
    ensures r.Ok? ==> |img.bytes| >= HeaderSize && |r.value.0.bytes| == |img.bytes| && Tag(r.value.0.bytes) == 0
  {
    if |img.bytes| < 4 then Err(Corrupt)
    else if Tag(img.bytes) != 0 then Err(NotImplemented)
    else if |img.bytes| < HeaderSize then Err(Corrupt)
    else match ParseLeaf(codec, img.bytes)
      case Err(e) => Err(e)
      case Ok(pairs) =>
        if FindInLeaf(pairs, key).Some? then Err(DuplicateKey)
        else
          var blobs := EncodeAll(codec, SortByKey(pairs + [Pair(key, value)]));
          if !LeafFits(blobs, |img.bytes|) || |img.bytes| >= U32Limit then Err(LeafOverflow)
          else
            WriteLeafKeeps(img.bytes, blobs);
            Ok((img.(bytes := WriteLeaf(img.bytes, blobs), dirty := true), None))
  }

  /** The root-growing branch of `insert`: a new branch root over the old
      root and the new sibling. The new page gets tag 1 and is marked dirty,
      the meta page is repointed to it and marked dirty, and the branch gets
      the separator and the two children. */
  function GrowTree(s: PoolState, meta: PageId, oldRoot: PageId, sep: Key, sib: PageId): (r: Step<()>)
    ensures r.out.Err? ==> r.out == Err(PoolExhausted) || r.out == Err(NoSuchPage)
    ensures r.out == Err(PoolExhausted) <==> s.next >= IdLimit
    ensures r.out == Err(NoSuchPage) <==> s.next < IdLimit && meta !in s.pages && meta != s.next
    ensures r.out.Ok? ==> r.pool.next == s.next + 1 && s.next in r.pool.pages
  {
    match AllocPage(s)
    case Err(e) => Step(s, Err(e))
    case Ok((s1, nr)) =>
      var s2 := MarkPage(WriteAt(s1, nr, 0, PackU32(1)), nr);
      if meta !in s2.pages then Step(s2, Err(NoSuchPage))
      else
        var s3 := MarkPage(WriteAt(s2, meta, 0, IdBytes(nr)), meta);
        Step(StoreBranch(s3, nr, Branch([sep], [oldRoot, sib])), Ok(()))
  }

  /** `insert`: insert into the root, and grow a new root if the root split.
      No insert reports a split, so a successful insert rewrites the root
      page alone, to the image `insert_internal` gives it. */
  function InsertTree(codec: Codec, s: PoolState, meta: PageId, key: Key, value: Value): (r: Step<()>)
    ensures r.out.Ok? ==> RootOf(s, meta).Ok?
    ensures r.out.Ok? ==>
      var root := RootOf(s, meta).value;
      InsertIntoNode(codec, s.pages[root], key, value).Ok? &&
      r.pool == s.(pages := s.pages[root := InsertIntoNode(codec, s.pages[root], key, value).value.0])
  {
    match RootOf(s, meta)
    case Err(e) => Step(s, Err(e))
    case Ok(root) =>
      match InsertIntoNode(codec, s.pages[root], key, value)
      case Err(e) => Step(s, Err(e))
      case Ok((img, split)) =>
        var s1 := s.(pages := s.pages[root := img]);
        match split
        case None => Step(s1, Ok(()))
        case Some((sep, sib)) => GrowTree(s1, meta, root, sep, sib)
  }

  /** `create`: a meta page and an empty leaf root; the meta page's first 8
      bytes hold the root's id. Both pages are marked dirty. */
  function CreateTree(s: PoolState): (r: Step<PageId>)
    ensures r.out.Err? <==> s.next + 1 >= IdLimit
    ensures r.out.Err? ==> r.out.error == PoolExhausted
    ensures r.out.Ok? ==> r.out.value == s.next && r.pool.next == s.next + 2
  {
    match AllocPage(s)
    case Err(e) => Step(s, Err(e))
    case Ok((s1, meta)) =>
      match AllocPage(s1)
      case Err(e) => Step(s1, Err(e))
      case Ok((s2, root)) =>
        var s3 := WriteAt(WriteAt(s2, root, 0, PackU32(0)), meta, 0, IdBytes(root));
        Step(MarkPage(MarkPage(s3, meta), root), Ok(meta))
  }

  /** `create` step by step, as the method takes the steps. */
  lemma CreateSteps(s0: PoolState, s1: PoolState, meta: PageId, s2: PoolState, root: PageId)
    requires AllocPage(s0) == Ok((s1, meta)) && AllocPage(s1) == Ok((s2, root))
    ensures CreateTree(s0) == Step(MarkPage(MarkPage(WriteAt(WriteAt(s2, root, 0, PackU32(0)), meta, 0, IdBytes(root)), meta), root), Ok(meta))
  {
  }

  /** The root-growing branch of `insert` step by step, as the method takes
      the steps. */
  lemma GrowSteps(s0: PoolState, meta: PageId, oldRoot: PageId, sep: Key, sib: PageId, s1: PoolState, nr: PageId)
    requires AllocPage(s0) == Ok((s1, nr))
    ensures var s2 := MarkPage(WriteAt(s1, nr, 0, PackU32(1)), nr);
      GrowTree(s0, meta, oldRoot, sep, sib) ==
        if meta !in s2.pages then Step(s2, Err(NoSuchPage))
        else Step(StoreBranch(MarkPage(WriteAt(s2, meta, 0, IdBytes(nr)), meta), nr, Branch([sep], [oldRoot, sib])), Ok(()))
  {
  }

  // ---------------------------------------------------------------- properties

  /** The tree's root is a separate leaf page whose pairs are in strictly
      ascending key order. */
  predicate LeafRoot(codec: Codec, s: PoolState, meta: PageId)
  {
    RootOf(s, meta).Ok? && RootOf(s, meta).value != meta &&
    var img := s.pages[RootOf(s, meta).value];
    |img.bytes| == PageSize && Tag(img.bytes) == 0 &&
    ParseLeaf(codec, img.bytes).Ok? && StrictlySorted(ParseLeaf(codec, img.bytes).value)
  }

  /** The pairs of a leaf root. */
  function RootPairs(codec: Codec, s: PoolState, meta: PageId): seq<Pair>
    requires LeafRoot(codec, s, meta)
  {
    ParseLeaf(codec, s.pages[RootOf(s, meta).value].bytes).value
  }

  /** The leaf that holds `pairs` with the pair added, pickled, fits a page
      of `size` bytes. */
  predicate InsertFits(codec: Codec, pairs: seq<Pair>, key: Key, value: Value, size: nat)
  {
    LeafFits(EncodeAll(codec, SortByKey(pairs + [Pair(key, value)])), size)
  }

  /** The duplicate-key rule of `insert_internal`: a leaf insert succeeds
      exactly when the leaf reads, does not hold the key and the rewritten
      leaf fits its page; it raises DuplicateKeyError exactly when the leaf
      reads and already holds the key. */
  lemma InsertIntoNodeOutcome(codec: Codec, img: PageImage, key: Key, value: Value)
    ensures InsertIntoNode(codec, img, key, value).Ok? <==>
      |img.bytes| >= HeaderSize && |img.bytes| < U32Limit && Tag(img.bytes) == 0 &&
      ParseLeaf(codec, img.bytes).Ok? && !HasKey(ParseLeaf(codec, img.bytes).value, key) &&
      InsertFits(codec, ParseLeaf(codec, img.bytes).value, key, value, |img.bytes|)
    ensures InsertIntoNode(codec, img, key, value) == Err(DuplicateKey) <==>
      |img.bytes| >= HeaderSize && Tag(img.bytes) == 0 &&
      ParseLeaf(codec, img.bytes).Ok? && HasKey(ParseLeaf(codec, img.bytes).value, key)
  {
  }

  /** The same rule for `insert` on a tree whose root is a leaf: a fresh
      key whose leaf still fits is accepted, and DuplicateKeyError is raised
      exactly when the root leaf holds the key. */
  lemma InsertTreeOutcome(codec: Codec, s: PoolState, meta: PageId, key: Key, value: Value)
    requires LeafRoot(codec, s, meta)
    ensures InsertTree(codec, s, meta, key, value).out.Ok? <==>
      !HasKey(RootPairs(codec, s, meta), key) && InsertFits(codec, RootPairs(codec, s, meta), key, value, PageSize)
    ensures InsertTree(codec, s, meta, key, value).out == Err(DuplicateKey) <==>
      HasKey(RootPairs(codec, s, meta), key)
  {
    InsertIntoNodeOutcome(codec, s.pages[RootOf(s, meta).value], key, value);
  }

  /** Inserting a fresh key into a leaf whose pairs are strictly ascending,
      when the new leaf fits: the insert succeeds, and the rewritten page
      reads back as the old pairs with the new pair added and sorted by key,
      still strictly ascending and one pair longer. */
  lemma InsertIntoLeaf(codec: Codec, img: PageImage, key: Key, value: Value, pairs: seq<Pair>)
    requires RoundTrips(codec)
    requires HeaderSize <= |img.bytes| < U32Limit && Tag(img.bytes) == 0
    requires ParseLeaf(codec, img.bytes) == Ok(pairs) && StrictlySorted(pairs)
    requires !HasKey(pairs, key) && InsertFits(codec, pairs, key, value, |img.bytes|)
    ensures InsertIntoNode(codec, img, key, value).Ok?
    ensures ParseLeaf(codec, InsertIntoNode(codec, img, key, value).value.0.bytes) == Ok(SortByKey(pairs + [Pair(key, value)]))
    ensures StrictlySorted(SortByKey(pairs + [Pair(key, value)]))
    ensures |SortByKey(pairs + [Pair(key, value)])| == |pairs| + 1
    ensures multiset(SortByKey(pairs + [Pair(key, value)])) == multiset(pairs) + multiset{Pair(key, value)}
  {
    InsertIntoNodeOutcome(codec, img, key, value);
    var sorted := SortByKey(pairs + [Pair(key, value)]);
    AppendAndSort(pairs, Pair(key, value));
    LeafRoundTrip(codec, img.bytes, sorted);
  }

  /** A key the leaf already holds is rejected and nothing is written. */
  lemma DuplicateRejected(codec: Codec, s: PoolState, meta: PageId, key: Key, value: Value)
    requires RootOf(s, meta).Ok?
    requires |s.pages[RootOf(s, meta).value].bytes| >= HeaderSize && Tag(s.pages[RootOf(s, meta).value].bytes) == 0
    requires ParseLeaf(codec, s.pages[RootOf(s, meta).value].bytes).Ok?
    requires HasKey(ParseLeaf(codec, s.pages[RootOf(s, meta).value].bytes).value, key)
    ensures InsertTree(codec, s, meta, key, value) == Step(s, Err(DuplicateKey))
  {
  }

  /** A failed insert leaves every page, every dirty flag and the pool as
      they were; only a leaf insert can succeed, and it never splits, so the
      root never grows. */
  lemma InsertFailsCleanly(codec: Codec, s: PoolState, meta: PageId, key: Key, value: Value)
    ensures InsertTree(codec, s, meta, key, value).out.Err? ==> InsertTree(codec, s, meta, key, value).pool == s
    ensures InsertTree(codec, s, meta, key, value).out.Ok? ==>
      RootOf(s, meta).Ok? &&
      InsertTree(codec, s, meta, key, value).pool.pages.Keys == s.pages.Keys &&
      InsertTree(codec, s, meta, key, value).pool.next == s.next
  {
  }

  /** Inserting a fresh key that fits into a leaf root succeeds, keeps the
      root a strictly ascending leaf, finds the new key afterwards, and
      leaves the lookup of every other key as it was. */
  lemma SearchAfterInsert(codec: Codec, s: PoolState, meta: PageId, key: Key, value: Value, other: Key)
    requires RoundTrips(codec) && LeafRoot(codec, s, meta)
    requires !HasKey(RootPairs(codec, s, meta), key) && InsertFits(codec, RootPairs(codec, s, meta), key, value, PageSize)
    ensures InsertTree(codec, s, meta, key, value).out.Ok?
    ensures LeafRoot(codec, InsertTree(codec, s, meta, key, value).pool, meta)
    ensures RootOf(InsertTree(codec, s, meta, key, value).pool, meta) == RootOf(s, meta)
    ensures SearchTree(codec, InsertTree(codec, s, meta, key, value).pool, meta, key) == Ok(Some(Pair(key, value)))
    ensures other != key ==>
      SearchTree(codec, InsertTree(codec, s, meta, key, value).pool, meta, other) == SearchTree(codec, s, meta, other)
  {
    var root := RootOf(s, meta).value;
    var img := s.pages[root];
    var pairs := ParseLeaf(codec, img.bytes).value;
    var img' := InsertIntoNode(codec, img, key, value).value.0;
    var s' := InsertTree(codec, s, meta, key, value).pool;
    assert s' == s.(pages := s.pages[root := img']);
    assert s'.pages[meta] == s.pages[meta];
    assert RootOf(s', meta) == Ok(root);
    InsertIntoLeaf(codec, img, key, value, pairs);
    var ps := SortByKey(pairs + [Pair(key, value)]);
    LookupAfterAdd(pairs, ps, Pair(key, value), other);
  }

  /** In a strictly ascending list that is `pairs` with `p` added, the lookup
      of `p`'s key finds `p` and the lookup of any other key is unchanged. */
  lemma LookupAfterAdd(pairs: seq<Pair>, ps: seq<Pair>, p: Pair, other: Key)
    requires StrictlySorted(pairs) && StrictlySorted(ps)
    requires multiset(ps) == multiset(pairs) + multiset{p}
    ensures FindInLeaf(ps, p.key) == Some(p)
    ensures other != p.key ==> FindInLeaf(ps, other) == FindInLeaf(pairs, other)
  {
    assert p in multiset(ps);
    FindUnique(ps, p);
    if other != p.key {
      match FindInLeaf(pairs, other)
      case Some(q) =>
        assert q in multiset(ps);
        FindUnique(ps, q);
        FindUnique(pairs, q);
      case None =>
        forall i | 0 <= i < |ps| ensures ps[i].key != other {
          assert ps[i] in multiset(ps);
        }
    }
  }

  /** The two pages `create` adds: the meta page holding the root's id and
      the root page holding tag 0, both dirty. */
  lemma CreateLayout(s: PoolState)
    requires WellFormed(s) && CreateTree(s).out.Ok?
    ensures CreateTree(s).out.value == s.next && s.next + 1 < IdLimit
    ensures CreateTree(s).pool == PoolState(
      s.pages[s.next := PageImage(Overwrite(Zeros(PageSize), 0, IdBytes(s.next + 1)), true, Branch([], []))]
             [s.next + 1 := PageImage(Overwrite(Zeros(PageSize), 0, PackU32(0)), true, Branch([], []))],
      s.next + 2)
  {
  }

  /** The root page `create` writes is all zero bytes, so it reads as an
      empty leaf. */
  lemma EmptyRootPage(codec: Codec)
    ensures |Overwrite(Zeros(PageSize), 0, PackU32(0))| == PageSize
    ensures Tag(Overwrite(Zeros(PageSize), 0, PackU32(0))) == 0
    ensures ParseLeaf(codec, Overwrite(Zeros(PageSize), 0, PackU32(0))) == Ok([])
  {
    var rb := Overwrite(Zeros(PageSize), 0, PackU32(0));
    forall i | 0 <= i < |rb| ensures rb[i] == 0 {
      if i < 4 {
        assert rb[i] == rb[0..4][i];
      }
    }
    ZeroPageIsEmptyLeaf(codec, rb);
  }

  /** `create` on a well-formed pool adds two dirty pages, the meta page
      and the root, and leaves every existing page as it was. */
  lemma CreateAddsTwoPages(s: PoolState)
    requires WellFormed(s) && CreateTree(s).out.Ok?
    ensures WellFormed(CreateTree(s).pool)
    ensures CreateTree(s).out.value == s.next && s.next !in s.pages && s.next + 1 !in s.pages
    ensures CreateTree(s).pool.pages.Keys == s.pages.Keys + {s.next, s.next + 1}
    ensures CreateTree(s).pool.pages[s.next].dirty && CreateTree(s).pool.pages[s.next + 1].dirty
    ensures forall id :: id in s.pages ==> CreateTree(s).pool.pages[id] == s.pages[id]
  {
    CreateLayout(s);
  }

  /** The meta page `create` writes points at the root page, a separate
      page that reads as an empty leaf. */
  lemma CreateGivesEmptyTree(codec: Codec, s: PoolState)
    requires WellFormed(s) && CreateTree(s).out.Ok?
    ensures RootOf(CreateTree(s).pool, CreateTree(s).out.value) == Ok(s.next + 1)
    ensures LeafRoot(codec, CreateTree(s).pool, CreateTree(s).out.value)
    ensures ParseLeaf(codec, CreateTree(s).pool.pages[s.next + 1].bytes) == Ok([])
  {
    CreateLayout(s);
    var meta, root := s.next, s.next + 1;
    var t := CreateTree(s).pool;
    assert t.pages[meta].bytes[..8] == IdBytes(root);
    IdRoundTrip(root);
    assert RootOf(t, meta) == Ok(root);
    EmptyRootPage(codec);
  }

  /** Every lookup in a newly created tree finds nothing. */
  lemma CreateThenSearch(codec: Codec, s: PoolState, key: Key)
    requires WellFormed(s) && CreateTree(s).out.Ok?
    ensures SearchTree(codec, CreateTree(s).pool, CreateTree(s).out.value, key) == Ok(None)
  {
    CreateGivesEmptyTree(codec, s);
    var t := CreateTree(s).pool;
    var img := t.pages[s.next + 1];
    assert SearchTree(codec, t, s.next, key) == SearchNode(codec, t.pages, img, key, RecursionLimit);
  }

  /** The pages growing the root changes: the new page holds tag 1, the
      branch and the dirty flag; the meta page holds the new root's id and is
      dirty. */
  lemma GrowLayout(s: PoolState, meta: PageId, oldRoot: PageId, sep: Key, sib: PageId)
    requires WellFormed(s) && meta in s.pages && GrowTree(s, meta, oldRoot, sep, sib).out.Ok?
    ensures s.next !in s.pages && s.next < IdLimit
    ensures GrowTree(s, meta, oldRoot, sep, sib).pool == PoolState(
      s.pages[s.next := PageImage(Overwrite(Zeros(PageSize), 0, PackU32(1)), true, Branch([sep], [oldRoot, sib]))]
             [meta := s.pages[meta].(bytes := Overwrite(s.pages[meta].bytes, 0, IdBytes(s.next)), dirty := true)],
      s.next + 1)
  {
  }

  /** The root that `insert` grows: the meta page points at the new page,
      which is tagged as a branch over the old root and the new sibling, and
      both are dirty; the old root and the sibling themselves are untouched. */
  lemma GrowRootShape(s: PoolState, meta: PageId, oldRoot: PageId, sep: Key, sib: PageId)
    requires WellFormed(s) && meta in s.pages && oldRoot in s.pages && sib in s.pages
    requires oldRoot != meta && sib != meta
    requires GrowTree(s, meta, oldRoot, sep, sib).out.Ok?
    ensures RootOf(GrowTree(s, meta, oldRoot, sep, sib).pool, meta) == Ok(s.next)
    ensures s.next !in s.pages
    ensures Tag(GrowTree(s, meta, oldRoot, sep, sib).pool.pages[s.next].bytes) == 1
    ensures GrowTree(s, meta, oldRoot, sep, sib).pool.pages[s.next].branch == Branch([sep], [oldRoot, sib])
    ensures GrowTree(s, meta, oldRoot, sep, sib).pool.pages[s.next].dirty
    ensures GrowTree(s, meta, oldRoot, sep, sib).pool.pages[meta].dirty
    ensures GrowTree(s, meta, oldRoot, sep, sib).pool.pages[oldRoot] == s.pages[oldRoot]
    ensures GrowTree(s, meta, oldRoot, sep, sib).pool.pages[sib] == s.pages[sib]
  {
    GrowLayout(s, meta, oldRoot, sep, sib);
    var t := GrowTree(s, meta, oldRoot, sep, sib).pool;
    var nr := s.next;
    assert t.pages[meta].bytes[..8] == IdBytes(nr);
    IdRoundTrip(nr);
    var nb := t.pages[nr].bytes;
    assert nb[..4] == PackU32(1);
    UnpackPackU32(1);
  }

  /** A search in the grown tree goes from the new root to the old root for
      keys below the separator and to the new sibling for all others. */
  lemma GrowRootRoutes(codec: Codec, s: PoolState, meta: PageId, oldRoot: PageId, sep: Key, sib: PageId, key: Key)
    requires WellFormed(s) && meta in s.pages && oldRoot in s.pages && sib in s.pages
    requires oldRoot != meta && sib != meta
    requires GrowTree(s, meta, oldRoot, sep, sib).out.Ok?
    ensures SearchTree(codec, GrowTree(s, meta, oldRoot, sep, sib).pool, meta, key) ==
      var t := GrowTree(s, meta, oldRoot, sep, sib).pool;
      SearchNode(codec, t.pages, t.pages[if KeyLess(key, sep) then oldRoot else sib], key, RecursionLimit - 1)
  {
    GrowRootShape(s, meta, oldRoot, sep, sib);
    var t := GrowTree(s, meta, oldRoot, sep, sib).pool;
    BranchRootRoutes(codec, t, meta, s.next, sep, oldRoot, sib, key);
  }

  /** A search in a tree whose root is a branch with one separator goes to
      its first child for keys below the separator and to its second child
      for all others. */
  lemma BranchRootRoutes(codec: Codec, t: PoolState, meta: PageId, root: PageId, sep: Key, left: PageId, right: PageId, key: Key)
    requires RootOf(t, meta) == Ok(root) && left in t.pages && right in t.pages
    requires |t.pages[root].bytes| >= 4 && Tag(t.pages[root].bytes) != 0
    requires t.pages[root].branch == Branch([sep], [left, right])
    ensures SearchTree(codec, t, meta, key) ==
      SearchNode(codec, t.pages, t.pages[if KeyLess(key, sep) then left else right], key, RecursionLimit - 1)
  {
    var child := if KeyLess(key, sep) then left else right;
    assert ChildOf(t.pages[root].branch, key) == Some(child);
  }
}
