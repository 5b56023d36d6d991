/** The byte layout of a leaf page (`get_pairs` and `set_leaf`):
    bytes 0..4 hold the big-endian node-type tag, bytes 4..8 the big-endian
    entry count, and from offset 8 each entry is a big-endian 4-byte length
    followed by that many bytes of serialized pair. */
module LeafFormat {
  import opened Errors
  import opened Bytes
  import opened Pairs

  type Blob = seq<byte>

  const HeaderSize: nat := 8

  /** Bytes 0..4: 0 marks a leaf, anything else a branch. */
  function Tag(page: seq<byte>): (r: nat)
    requires |page| >= 4
    ensures r < U32Limit
  {
    UnpackU32(page[..4])
  }

  /** Bytes 4..8: the number of entries. */
  function LeafCount(page: seq<byte>): (r: nat)
    requires |page| >= HeaderSize
    ensures r < U32Limit
  {
    UnpackU32(page[4..8])
  }

  /** Number of bytes the entries take: a 4-byte length and the blob each. */
  function FrameLen(blobs: seq<Blob>): nat
  {
    if blobs == [] then 0 else 4 + |blobs[0]| + FrameLen(blobs[1..])
  }

  /** Every blob's length fits the 4-byte length field. */
  predicate Framable(blobs: seq<Blob>)
  {
    forall i :: 0 <= i < |blobs| ==> |blobs[i]| < U32Limit
  }

  /** The entries laid out back to back. */
  function Frame(blobs: seq<Blob>): (r: seq<byte>)
    requires Framable(blobs)
    ensures |r| == FrameLen(blobs)
  {
    if blobs == [] then [] else PackU32(|blobs[0]|) + blobs[0] + Frame(blobs[1..])
  }

  lemma SeqAssoc(x: seq<byte>, y: seq<byte>, z: seq<byte>)
    ensures x + (y + z) == x + y + z
  {
  }

  lemma {:induction false} FrameAppend(a: seq<Blob>, b: seq<Blob>)
    requires Framable(a) && Framable(b)
    ensures Framable(a + b)
    ensures FrameLen(a + b) == FrameLen(a) + FrameLen(b)
    ensures Frame(a + b) == Frame(a) + Frame(b)
  {
    if a == [] {
      assert a + b == b;
    } else {
      var ab := a + b;
      assert ab[0] == a[0] && ab[1..] == a[1..] + b;
      assert Framable(ab) by {
        forall i | 0 <= i < |ab| ensures |ab[i]| < U32Limit {
          if i >= |a| { assert ab[i] == b[i - |a|]; }
        }
      }
      FrameAppend(a[1..], b);
      var head := PackU32(|a[0]|) + a[0];
      calc {
        Frame(ab);
        head + Frame(a[1..] + b);
        head + (Frame(a[1..]) + Frame(b));
        { SeqAssoc(head, Frame(a[1..]), Frame(b)); }
        head + Frame(a[1..]) + Frame(b);
        Frame(a) + Frame(b);
      }
    }
  }

  /** The header and the entries together fit in a page. */
  predicate LeafFits(blobs: seq<Blob>, pageSize: nat)
  {
    HeaderSize + FrameLen(blobs) <= pageSize
  }

  /** Entries that fit in a page are small enough for their length fields,
      and so is their count. */
  lemma {:induction false} FitsBounds(blobs: seq<Blob>, pageSize: nat)
    requires LeafFits(blobs, pageSize) && pageSize < U32Limit
    ensures Framable(blobs) && |blobs| < U32Limit
  {
    FrameLenBounds(blobs);
  }

  lemma {:induction false} FrameLenBounds(blobs: seq<Blob>)
    ensures FrameLen(blobs) >= 4 * |blobs|
    ensures forall i :: 0 <= i < |blobs| ==> FrameLen(blobs) >= 4 + |blobs[i]|
  {
    if blobs != [] {
      FrameLenBounds(blobs[1..]);
      assert forall i :: 1 <= i < |blobs| ==> blobs[i] == blobs[1..][i - 1];
    }
  }

  /** The page after `set_leaf` has written `blobs`: the tag and every byte
      past the last entry are the page's old bytes, the count field and the
      entries lie in between. */
  function WriteLeaf(page: seq<byte>, blobs: seq<Blob>): (r: seq<byte>)
    requires LeafFits(blobs, |page|) && |page| < U32Limit
    ensures |r| == |page| && Framable(blobs) && |blobs| < U32Limit
    ensures var end := HeaderSize + FrameLen(blobs);
      && r[..4] == page[..4] && r[4..HeaderSize] == PackU32(|blobs|)
      && r[HeaderSize..end] == Frame(blobs) && r[end..] == page[end..]
  {
    FitsBounds(blobs, |page|);
    var count, frame := PackU32(|blobs|), Frame(blobs);
    var w := page[..4] + count + frame + page[HeaderSize + |frame|..];
    HeaderParts(page, count, frame, w);
    w
  }

  /** The `n` entries starting at byte `offset`, as the loop of `get_pairs`
      cuts them out: a length field that runs past the page is an error
      (struct.error), while a blob that runs past it is cut short, as a Python
      slice is. */
  function ParseFrames(page: seq<byte>, n: nat, offset: nat): (r: Option<seq<Blob>>)
    ensures r.Some? ==> |r.value| == n
    decreases n
  {
    if n == 0 then Some([])
    else if offset + 4 > |page| then None
    else
      var size := UnpackU32(page[offset..offset + 4]);
      var blob := page[offset + 4..Min(offset + 4 + size, |page|)];
      match ParseFrames(page, n - 1, offset + 4 + size)
      case None => None
      case Some(rest) => Some([blob] + rest)
  }

  /** Unpickles every blob; any failure is a failure of the whole list. */
  function DecodeAll(codec: Codec, blobs: seq<Blob>): (r: Option<seq<Pair>>)
    ensures r.Some? ==> |r.value| == |blobs|
  {
    if blobs == [] then Some([])
    else match (codec.fromBytes(blobs[0]), DecodeAll(codec, blobs[1..]))
      case (Some(p), Some(ps)) => Some([p] + ps)
      case _ => None
  }

  /** Pickles every pair, in order. */
  function EncodeAll(codec: Codec, pairs: seq<Pair>): (r: seq<Blob>)
    ensures |r| == |pairs|
    ensures forall i :: 0 <= i < |pairs| ==> r[i] == codec.toBytes(pairs[i])
  {
    if pairs == [] then [] else [codec.toBytes(pairs[0])] + EncodeAll(codec, pairs[1..])
  }

  /** What `get_pairs` returns for a page, or the error it raises. */
  function ParseLeaf(codec: Codec, page: seq<byte>): (r: Result<seq<Pair>>)
    requires |page| >= HeaderSize
    ensures r.Err? ==> r.error == Corrupt
    ensures r.Ok? ==> |r.value| == LeafCount(page)
  {
    match ParseFrames(page, LeafCount(page), HeaderSize)
    case None => Err(Corrupt)
    case Some(blobs) =>
      match DecodeAll(codec, blobs)
      case None => Err(Corrupt)
      case Some(pairs) => Ok(pairs)
  }

  lemma SubSlice(s: seq<byte>, a: nat, b: nat, c: nat, d: nat)
    requires a <= b <= |s| && c <= d <= b - a
    ensures s[a..b][c..d] == s[a + c..a + d]
  {
    forall i | 0 <= i < d - c ensures s[a..b][c..d][i] == s[a + c..a + d][i] {
    }
  }

  lemma MiddleOf(x: seq<byte>, y: seq<byte>, z: seq<byte>)
    ensures (x + y + z)[|x|..|x| + |y|] == y
  {
    forall i | 0 <= i < |y| ensures (x + y + z)[|x|..|x| + |y|][i] == y[i] {
    }
  }

  /** One turn of the entry loop over an entry that lies inside the page. */
  lemma ParseFramesStep(page: seq<byte>, offset: nat, size: nat, rest: seq<Blob>)
    requires offset + 4 + size <= |page|
    requires UnpackU32(page[offset..offset + 4]) == size
    requires ParseFrames(page, |rest|, offset + 4 + size) == Some(rest)
    ensures ParseFrames(page, |rest| + 1, offset) == Some([page[offset + 4..offset + 4 + size]] + rest)
  {
  }

  lemma ThreeParts(x: seq<byte>, y: seq<byte>, z: seq<byte>)
    ensures (x + y + z)[..|x|] == x
    ensures (x + y + z)[|x|..|x| + |y|] == y
    ensures (x + y + z)[|x| + |y|..] == z
  {
    MiddleOf(x, y, z);
  }

  /** Where the length field, the blob and what follows lie in the page
      when they are laid out back to back at `offset`. */
  lemma EntryAt(page: seq<byte>, offset: nat, head: seq<byte>, blob: Blob, rest: seq<byte>)
    requires |head| == 4
    requires offset + 4 + |blob| + |rest| <= |page|
    requires page[offset..offset + 4 + |blob| + |rest|] == head + blob + rest
    ensures page[offset..offset + 4] == head
    ensures page[offset + 4..offset + 4 + |blob|] == blob
    ensures page[offset + 4 + |blob|..offset + 4 + |blob| + |rest|] == rest
  {
    var size := |blob|;
    var len := 4 + size + |rest|;
    var run := page[offset..offset + len];
    ThreeParts(head, blob, rest);
    SubSlice(page, offset, offset + len, 0, 4);
    SubSlice(page, offset, offset + len, 4, 4 + size);
    SubSlice(page, offset, offset + len, 4 + size, len);
    assert run[4 + size..] == run[4 + size..len];
  }

  lemma FirstEntryParts(page: seq<byte>, blobs: seq<Blob>, offset: nat)
    requires Framable(blobs) && blobs != []
    requires offset + FrameLen(blobs) <= |page|
    requires page[offset..offset + FrameLen(blobs)] == Frame(blobs)
    ensures UnpackU32(page[offset..offset + 4]) == |blobs[0]|
    ensures page[offset + 4..offset + 4 + |blobs[0]|] == blobs[0]
    ensures page[offset + 4 + |blobs[0]|..offset + FrameLen(blobs)] == Frame(blobs[1..])
  {
    var head := PackU32(|blobs[0]|);
    UnpackPackU32(|blobs[0]|);
    EntryAt(page, offset, head, blobs[0], Frame(blobs[1..]));
  }

  /** Entries laid out at `offset` are read back exactly. */
  lemma {:induction false} ParseFramesOfFrame(page: seq<byte>, blobs: seq<Blob>, offset: nat)
    requires Framable(blobs)
    requires offset + FrameLen(blobs) <= |page|
    requires page[offset..offset + FrameLen(blobs)] == Frame(blobs)
    ensures ParseFrames(page, |blobs|, offset) == Some(blobs)
    decreases blobs
  {
    if blobs == [] {
      assert ParseFrames(page, 0, offset) == Some([]);
    } else {
      var size := |blobs[0]|;
      var rest := blobs[1..];
      var tail := offset + 4 + size;
      FirstEntryParts(page, blobs, offset);
      assert Framable(rest) by {
        forall j | 0 <= j < |rest| ensures |rest[j]| < U32Limit {
          assert rest[j] == blobs[j + 1];
        }
      }
      assert FrameLen(blobs) == 4 + size + FrameLen(rest);
      ParseFramesOfFrame(page, rest, tail);
      ParseFramesStep(page, offset, size, rest);
      assert blobs == [blobs[0]] + rest;
    }
  }

  lemma {:induction false} DecodeEncode(codec: Codec, pairs: seq<Pair>)
    requires RoundTrips(codec)
    ensures DecodeAll(codec, EncodeAll(codec, pairs)) == Some(pairs)
  {
    if pairs != [] {
      var first, rest := codec.toBytes(pairs[0]), EncodeAll(codec, pairs[1..]);
      var blobs := [first] + rest;
      assert EncodeAll(codec, pairs) == blobs;
      assert blobs[0] == first && blobs[1..] == rest;
      DecodeEncode(codec, pairs[1..]);
      assert codec.fromBytes(first) == Some(pairs[0]);
      assert DecodeAll(codec, blobs) == Some([pairs[0]] + pairs[1..]);
      assert [pairs[0]] + pairs[1..] == pairs;
    }
  }

  /** Framing round trip: after writing `blobs`, the count field reads
      `|blobs|` and the entry loop reads the same blobs in the same order. */
  lemma WriteLeafFrames(page: seq<byte>, blobs: seq<Blob>)
    requires LeafFits(blobs, |page|) && |page| < U32Limit
    ensures LeafCount(WriteLeaf(page, blobs)) == |blobs|
    ensures ParseFrames(WriteLeaf(page, blobs), |blobs|, HeaderSize) == Some(blobs)
  {
    FitsBounds(blobs, |page|);
    UnpackPackU32(|blobs|);
    ParseFramesOfFrame(WriteLeaf(page, blobs), blobs, HeaderSize);
  }

  lemma FourParts(w: seq<byte>, x: seq<byte>, y: seq<byte>, z: seq<byte>, u: seq<byte>, i: nat, j: nat, k: nat)
    requires w == x + y + z + u
    requires i == |x| && j == i + |y| && k == j + |z|
    ensures w[..i] == x && w[i..j] == y && w[j..k] == z && w[k..] == u
  {
    ThreeParts(x + y, z, u);
    ThreeParts(x, y, z + u);
    assert w == x + y + (z + u);
  }

  /** A page made of the old tag, a count field, the entries and the old tail
      splits back into those four parts. */
  lemma HeaderParts(page: seq<byte>, count: seq<byte>, frame: seq<byte>, w: seq<byte>)
    requires |count| == 4 && HeaderSize + |frame| <= |page|
    requires w == page[..4] + count + frame + page[HeaderSize + |frame|..]
    ensures w[..4] == page[..4] && w[4..HeaderSize] == count
    ensures w[HeaderSize..HeaderSize + |frame|] == frame
    ensures w[HeaderSize + |frame|..] == page[HeaderSize + |frame|..]
  {
    var end := HeaderSize + |frame|;
    FourParts(w, page[..4], count, frame, page[end..], 4, HeaderSize, end);
  }

  /** `set_leaf` touches only the count and the entries: the type tag and
      every byte past the last entry keep their old values. */
  lemma WriteLeafKeeps(page: seq<byte>, blobs: seq<Blob>)
    requires LeafFits(blobs, |page|) && |page| < U32Limit
    ensures WriteLeaf(page, blobs)[..4] == page[..4]
    ensures Tag(WriteLeaf(page, blobs)) == Tag(page)
    ensures forall i :: HeaderSize + FrameLen(blobs) <= i < |page| ==> WriteLeaf(page, blobs)[i] == page[i]
  {
    var w := WriteLeaf(page, blobs);
    var end := HeaderSize + FrameLen(blobs);
    forall i | end <= i < |page| ensures w[i] == page[i] {
      assert w[end..][i - end] == page[end..][i - end];
    }
  }

  /** Leaf round trip: reading back a leaf written from `pairs` gives `pairs`. */
  lemma LeafRoundTrip(codec: Codec, page: seq<byte>, pairs: seq<Pair>)
    requires RoundTrips(codec)
    requires LeafFits(EncodeAll(codec, pairs), |page|) && |page| < U32Limit
    ensures ParseLeaf(codec, WriteLeaf(page, EncodeAll(codec, pairs))) == Ok(pairs)
  {
    WriteLeafFrames(page, EncodeAll(codec, pairs));
    DecodeEncode(codec, pairs);
  }

  /** A page of zero bytes reads as an empty leaf. */
  lemma ZeroPageIsEmptyLeaf(codec: Codec, page: seq<byte>)
    requires |page| >= HeaderSize && forall i :: 0 <= i < |page| ==> page[i] == 0
    ensures Tag(page) == 0
    ensures ParseLeaf(codec, page) == Ok([])
  {
    assert page[..4] == PackU32(0);
    assert page[4..8] == PackU32(0);
    UnpackPackU32(0);
  }

  /** What `get_pairs` still returns after it has decoded `done` and has `n`
      entries left to read from byte `offset` on, one entry per step as its
      loop reads them. */
  function ResumeLeaf(codec: Codec, page: seq<byte>, n: nat, offset: nat, done: seq<Pair>): Result<seq<Pair>>
    decreases n
  {
    if n == 0 then Ok(done)
    else if offset + 4 > |page| then Err(Corrupt)
    else
      var size := UnpackU32(page[offset..offset + 4]);
      var blob := page[offset + 4..Min(offset + 4 + size, |page|)];
      match codec.fromBytes(blob)
      case None => Err(Corrupt)
      case Some(p) => ResumeLeaf(codec, page, n - 1, offset + 4 + size, done + [p])
  }

  /** What is left of `get_pairs` once the remaining entries have been cut
      out as `blobs`: unpickle them one by one onto `done`. */
  function ResumeBlobs(codec: Codec, blobs: seq<Blob>, done: seq<Pair>): Result<seq<Pair>>
    decreases |blobs|
  {
    if blobs == [] then Ok(done)
    else match codec.fromBytes(blobs[0])
      case None => Err(Corrupt)
      case Some(p) => ResumeBlobs(codec, blobs[1..], done + [p])
  }

  /** Unpickling one by one agrees with unpickling the whole list. */
  lemma {:induction false} ResumeBlobsAgrees(codec: Codec, blobs: seq<Blob>, done: seq<Pair>)
    ensures ResumeBlobs(codec, blobs, done) ==
      match DecodeAll(codec, blobs)
      case None => Err(Corrupt)
      case Some(ps) => Ok(done + ps)
    decreases |blobs|
  {
    if blobs == [] {
      assert done + [] == done;
    } else {
      match codec.fromBytes(blobs[0])
      case None =>
      case Some(p) =>
        ResumeBlobsAgrees(codec, blobs[1..], done + [p]);
        match DecodeAll(codec, blobs[1..])
        case None =>
        case Some(ps) => assert done + [p] + ps == done + ([p] + ps);
    }
  }

  /** Reading entry by entry agrees with cutting every entry out first and
      unpickling them afterwards. */
  lemma {:induction false} ResumeFrames(codec: Codec, page: seq<byte>, n: nat, offset: nat, done: seq<Pair>)
    ensures ResumeLeaf(codec, page, n, offset, done) ==
      match ParseFrames(page, n, offset)
      case None => Err(Corrupt)
      case Some(blobs) => ResumeBlobs(codec, blobs, done)
    decreases n
  {
    if n > 0 && offset + 4 <= |page| {
      var size := UnpackU32(page[offset..offset + 4]);
      var blob := page[offset + 4..Min(offset + 4 + size, |page|)];
      var next := offset + 4 + size;
      match codec.fromBytes(blob)
      case None => {
        match ParseFrames(page, n - 1, next)
        case None =>
        case Some(rest) => assert ([blob] + rest)[0] == blob;
      }
      case Some(p) =>
        ResumeFrames(codec, page, n - 1, next, done + [p]);
        match ParseFrames(page, n - 1, next)
        case None =>
        case Some(rest) => assert ([blob] + rest)[0] == blob && ([blob] + rest)[1..] == rest;
    }
  }

  /** Before the loop of `get_pairs` nothing is decoded and every entry is
      left. */
  lemma ResumeStart(codec: Codec, page: seq<byte>)
    requires |page| >= HeaderSize
    ensures ParseLeaf(codec, page) == ResumeLeaf(codec, page, LeafCount(page), HeaderSize, [])
  {
    ResumeFrames(codec, page, LeafCount(page), HeaderSize, []);
    match ParseFrames(page, LeafCount(page), HeaderSize)
    case None =>
    case Some(blobs) =>
      ResumeBlobsAgrees(codec, blobs, []);
      match DecodeAll(codec, blobs)
      case None =>
      case Some(ps) => assert [] + ps == ps;
  }

  /** A single entry is its length field followed by its bytes. */
  lemma FrameOne(blob: Blob)
    requires |blob| < U32Limit
    ensures Framable([blob]) && FrameLen([blob]) == 4 + |blob|
    ensures Frame([blob]) == PackU32(|blob|) + blob
  {
    var one: seq<Blob> := [blob];
    assert one[1..] == [];
    assert Frame(one) == PackU32(|blob|) + blob + [];
  }

  /** The entries before `i` end no later than all the entries do. */
  lemma FramePrefixLen(blobs: seq<Blob>, i: nat)
    requires Framable(blobs) && i <= |blobs|
    ensures Framable(blobs[..i]) && FrameLen(blobs[..i]) <= FrameLen(blobs)
  {
    var front, back := blobs[..i], blobs[i..];
    assert Framable(front) by {
      forall j | 0 <= j < |front| ensures |front[j]| < U32Limit {
        assert front[j] == blobs[j];
      }
    }
    assert Framable(back) by {
      forall j | 0 <= j < |back| ensures |back[j]| < U32Limit {
        assert back[j] == blobs[i + j];
      }
    }
    assert blobs == front + back;
    FrameAppend(front, back);
  }

  /** The entries up to and including `blobs[i]` are those before it
      followed by its length field and its bytes, and they end no later than
      all the entries do. */
  lemma FramePrefix(blobs: seq<Blob>, i: nat)
    requires Framable(blobs) && i < |blobs|
    ensures Framable(blobs[..i]) && Framable(blobs[..i + 1])
    ensures Frame(blobs[..i + 1]) == Frame(blobs[..i]) + PackU32(|blobs[i]|) + blobs[i]
    ensures FrameLen(blobs[..i + 1]) == FrameLen(blobs[..i]) + 4 + |blobs[i]|
    ensures FrameLen(blobs[..i + 1]) <= FrameLen(blobs)
  {
    assert blobs[..i + 1] == blobs[..i] + [blobs[i]];
    FramePrefixLen(blobs, i);
    FrameOne(blobs[i]);
    FrameAppend(blobs[..i], [blobs[i]]);
    FramePrefixLen(blobs, i + 1);
  }
}
