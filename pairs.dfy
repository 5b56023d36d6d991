/** Keys, key-value pairs, the pair serializer, and the ordering that the
    leaf keeps its pairs in. */
module Pairs {
  import opened Errors
  import opened Bytes

  type Key = seq<byte>
  type Value = seq<byte>

  /** Python's `a < b` on `bytes`: unsigned byte-wise comparison, and a
      proper prefix is smaller than the longer key. */
  predicate KeyLess(a: Key, b: Key)
  {
    if |a| == 0 then |b| > 0
    else if |b| == 0 then false
    else a[0] < b[0] || (a[0] == b[0] && KeyLess(a[1..], b[1..]))
  }

  lemma {:induction false} KeyLessIrreflexive(a: Key)
    ensures !KeyLess(a, a)
  {
    if |a| > 0 {
      KeyLessIrreflexive(a[1..]);
    }
  }

  lemma {:induction false} KeyLessTransitive(a: Key, b: Key, c: Key)
    requires KeyLess(a, b) && KeyLess(b, c)
    ensures KeyLess(a, c)
  {
    if |a| > 0 && a[0] == b[0] && b[0] == c[0] {
      KeyLessTransitive(a[1..], b[1..], c[1..]);
    }
  }

  /** Python's `bytes` comparison: `a < b` exactly when `a` is a proper
      prefix of `b`, or at the first position where they differ `a` holds
      the smaller byte. */
  lemma {:induction false} KeyLessLexicographic(a: Key, b: Key)
    ensures KeyLess(a, b) <==>
      (|a| < |b| && a == b[..|a|]) ||
      (exists i :: 0 <= i < |a| && i < |b| && a[..i] == b[..i] && a[i] < b[i])
  {
    if |a| > 0 && |b| > 0 {
      var a', b' := a[1..], b[1..];
      KeyLessLexicographic(a', b');
      if KeyLess(a, b) {
        if a[0] < b[0] {
          assert a[..0] == b[..0];
        } else if |a'| < |b'| && a' == b'[..|a'|] {
          assert a == [a[0]] + a' && b[..|a|] == [b[0]] + b'[..|a'|];
        } else {
          var j :| 0 <= j < |a'| && j < |b'| && a'[..j] == b'[..j] && a'[j] < b'[j];
          assert a[..j + 1] == [a[0]] + a'[..j] && b[..j + 1] == [b[0]] + b'[..j];
          assert a[j + 1] < b[j + 1];
        }
      }
      if |a| < |b| && a == b[..|a|] {
        assert a[0] == b[0];
        assert a' == b'[..|a'|];
      }
      if exists i :: 0 <= i < |a| && i < |b| && a[..i] == b[..i] && a[i] < b[i] {
        var i :| 0 <= i < |a| && i < |b| && a[..i] == b[..i] && a[i] < b[i];
        if i > 0 {
          assert a[0] == a[..i][0] == b[..i][0] == b[0];
          assert a'[..i - 1] == a[1..i] == b[1..i] == b'[..i - 1];
          assert a'[i - 1] < b'[i - 1];
        }
      }
    }
  }

  /** Two distinct keys are always ordered one way or the other. */
  lemma {:induction false} KeyLessTotal(a: Key, b: Key)
    requires a != b
    ensures KeyLess(a, b) || KeyLess(b, a)
  {
    if |a| > 0 && |b| > 0 && a[0] == b[0] {
      assert a == [a[0]] + a[1..] && b == [b[0]] + b[1..];
      KeyLessTotal(a[1..], b[1..]);
    }
  }

  lemma {:induction false} KeyLessAsymmetric(a: Key, b: Key)
    requires KeyLess(a, b)
    ensures !KeyLess(b, a)
  {
    if KeyLess(b, a) {
      KeyLessTransitive(a, b, a);
      KeyLessIrreflexive(a);
    }
  }

  /** The `Pair` record of btree.py. */
  datatype Pair = Pair(key: Key, value: Value)

  /** `Pair.to_bytes` / `Pair.from_bytes`. Their byte format belongs to
      Python's pickle module, so the model takes them as a parameter. */
  datatype Codec = Codec(toBytes: Pair -> seq<byte>, fromBytes: seq<byte> -> Option<Pair>)

  /** What the tree relies on: unpickling a pickled pair gives the pair back. */
  ghost predicate RoundTrips(codec: Codec)
  {
    forall p: Pair :: codec.fromBytes(codec.toBytes(p)) == Some(p)
  }

  predicate HasKey(pairs: seq<Pair>, key: Key)
  {
    exists i :: 0 <= i < |pairs| && pairs[i].key == key
  }

  /** Ascending by key, equal keys allowed (what `list.sort(key=...)` produces). */
  predicate SortedByKey(s: seq<Pair>)
  {
    forall i, j :: 0 <= i < j < |s| ==> !KeyLess(s[j].key, s[i].key)
  }

  /** Strictly ascending by key: sorted and no key twice. */
  predicate StrictlySorted(s: seq<Pair>)
  {
    forall i, j :: 0 <= i < j < |s| ==> KeyLess(s[i].key, s[j].key)
  }

  lemma StrictlySortedIsSorted(s: seq<Pair>)
    requires StrictlySorted(s)
    ensures SortedByKey(s)
  {
    forall i, j | 0 <= i < j < |s| ensures !KeyLess(s[j].key, s[i].key) {
      KeyLessAsymmetric(s[i].key, s[j].key);
    }
  }

  /** Places `p` after every pair whose key is not greater than its own. */
  function InsertByKey(s: seq<Pair>, p: Pair): (r: seq<Pair>)
    requires SortedByKey(s)
    ensures SortedByKey(r)
    ensures multiset(r) == multiset(s) + multiset{p}
  {
    if s == [] then [p]
    else if KeyLess(p.key, s[0].key) then
      PrependBelow(s, p);
      [p] + s
    else
      var rest := InsertByKey(s[1..], p);
      PrependHead(s, p, rest);
      [s[0]] + rest
  }

  /** A pair whose key is below the first key of a sorted list may precede it. */
  lemma PrependBelow(s: seq<Pair>, p: Pair)
    requires SortedByKey(s) && s != [] && KeyLess(p.key, s[0].key)
    ensures SortedByKey([p] + s)
  {
    forall j | 0 <= j < |s| ensures !KeyLess(s[j].key, p.key) {
      if j == 0 {
        KeyLessAsymmetric(p.key, s[0].key);
      } else if KeyLess(s[j].key, p.key) {
        KeyLessTransitive(s[j].key, p.key, s[0].key);
      }
    }
  }

  /** The head of a sorted list may precede the tail with `p` inserted, when
      `p`'s key is not below the head's. */
  lemma PrependHead(s: seq<Pair>, p: Pair, rest: seq<Pair>)
    requires SortedByKey(s) && s != [] && !KeyLess(p.key, s[0].key)
    requires SortedByKey(rest) && multiset(rest) == multiset(s[1..]) + multiset{p}
    ensures SortedByKey([s[0]] + rest)
    ensures multiset([s[0]] + rest) == multiset(s) + multiset{p}
  {
    assert s == [s[0]] + s[1..];
    forall j | 0 <= j < |rest| ensures !KeyLess(rest[j].key, s[0].key) {
      assert rest[j] in multiset(rest);
      if rest[j] != p {
        assert rest[j] in s[1..];
      }
    }
  }

  /** Python's `pairs.sort(key=lambda p: p.key)`: a stable sort by key,
      written as an insertion sort that adds the last element to the sorted
      prefix. */
  function SortByKey(s: seq<Pair>): (r: seq<Pair>)
    ensures SortedByKey(r)
    ensures multiset(r) == multiset(s)
    ensures |r| == |s|
  {
    if s == [] then []
    else
      assert s == s[..|s| - 1] + [s[|s| - 1]];
      var r := InsertByKey(SortByKey(s[..|s| - 1]), s[|s| - 1]);
      assert |multiset(r)| == |multiset(s)|;
      r
  }

  /** A pair whose key is not below any key of a sorted list goes at its end. */
  lemma {:induction false} InsertLargest(s: seq<Pair>, p: Pair)
    requires SortedByKey(s)
    requires forall i :: 0 <= i < |s| ==> !KeyLess(p.key, s[i].key)
    ensures InsertByKey(s, p) == s + [p]
  {
    if s != [] {
      InsertLargest(s[1..], p);
    }
  }

  /** Sorting a list that is already sorted leaves it as it is. */
  lemma {:induction false} SortSorted(s: seq<Pair>)
    requires SortedByKey(s)
    ensures SortByKey(s) == s
  {
    if s != [] {
      var init := s[..|s| - 1];
      SortSorted(init);
      InsertLargest(init, s[|s| - 1]);
      assert init + [s[|s| - 1]] == s;
    }
  }

  /** Inserting a fresh key into a strictly sorted list keeps it strictly sorted. */
  lemma {:induction false} InsertByKeyStrict(s: seq<Pair>, p: Pair)
    requires StrictlySorted(s) && !HasKey(s, p.key)
    ensures SortedByKey(s) && StrictlySorted(InsertByKey(s, p))
  {
    StrictlySortedIsSorted(s);
    if s != [] && !KeyLess(p.key, s[0].key) {
      assert p.key != s[0].key;
      KeyLessTotal(p.key, s[0].key);
      InsertByKeyStrict(s[1..], p);
      var rest := InsertByKey(s[1..], p);
      assert s == [s[0]] + s[1..];
      forall j | 0 <= j < |rest| ensures KeyLess(s[0].key, rest[j].key) {
        assert rest[j] in multiset(rest);
        if rest[j] != p {
          assert rest[j] in s[1..];
        }
      }
    } else if s != [] {
      forall j | 0 <= j < |s| ensures KeyLess(p.key, s[j].key) {
        if j > 0 {
          KeyLessTransitive(p.key, s[0].key, s[j].key);
        }
      }
    }
  }

  /** What leaf insertion does to the pair list: appending a fresh pair to a
      strictly sorted list and sorting gives a strictly sorted list one longer,
      holding exactly the old pairs and the new one. */
  lemma AppendAndSort(s: seq<Pair>, p: Pair)
    requires StrictlySorted(s) && !HasKey(s, p.key)
    ensures SortedByKey(s) && SortByKey(s + [p]) == InsertByKey(s, p)
    ensures StrictlySorted(SortByKey(s + [p]))
    ensures |SortByKey(s + [p])| == |s| + 1
    ensures multiset(SortByKey(s + [p])) == multiset(s) + multiset{p}
  {
    StrictlySortedIsSorted(s);
    assert (s + [p])[..|s|] == s;
    SortSorted(s);
    InsertByKeyStrict(s, p);
  }
}
