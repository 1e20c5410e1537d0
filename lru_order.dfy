/**
 * The LRU replacer's list as a value: index 0 is the front (the frame that
 * most recently became evictable), the last index is the back (the next victim).  Unpinned,
 * Pinned and Victimized say what Unpin, Pin and Victim do to the list; the
 * lemmas state what those operations keep.
 */
module LruOrder {
  import opened Types
  import opened Collections

  /** Unpin: push the frame to the front only when it is absent; a present frame keeps its place. */
  function Unpinned(s: seq<FrameId>, f: FrameId): seq<FrameId>
  {
    if f in s then s else [f] + s
  }

  /** Pin: drop the frame from the list, keeping every other frame in its order. */
  function Pinned(s: seq<FrameId>, f: FrameId): seq<FrameId>
  {
    if s == [] then []
    else if s[0] == f then Pinned(s[1..], f)
    else [s[0]] + Pinned(s[1..], f)
  }

  /** Victim: pop the back of a non-empty list. */
  function Victimized(s: seq<FrameId>): seq<FrameId>
    requires s != []
  {
    s[..|s| - 1]
  }

  /** Where the frame sits in the list: what m_lruMap's stored iterator points at. */
  function IndexOf(s: seq<FrameId>, f: FrameId): (i: nat)
    requires f in s
    ensures i < |s| && s[i] == f
    ensures forall j :: 0 <= j < i ==> s[j] != f
  {
    if s[0] == f then 0 else 1 + IndexOf(s[1..], f)
  }

  /**
   * Every listed frame carries an insertion stamp, and the stamps strictly fall
   * from front to back, so the back holds the frame inserted longest ago.
   */
  ghost predicate StampOrdered(s: seq<FrameId>, stamp: map<FrameId, nat>)
  {
    && (forall i :: 0 <= i < |s| ==> s[i] in stamp)
    && (forall i, j :: 0 <= i < j < |s| ==> stamp[s[i]] > stamp[s[j]])
  }

  lemma TailNoDuplicates(s: seq<FrameId>)
    requires s != [] && NoDuplicates(s)
    ensures NoDuplicates(s[1..]) && s[0] !in s[1..]
  {
    var t := s[1..];
    forall i, j | 0 <= i < j < |t| ensures t[i] != t[j] {
      assert t[i] == s[i + 1] && t[j] == s[j + 1];
    }
  }

  /** Unpin of an absent frame puts it in front of all the others; of a present one changes nothing. */
  lemma UnpinnedShape(s: seq<FrameId>, f: FrameId)
    requires NoDuplicates(s)
    ensures NoDuplicates(Unpinned(s, f))
    ensures Elems(Unpinned(s, f)) == Elems(s) + {f}
    ensures f in s ==> Unpinned(s, f) == s
    ensures f !in s ==> |Unpinned(s, f)| == |s| + 1 && Unpinned(s, f)[0] == f && Unpinned(s, f)[1..] == s
  {
  }

  /** Unpin is idempotent. */
  lemma UnpinnedIdempotent(s: seq<FrameId>, f: FrameId)
    ensures Unpinned(Unpinned(s, f), f) == Unpinned(s, f)
  {
  }

  /** Pinning an absent frame leaves the list as it is. */
  lemma {:induction false} PinnedAbsent(s: seq<FrameId>, f: FrameId)
    requires f !in s
    ensures Pinned(s, f) == s
  {
    if s != [] {
      PinnedAbsent(s[1..], f);
    }
  }

  /** Pinning a frame just unpinned undoes the Unpin: the list is as before the frame entered it. */
  lemma {:induction false} PinUndoesUnpin(s: seq<FrameId>, f: FrameId)
    requires f !in s
    ensures Pinned(Unpinned(s, f), f) == s
  {
    assert ([f] + s)[1..] == s;
    PinnedAbsent(s, f);
  }

  /** Pinning twice is pinning once. */
  lemma {:induction false} PinnedIdempotent(s: seq<FrameId>, f: FrameId)
    ensures Pinned(Pinned(s, f), f) == Pinned(s, f)
  {
    PinnedElems(s, f);
    PinnedAbsent(Pinned(s, f), f);
  }

  /** Pin removes exactly the frame and nothing else, and keeps the list duplicate-free. */
  lemma {:induction false} PinnedElems(s: seq<FrameId>, f: FrameId)
    ensures Elems(Pinned(s, f)) == Elems(s) - {f}
    ensures NoDuplicates(s) ==> NoDuplicates(Pinned(s, f))
  {
    if s != [] {
      var t := s[1..];
      PinnedElems(t, f);
      assert Elems(s) == {s[0]} + Elems(t);
      if s[0] != f {
        assert Elems(Pinned(s, f)) == {s[0]} + Elems(Pinned(t, f));
      }
      if NoDuplicates(s) {
        TailNoDuplicates(s);
        if s[0] != f {
          var r := Pinned(t, f);
          assert s[0] !in r by {
            assert s[0] !in Elems(t);
            assert s[0] !in Elems(r);
          }
          forall i, j | 0 <= i < j < |[s[0]] + r| ensures ([s[0]] + r)[i] != ([s[0]] + r)[j] {
            if i > 0 {
              assert ([s[0]] + r)[i] == r[i - 1];
            }
            assert ([s[0]] + r)[j] == r[j - 1];
          }
        }
      }
    }
  }

  /**
   * On a duplicate-free list Pin erases the one position holding the frame:
   * the frames before it and after it keep their relative order.
   */
  lemma {:induction false} PinnedAt(s: seq<FrameId>, f: FrameId, i: nat)
    requires NoDuplicates(s) && i < |s| && s[i] == f
    ensures Pinned(s, f) == s[..i] + s[i + 1..]
  {
    TailNoDuplicates(s);
    if i == 0 {
      PinnedAbsent(s[1..], f);
    } else {
      PinnedAt(s[1..], f, i - 1);
      assert s[1..][..i - 1] == s[1..i];
      assert s[1..][i..] == s[i + 1..];
      assert s[..i] == [s[0]] + s[1..i];
    }
  }

  /** Pin keeps the stamp order: removing an element of a falling sequence leaves it falling. */
  lemma {:induction false} PinnedStampOrdered(s: seq<FrameId>, f: FrameId, stamp: map<FrameId, nat>)
    requires StampOrdered(s, stamp)
    ensures StampOrdered(Pinned(s, f), stamp)
  {
    if s != [] {
      var t := s[1..];
      assert StampOrdered(t, stamp) by {
        forall i, j | 0 <= i < j < |t| ensures stamp[t[i]] > stamp[t[j]] {
          assert t[i] == s[i + 1] && t[j] == s[j + 1];
        }
      }
      PinnedStampOrdered(t, f, stamp);
      if s[0] != f {
        var r := Pinned(t, f);
        PinnedElems(t, f);
        forall x | x in r ensures x in t {
          assert x in Elems(r);
        }
        var c := [s[0]] + r;
        forall i, j | 0 <= i < j < |c| ensures stamp[c[i]] > stamp[c[j]] {
          assert c[j] == r[j - 1];
          assert c[j] in t;
          var k :| 0 <= k < |t| && t[k] == c[j];
          assert s[k + 1] == c[j];
          if i > 0 {
            assert c[i] == r[i - 1];
          }
        }
      }
    }
  }

  /** Unpin of an absent frame under a stamp larger than all others keeps the stamp order. */
  lemma UnpinnedStampOrdered(s: seq<FrameId>, f: FrameId, stamp: map<FrameId, nat>, clock: nat)
    requires StampOrdered(s, stamp)
    requires forall i :: 0 <= i < |s| ==> stamp[s[i]] < clock
    requires f !in s
    ensures StampOrdered(Unpinned(s, f), stamp[f := clock])
  {
    var c := Unpinned(s, f);
    var st := stamp[f := clock];
    forall i, j | 0 <= i < j < |c| ensures st[c[i]] > st[c[j]] {
      assert c[j] == s[j - 1];
      if i > 0 {
        assert c[i] == s[i - 1];
      }
    }
  }

  /** Popping the back keeps the stamp order. */
  lemma VictimizedStampOrdered(s: seq<FrameId>, stamp: map<FrameId, nat>)
    requires s != [] && StampOrdered(s, stamp)
    ensures StampOrdered(Victimized(s), stamp)
    ensures forall x :: x in Victimized(s) ==> stamp[s[|s| - 1]] < stamp[x]
  {
  }

  /** A strictly falling stamp order has no duplicates. */
  lemma StampOrderedNoDuplicates(s: seq<FrameId>, stamp: map<FrameId, nat>)
    requires StampOrdered(s, stamp)
    ensures NoDuplicates(s)
  {
  }
}
