/**
 * LRUReplacer: the set of frames the buffer pool may evict, kept as a list
 * (front = most recently made evictable, back = next victim) plus the key set of
 * the frame-to-position map.  Every public call is one atomic step; the
 * internal mutex is not modelled.
 */
module LruReplacer {
  import opened Types
  import opened Collections
  import opened LruOrder

  class LRUReplacer {
    /** num_pages: the capacity hint given at construction. */
    const numPages: nat
    /** m_lruList, index 0 = front. */
    var lruList: seq<FrameId>
    /** The keys of m_lruMap; the stored list iterators are positions, given by IndexOf. */
    var lruMap: set<FrameId>
    /** Insertion time of each frame that entered the list through Unpin. */
    ghost var stamp: map<FrameId, nat>
    /** The next insertion time. */
    ghost var clock: nat

    /** The list has no duplicates, its elements are exactly the map's keys, and it is ordered by insertion time. */
    ghost predicate Valid()
      reads this
    {
      && NoDuplicates(lruList)
      && lruMap == Elems(lruList)
      && StampOrdered(lruList, stamp)
      && (forall i :: 0 <= i < |lruList| ==> stamp[lruList[i]] < clock)
    }

    /** A new replacer is empty. */
    constructor (numPages: nat)
      ensures Valid()
      ensures this.numPages == numPages
      ensures lruList == [] && lruMap == {}
    {
      this.numPages := numPages;
      lruList := [];
      lruMap := {};
      stamp := map[];
      clock := 0;
    }

    /** The number of evictable frames: the map size, which is also the list length. */
    method Size() returns (n: nat)
      requires Valid()
      ensures n == |lruMap|
      ensures n == |lruList|
    {
      NoDuplicatesCard(lruList);
      n := |lruMap|;
    }

    /**
     * Remove and return the back of the list, the frame that has been
     * evictable longest; on an empty replacer report nothing and change nothing.
     */
    method Victim() returns (victim: Option<FrameId>)
      requires Valid()
      modifies this
      ensures Valid()
      ensures stamp == old(stamp) && clock == old(clock)
      ensures old(lruList) == [] ==> victim == None && lruList == old(lruList) && lruMap == old(lruMap)
      ensures old(lruList) != [] ==>
        && victim == Some(old(lruList)[|old(lruList)| - 1])
        && lruList == Victimized(old(lruList))
        && lruMap == old(lruMap) - {victim.value}
        && victim.value in old(lruMap)
        && |lruMap| == |old(lruMap)| - 1
      ensures victim.Some? ==> forall g :: g in lruMap ==> stamp[victim.value] < stamp[g]
    {
      var size := Size();
      if size == 0 {
        return None;
      }
      var back := lruList[|lruList| - 1];
      VictimizedStampOrdered(lruList, stamp);
      lruMap := lruMap - {back};
      lruList := lruList[..|lruList| - 1];
      StampOrderedNoDuplicates(lruList, stamp);
      NoDuplicatesCard(lruList);
      NoDuplicatesCard(old(lruList));
      victim := Some(back);
    }

    /** Make the frame ineligible: erase it if present, otherwise do nothing. */
    method Pin(f: FrameId)
      requires Valid()
      modifies this
      ensures Valid()
      ensures stamp == old(stamp) && clock == old(clock)
      ensures lruList == Pinned(old(lruList), f)
      ensures lruMap == old(lruMap) - {f}
      ensures f !in old(lruMap) ==> lruList == old(lruList)
    {
      PinnedElems(lruList, f);
      PinnedStampOrdered(lruList, f, stamp);
      if f in lruMap {
        var i := IndexOf(lruList, f);
        PinnedAt(lruList, f, i);
        lruList := lruList[..i] + lruList[i + 1..];
        lruMap := lruMap - {f};
      } else {
        PinnedAbsent(lruList, f);
      }
    }

    /**
     * Make the frame eligible: an absent frame goes to the front, so it is the
     * last to be victimised; a present frame is left where it is.
     */
    method Unpin(f: FrameId)
      requires Valid()
      modifies this
      ensures Valid()
      ensures lruList == Unpinned(old(lruList), f)
      ensures lruMap == old(lruMap) + {f}
      ensures f in old(lruMap) ==> lruList == old(lruList) && stamp == old(stamp) && clock == old(clock)
      ensures f !in old(lruMap) ==> forall g :: g in lruMap && g != f ==> stamp[g] < stamp[f]
      ensures f !in old(lruMap) ==> stamp == old(stamp)[f := old(clock)] && clock == old(clock) + 1
    {
      UnpinnedShape(lruList, f);
      if f !in lruMap {
        UnpinnedStampOrdered(lruList, f, stamp, clock);
        lruList := [f] + lruList;
        lruMap := lruMap + {f};
        stamp := stamp[f := clock];
        clock := clock + 1;
      }
    }
  }
}
