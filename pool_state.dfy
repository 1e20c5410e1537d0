/**
 * The buffer pool's bookkeeping as values: the frame array's slots, the free
 * list, the page table and the replacer's evictable set, the invariant that
 * ties them together, and one lemma per kind of step the manager takes,
 * each proving that the step keeps the invariant.
 */
module PoolState {
  import opened Types
  import opened Collections

  /** One slot of the pool: Page's metadata and data buffer. */
  datatype Frame = Frame(pageId: PageId, pinCount: nat, isDirty: bool, data: PageData)

  /** A slot as Page's constructor leaves it: no page, unpinned, clean, zeroed. */
  function EmptyFrame(): Frame
  {
    Frame(InvalidPageId, 0, false, Zeros())
  }

  /** The frames that may be evicted: resident and pinned by nobody. */
  function Evictable(frames: seq<Frame>, pageTable: map<PageId, FrameId>): set<FrameId>
  {
    set f | f in Range(pageTable) && 0 <= f < |frames| && frames[f].pinCount == 0
  }

  /** Every frame id is in exactly one of the free list and the page table's values. */
  ghost predicate FramesPartitioned(n: nat, freeList: seq<FrameId>, pageTable: map<PageId, FrameId>)
  {
    && NoDuplicates(freeList)
    && (forall i :: 0 <= i < |freeList| ==> 0 <= freeList[i] < n)
    && (forall p :: p in pageTable ==> 0 <= pageTable[p] < n)
    && (forall f :: 0 <= f < n ==> (f in freeList <==> f !in Range(pageTable)))
  }

  /** The page table is injective and each resident frame records the page id it is mapped under. */
  ghost predicate TableConsistent(frames: seq<Frame>, pageTable: map<PageId, FrameId>)
    requires forall p :: p in pageTable ==> 0 <= pageTable[p] < |frames|
  {
    && Injective(pageTable)
    && (forall p :: p in pageTable ==> frames[pageTable[p]].pageId == p)
  }

  ghost predicate PoolInvariant(frames: seq<Frame>, freeList: seq<FrameId>, pageTable: map<PageId, FrameId>, evictable: set<FrameId>)
  {
    && FramesPartitioned(|frames|, freeList, pageTable)
    && TableConsistent(frames, pageTable)
    && (forall i :: 0 <= i < |freeList| ==> frames[freeList[i]].pageId == InvalidPageId && frames[freeList[i]].pinCount == 0)
    && (forall f :: 0 <= f < |frames| ==> |frames[f].data| == PageSize)
    && evictable == Evictable(frames, pageTable)
  }

  /** A new pool: every frame empty and on the free list in order, nothing resident, nothing evictable. */
  lemma InitialInvariant(n: nat)
    ensures PoolInvariant(seq(n, _ => EmptyFrame()), Iota(n), map[], {})
  {
    var frames := seq(n, _ => EmptyFrame());
    IotaCard(n);
    assert NoDuplicates(Iota(n));
    forall f | 0 <= f < n ensures f in Iota(n) {
      assert Iota(n)[f] == f;
    }
  }

  /** The pool can hand out no frame exactly when every frame is resident and pinned. */
  lemma AllPinnedIff(frames: seq<Frame>, freeList: seq<FrameId>, pageTable: map<PageId, FrameId>, evictable: set<FrameId>)
    requires PoolInvariant(frames, freeList, pageTable, evictable)
    ensures (freeList == [] && evictable == {}) <==>
            (forall f :: 0 <= f < |frames| ==> f in Range(pageTable) && frames[f].pinCount > 0)
  {
    if freeList == [] && evictable == {} {
      forall f | 0 <= f < |frames| ensures f in Range(pageTable) && frames[f].pinCount > 0 {
        assert f !in Evictable(frames, pageTable);
      }
    }
    if freeList != [] {
      var f := freeList[0];
      assert f in freeList;
      assert 0 <= f < |frames| && f !in Range(pageTable);
    }
  }

  lemma TableFramesInPool(pageTable: map<PageId, FrameId>, n: nat)
    requires forall p :: p in pageTable ==> 0 <= pageTable[p] < n
    ensures forall f :: f in Range(pageTable) ==> 0 <= f < n
  {
    forall x | x in Range(pageTable) ensures 0 <= x < n {
      var p :| p in pageTable && pageTable[p] == x;
    }
  }

  /** The free list and the page table together account for every frame exactly once. */
  lemma Occupancy(frames: seq<Frame>, freeList: seq<FrameId>, pageTable: map<PageId, FrameId>, evictable: set<FrameId>)
    requires PoolInvariant(frames, freeList, pageTable, evictable)
    ensures |freeList| + |pageTable| == |frames|
    ensures |pageTable| <= |frames|
  {
    var n := |frames|;
    NoDuplicatesCard(freeList);
    InjectiveValuesCard(pageTable);
    IotaCard(n);
    TableFramesInPool(pageTable, n);
    var free := Elems(freeList);
    var used := Range(pageTable);
    assert free * used == {};
    assert free + used == Elems(Iota(n)) by {
      forall x | x in free ensures 0 <= x < n {
        var i :| 0 <= i < |freeList| && freeList[i] == x;
      }
      forall x | 0 <= x < n ensures x in free + used {
        if x !in freeList {
          assert x in used;
        }
      }
    }
  }

  /**
   * Changing a resident frame's pin count, dirty flag or data, but not its page
   * id, keeps the invariant once the frame enters the evictable set exactly
   * when its pin count is zero.
   */
  lemma UpdateResident(frames: seq<Frame>, freeList: seq<FrameId>, pageTable: map<PageId, FrameId>,
                       evictable: set<FrameId>, f: FrameId, nf: Frame)
    requires PoolInvariant(frames, freeList, pageTable, evictable)
    requires f in Range(pageTable)
    requires nf.pageId == frames[f].pageId && |nf.data| == PageSize
    ensures PoolInvariant(frames[f := nf], freeList, pageTable,
                          if nf.pinCount == 0 then evictable + {f} else evictable - {f})
  {
    var frames' := frames[f := nf];
    var ev' := if nf.pinCount == 0 then evictable + {f} else evictable - {f};
    assert Evictable(frames', pageTable) == ev';
    assert f !in freeList;
    forall i | 0 <= i < |freeList| ensures frames'[freeList[i]] == frames[freeList[i]] {
      assert freeList[i] != f;
    }
  }

  /** Taking the front of the free list for a page not yet resident and pinning it keeps the invariant. */
  lemma InstallFromFree(frames: seq<Frame>, freeList: seq<FrameId>, pageTable: map<PageId, FrameId>,
                        evictable: set<FrameId>, pid: PageId, nf: Frame)
    requires PoolInvariant(frames, freeList, pageTable, evictable)
    requires freeList != [] && pid !in pageTable
    requires nf.pageId == pid && nf.pinCount > 0 && |nf.data| == PageSize
    ensures PoolInvariant(frames[freeList[0] := nf], freeList[1..], pageTable[pid := freeList[0]], evictable)
  {
    var f := freeList[0];
    var frames' := frames[f := nf];
    var free' := freeList[1..];
    var table' := pageTable[pid := f];
    RangeInsert(pageTable, pid, f);
    assert f !in Range(pageTable);
    assert NoDuplicates(free') && f !in free' by {
      forall i, j | 0 <= i < j < |free'| ensures free'[i] != free'[j] {
        assert free'[i] == freeList[i + 1] && free'[j] == freeList[j + 1];
      }
      forall i | 0 <= i < |free'| ensures free'[i] != f {
        assert free'[i] == freeList[i + 1];
      }
    }
    forall g | 0 <= g < |frames| ensures (g in free' <==> g !in Range(table')) {
      if g != f {
        assert g in freeList <==> g in free' by {
          if g in freeList {
            var i :| 0 <= i < |freeList| && freeList[i] == g;
            assert free'[i - 1] == g;
          }
        }
      }
    }
    forall i | 0 <= i < |free'| ensures frames'[free'[i]] == frames[freeList[i + 1]] {
      assert free'[i] == freeList[i + 1];
    }
    assert Evictable(frames', table') == evictable;
  }

  /**
   * Reusing an evictable frame for a page not yet resident: the victim's page
   * leaves the table, the new page enters it under the same frame, and the
   * frame stops being evictable.
   */
  lemma InstallOverVictim(frames: seq<Frame>, freeList: seq<FrameId>, pageTable: map<PageId, FrameId>,
                          evictable: set<FrameId>, pid: PageId, f: FrameId, nf: Frame)
    requires PoolInvariant(frames, freeList, pageTable, evictable)
    requires f in evictable && pid !in pageTable
    requires nf.pageId == pid && nf.pinCount > 0 && |nf.data| == PageSize
    ensures frames[f].pageId in pageTable && pageTable[frames[f].pageId] == f
    ensures PoolInvariant(frames[f := nf], freeList, (pageTable - {frames[f].pageId})[pid := f], evictable - {f})
  {
    var q :| q in pageTable && pageTable[q] == f;
    assert frames[f].pageId == q;
    var frames' := frames[f := nf];
    var cut := pageTable - {q};
    var table' := cut[pid := f];
    RangeRemove(pageTable, q);
    RangeInsert(cut, pid, f);
    assert Range(table') == Range(pageTable);
    assert f !in freeList;
    forall i | 0 <= i < |freeList| ensures frames'[freeList[i]] == frames[freeList[i]] {
      assert freeList[i] != f;
    }
    assert Evictable(frames', table') == evictable - {f};
  }

  /**
   * Deleting an unpinned resident page: the page leaves the table, its frame
   * is emptied and goes to the back of the free list, and it stops being evictable.
   */
  lemma Release(frames: seq<Frame>, freeList: seq<FrameId>, pageTable: map<PageId, FrameId>,
                evictable: set<FrameId>, pid: PageId, nf: Frame)
    requires PoolInvariant(frames, freeList, pageTable, evictable)
    requires pid in pageTable && frames[pageTable[pid]].pinCount == 0
    requires nf.pageId == InvalidPageId && nf.pinCount == 0 && |nf.data| == PageSize
    ensures PoolInvariant(frames[pageTable[pid] := nf], freeList + [pageTable[pid]], pageTable - {pid},
                          evictable - {pageTable[pid]})
  {
    var f := pageTable[pid];
    var frames' := frames[f := nf];
    var free' := freeList + [f];
    var table' := pageTable - {pid};
    RangeRemove(pageTable, pid);
    assert f !in freeList;
    assert NoDuplicates(free');
    forall g | 0 <= g < |frames| ensures (g in free' <==> g !in Range(table')) {
      assert g in free' <==> g in freeList || g == f;
    }
    forall i | 0 <= i < |free'| ensures frames'[free'[i]].pageId == InvalidPageId && frames'[free'[i]].pinCount == 0 {
      if i < |freeList| {
        assert free'[i] == freeList[i] && freeList[i] != f;
      }
    }
    forall p | p in table' ensures frames'[table'[p]].pageId == p {
      assert table'[p] != f;
    }
    assert Evictable(frames', table') == evictable - {f};
  }

  /** `unordered_map::emplace`: inserts the key only if it is absent; a present key keeps its old value. */
  function Emplace(table: map<PageId, FrameId>, pid: PageId, f: FrameId): map<PageId, FrameId>
  {
    if pid in table then table else table[pid := f]
  }

  /**
   * new_page as written, taking a free frame for an id that is already resident:
   * the emplace keeps the old entry, so the popped frame is on neither the free
   * list nor the page table and the partition breaks.
   */
  lemma EmplaceOnResidentLeaksFrame(frames: seq<Frame>, freeList: seq<FrameId>, pageTable: map<PageId, FrameId>,
                                    evictable: set<FrameId>, pid: PageId)
    requires PoolInvariant(frames, freeList, pageTable, evictable)
    requires freeList != [] && pid in pageTable
    ensures !FramesPartitioned(|frames|, freeList[1..], Emplace(pageTable, pid, freeList[0]))
  {
    var f := freeList[0];
    assert Emplace(pageTable, pid, f) == pageTable;
    assert f in freeList;
    assert f !in Range(pageTable);
    assert f !in freeList[1..] by {
      forall i | 0 <= i < |freeList[1..]| ensures freeList[1..][i] != f {
        assert freeList[1..][i] == freeList[i + 1];
      }
    }
  }

  /**
   * The same with a victim frame: its page leaves the table, but the emplace
   * under an id resident elsewhere keeps the old entry, so the victim frame
   * is on neither the free list nor the page table.
   */
  lemma EmplaceOverVictimLeaksFrame(frames: seq<Frame>, freeList: seq<FrameId>, pageTable: map<PageId, FrameId>,
                                    evictable: set<FrameId>, pid: PageId, f: FrameId)
    requires PoolInvariant(frames, freeList, pageTable, evictable)
    requires f in evictable && pid in pageTable && pageTable[pid] != f
    ensures frames[f].pageId in pageTable && pageTable[frames[f].pageId] == f
    ensures !FramesPartitioned(|frames|, freeList, Emplace(pageTable - {frames[f].pageId}, pid, f))
  {
    var q :| q in pageTable && pageTable[q] == f;
    assert frames[f].pageId == q;
    var cut := pageTable - {q};
    assert pid != q && pid in cut;
    assert Emplace(cut, pid, f) == cut;
    RangeRemove(pageTable, q);
    assert f !in Range(cut);
    assert f !in freeList;
  }
}
