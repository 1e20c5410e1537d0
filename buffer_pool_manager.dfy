/**
 * BufferPoolManager: a fixed array of frames, a FIFO free list of frame ids,
 * a page table from page id to frame id, one LRU replacer and a disk manager.
 * Every public call is one atomic step (the latch is not modelled); a Page*
 * result is the id of the frame it points into, or None for a null pointer.
 */
module BufferPool {
  import opened Types
  import opened Collections
  import opened LruOrder
  import opened LruReplacer
  import opened Disk
  import opened PoolState

  /** The disk writes find_replace issues for a victim: one write-back when it is dirty. */
  function EvictionWrites(victim: Frame): seq<DiskEvent>
  {
    if victim.isDirty then [Write(victim.pageId)] else []
  }

  /** The disk after find_replace has written back a victim, if it was dirty. */
  function StoreAfterEviction(store: map<PageId, PageData>, victim: Frame): map<PageId, PageData>
  {
    if victim.isDirty then store[victim.pageId := victim.data] else store
  }

  /** One write event per page id, in order. */
  function WriteEvents(ids: seq<PageId>): seq<DiskEvent>
  {
    if ids == [] then [] else [Write(ids[0])] + WriteEvents(ids[1..])
  }

  /** The writes of ids + [p] are the writes of ids followed by a write of p. */
  lemma {:induction false} WriteEventsSnoc(ids: seq<PageId>, p: PageId)
    ensures WriteEvents(ids + [p]) == WriteEvents(ids) + [Write(p)]
  {
    if ids != [] {
      assert (ids + [p])[1..] == ids[1..] + [p];
      WriteEventsSnoc(ids[1..], p);
    }
  }

  /** Logging one more write after the writes of ids gives the writes of ids + [p]. */
  lemma WriteEventsAppend(log: seq<DiskEvent>, ids: seq<PageId>, p: PageId)
    ensures (log + WriteEvents(ids)) + [Write(p)] == log + WriteEvents(ids + [p])
  {
    WriteEventsSnoc(ids, p);
  }

  /** The frames with the ones in cleaned marked clean. */
  function Cleaned(frames: seq<Frame>, cleaned: set<FrameId>): (r: seq<Frame>)
    ensures |r| == |frames|
    ensures forall g :: 0 <= g < |frames| ==> r[g] == (if g in cleaned then frames[g].(isDirty := false) else frames[g])
  {
    seq(|frames|, g requires 0 <= g < |frames| => if g in cleaned then frames[g].(isDirty := false) else frames[g])
  }

  /** The frames a set of page ids is mapped to. */
  function Image(pageTable: map<PageId, FrameId>, ids: set<PageId>): set<FrameId>
  {
    set p | p in ids && p in pageTable :: pageTable[p]
  }

  /** Cleaning one more frame is the same as marking that frame clean. */
  lemma CleanedStep(frames: seq<Frame>, cleaned: set<FrameId>, f: FrameId)
    requires 0 <= f < |frames|
    ensures Cleaned(frames, cleaned)[f := Cleaned(frames, cleaned)[f].(isDirty := false)] == Cleaned(frames, cleaned + {f})
  {
  }

  /** One more page id adds its frame to the image. */
  lemma ImageInsert(pageTable: map<PageId, FrameId>, ids: set<PageId>, p: PageId)
    requires p in pageTable
    ensures Image(pageTable, ids + {p}) == Image(pageTable, ids) + {pageTable[p]}
  {
  }

  /** The image of every key is the range. */
  lemma ImageAll(pageTable: map<PageId, FrameId>)
    ensures Image(pageTable, pageTable.Keys) == Range(pageTable)
  {
  }

  /** Every frame id in the page table lies in 0 .. n-1. */
  ghost predicate TableInRange(pageTable: map<PageId, FrameId>, n: nat)
  {
    forall p :: p in pageTable ==> 0 <= pageTable[p] < n
  }

  /**
   * The disk's store after flushing the pages of order, one after another,
   * each from the frame the page table maps it to.
   */
  function Flushed(store: map<PageId, PageData>, frames: seq<Frame>, pageTable: map<PageId, FrameId>,
                   order: seq<PageId>): map<PageId, PageData>
    requires TableInRange(pageTable, |frames|) && (forall i :: 0 <= i < |order| ==> order[i] in pageTable)
  {
    if order == [] then store
    else
      var last := order[|order| - 1];
      Flushed(store, frames, pageTable, order[..|order| - 1])[last := frames[pageTable[last]].data]
  }

  /** Flushing one more page overwrites it with its frame's data. */
  lemma FlushedStep(store: map<PageId, PageData>, frames: seq<Frame>, pageTable: map<PageId, FrameId>,
                    order: seq<PageId>, p: PageId)
    requires TableInRange(pageTable, |frames|) && (forall i :: 0 <= i < |order| ==> order[i] in pageTable)
    requires p in pageTable
    ensures forall i :: 0 <= i < |order + [p]| ==> (order + [p])[i] in pageTable
    ensures Flushed(store, frames, pageTable, order + [p]) == Flushed(store, frames, pageTable, order)[p := frames[pageTable[p]].data]
  {
    assert (order + [p])[..|order|] == order;
  }

  /** After flushing a list of pages, those pages hold their frames' data and every other page is as before. */
  lemma {:induction false} FlushedContents(store: map<PageId, PageData>, frames: seq<Frame>,
                                           pageTable: map<PageId, FrameId>, order: seq<PageId>)
    requires TableInRange(pageTable, |frames|) && (forall i :: 0 <= i < |order| ==> order[i] in pageTable)
    ensures Flushed(store, frames, pageTable, order).Keys == store.Keys + Elems(order)
    ensures forall q :: q in Flushed(store, frames, pageTable, order) ==>
      Flushed(store, frames, pageTable, order)[q] == (if q in order then frames[pageTable[q]].data else store[q])
  {
    if order != [] {
      var init := order[..|order| - 1];
      var last := order[|order| - 1];
      FlushedContents(store, frames, pageTable, init);
      assert order == init + [last];
      assert Elems(order) == Elems(init) + {last};
    }
  }

  class BufferPoolManager {
    const poolSize: nat
    /** pages_: the frames. */
    const pages: array<Frame>
    /** free_list_: frames holding no page, taken from the front and returned at the back. */
    var freeList: seq<FrameId>
    /** page_table_: where each resident page lives. */
    var pageTable: map<PageId, FrameId>
    /** replacer_: the evictable frames. */
    const replacer: LRUReplacer
    /** disk_manager_: the abstract disk. */
    const diskManager: DiskManager

    /**
     * The pool invariant over the current frames, plus: every resident page id
     * has already been handed out by the disk manager.
     */
    ghost predicate Valid()
      reads this, pages, replacer, diskManager
    {
      && pages.Length == poolSize
      && replacer.Valid()
      && diskManager.Valid()
      && PoolInvariant(pages[..], freeList, pageTable, replacer.lruMap)
      && (forall p :: p in pageTable ==> p < diskManager.nextPageId)
    }

    /** is_all_pinned: no free frame and nothing evictable. */
    ghost predicate AllPinned()
      reads this, replacer
    {
      freeList == [] && replacer.lruMap == {}
    }

    /** Every frame holds a page that somebody has pinned. */
    ghost predicate EveryFramePinned()
      reads this, pages
    {
      forall f :: 0 <= f < pages.Length ==> f in Range(pageTable) && pages[f].pinCount > 0
    }

    /** The frame find_replace will pick: the front of the free list, else the replacer's back. */
    ghost function ReplacementFrame(): (f: FrameId)
      reads this, pages, replacer, diskManager
      requires Valid() && !AllPinned()
      ensures 0 <= f < pages.Length
    {
      if freeList != [] then freeList[0]
      else
        assert replacer.lruList != [];
        var f := replacer.lruList[|replacer.lruList| - 1];
        assert f in replacer.lruMap;
        f
    }

    /** The pool part of the state (frames, free list, page table, replacer list) is as before. */
    twostate predicate PoolUnchanged()
      reads this, pages, replacer
    {
      && pages[..] == old(pages[..])
      && freeList == old(freeList)
      && pageTable == old(pageTable)
      && replacer.lruList == old(replacer.lruList)
      && replacer.lruMap == old(replacer.lruMap)
    }

    /** A new pool: every frame empty and free, in order 0 .. poolSize-1; nothing resident; an empty replacer. */
    constructor (poolSize: nat, diskManager: DiskManager)
      requires diskManager.Valid()
      ensures Valid()
      ensures this.poolSize == poolSize && this.diskManager == diskManager
      ensures fresh(pages) && fresh(replacer)
      ensures freeList == Iota(poolSize)
      ensures pageTable == map[]
      ensures replacer.lruList == [] && replacer.lruMap == {}
      ensures forall f :: 0 <= f < poolSize ==> pages[f] == EmptyFrame()
    {
      this.poolSize := poolSize;
      this.diskManager := diskManager;
      pages := new Frame[poolSize](_ => EmptyFrame());
      replacer := new LRUReplacer(poolSize);
      var list: seq<FrameId> := [];
      var i := 0;
      while i < poolSize
        invariant 0 <= i <= poolSize
        invariant list == Iota(i)
      {
        list := list + [i];
        i := i + 1;
      }
      freeList := list;
      pageTable := map[];
      new;
      InitialInvariant(poolSize);
      assert pages[..] == seq(poolSize, _ => EmptyFrame());
    }

    /** is_all_pinned: true exactly when no frame can be handed out, i.e. every frame is resident and pinned. */
    method IsAllPinned() returns (allPinned: bool)
      requires Valid()
      ensures allPinned <==> AllPinned()
      ensures allPinned <==> EveryFramePinned()
    {
      var size := replacer.Size();
      allPinned := |freeList| == 0 && size == 0;
      AllPinnedIff(pages[..], freeList, pageTable, replacer.lruMap);
    }

    /** init_new_page: the frame now holds the page, pinned once and clean; its data is untouched. */
    method InitNewPage(frameId: FrameId, pageId: PageId)
      requires 0 <= frameId < pages.Length
      modifies pages
      ensures pages[..] == old(pages[..])[frameId := old(pages[frameId]).(pageId := pageId, pinCount := 1, isDirty := false)]
    {
      pages[frameId] := pages[frameId].(pageId := pageId, pinCount := 1, isDirty := false);
    }

    /**
     * The state between find_replace and the rest of a load: frame frameId
     * has been taken and becomes consistent once it holds pageId, pinned once,
     * clean, with the given data, and the page table maps pageId to it.
     */
    ghost predicate ReadyToInstall(frameId: FrameId, pageId: PageId, data: PageData)
      reads this, pages, replacer, diskManager
    {
      && pages.Length == poolSize
      && replacer.Valid()
      && diskManager.Valid()
      && 0 <= frameId < pages.Length
      && pageId < diskManager.nextPageId
      && (forall p :: p in pageTable ==> p < diskManager.nextPageId)
      && PoolInvariant(pages[..][frameId := Frame(pageId, 1, false, data)], freeList, pageTable[pageId := frameId], replacer.lruMap)
    }

    /**
     * The common tail of FetchPageImpl's and NewPageImpl's miss paths: map the
     * page to the frame (page_table_.emplace), init_new_page, and fill the
     * frame's data.
     */
    method InstallPage(frameId: FrameId, pageId: PageId, data: PageData)
      requires ReadyToInstall(frameId, pageId, data)
      modifies this, pages
      ensures Valid()
      ensures pageTable == old(pageTable)[pageId := frameId]
      ensures freeList == old(freeList)
      ensures pages[..] == old(pages[..])[frameId := Frame(pageId, 1, false, data)]
    {
      pageTable := pageTable[pageId := frameId];
      InitNewPage(frameId, pageId);
      pages[frameId] := pages[frameId].(data := data);
      assert pages[..] == old(pages[..])[frameId := Frame(pageId, 1, false, data)];
    }

    /**
     * find_replace: take the front of the free list; failing that, take the
     * replacer's victim, drop its page from the page table and write it to disk
     * if it is dirty; failing both, return -1 and change nothing.  The frames
     * themselves are not touched.
     */
    method FindReplace() returns (replaceId: FrameId)
      requires Valid()
      modifies this, replacer, diskManager
      ensures replacer.Valid() && diskManager.Valid()
      ensures diskManager.nextPageId == old(diskManager.nextPageId)
      ensures old(AllPinned()) ==>
        && replaceId == -1
        && PoolUnchanged()
        && diskManager.store == old(diskManager.store) && diskManager.log == old(diskManager.log)
      ensures !old(AllPinned()) ==> replaceId == old(ReplacementFrame())
      ensures old(freeList) != [] ==>
        && freeList == old(freeList)[1..]
        && pageTable == old(pageTable)
        && replacer.lruList == old(replacer.lruList) && replacer.lruMap == old(replacer.lruMap)
        && diskManager.store == old(diskManager.store) && diskManager.log == old(diskManager.log)
      ensures old(freeList) == [] && !old(AllPinned()) ==>
        && freeList == old(freeList)
        && replacer.lruList == Victimized(old(replacer.lruList))
        && replacer.lruMap == old(replacer.lruMap) - {replaceId}
        && pageTable == old(pageTable) - {pages[replaceId].pageId}
        && diskManager.store == StoreAfterEviction(old(diskManager.store), pages[replaceId])
        && diskManager.log == old(diskManager.log) + EvictionWrites(pages[replaceId])
    {
      if freeList != [] {
        replaceId := freeList[0];
        freeList := freeList[1..];
      } else {
        replaceId := TakeVictim();
      }
    }

    /**
     * The replacer branch of find_replace, taken when the free list is empty:
     * with nothing evictable return -1; otherwise evict the victim's page.
     */
    method TakeVictim() returns (replaceId: FrameId)
      requires Valid() && freeList == []
      modifies this, replacer, diskManager
      ensures replacer.Valid() && diskManager.Valid()
      ensures diskManager.nextPageId == old(diskManager.nextPageId)
      ensures old(AllPinned()) ==>
        && replaceId == -1
        && PoolUnchanged()
        && diskManager.store == old(diskManager.store) && diskManager.log == old(diskManager.log)
      ensures !old(AllPinned()) ==> replaceId == old(ReplacementFrame())
      ensures !old(AllPinned()) ==>
        && freeList == old(freeList)
        && replacer.lruList == Victimized(old(replacer.lruList))
        && replacer.lruMap == old(replacer.lruMap) - {replaceId}
        && pageTable == old(pageTable) - {pages[replaceId].pageId}
        && diskManager.store == StoreAfterEviction(old(diskManager.store), pages[replaceId])
        && diskManager.log == old(diskManager.log) + EvictionWrites(pages[replaceId])
    {
      replaceId := -1;
      var size := replacer.Size();
      if size > 0 {
        var victim := replacer.Victim();
        replaceId := victim.value;
        assert replaceId in old(replacer.lruMap);
        var victimPage := pages[replaceId].pageId;
        pageTable := pageTable - {victimPage};
        if pages[replaceId].isDirty {
          diskManager.WritePage(victimPage, pages[replaceId].data);
        }
      }
    }

    /**
     * FetchPageImpl.  A resident page is pinned (its count set to 1 if it was
     * 0, otherwise left alone) and taken out of the replacer, with no eviction
     * and no disk access.  A missing page is read from disk into the frame
     * find_replace picks, unless every frame is pinned, in which case the
     * result is None and nothing changes.
     */
    method FetchPage(pageId: PageId) returns (page: Option<FrameId>)
      requires Valid()
      requires pageId < diskManager.nextPageId
      modifies this, pages, replacer, diskManager
      ensures Valid()
      ensures diskManager.nextPageId == old(diskManager.nextPageId)
      ensures page.None? <==> pageId !in old(pageTable) && old(EveryFramePinned())
      ensures pageId in old(pageTable) ==>
        var f := old(pageTable)[pageId];
        && page == Some(f)
        && pages[..] == old(pages[..])[f := (if old(pages[f].pinCount) == 0 then old(pages[f]).(pinCount := 1) else old(pages[f]))]
        && freeList == old(freeList)
        && pageTable == old(pageTable)
        && replacer.lruList == Pinned(old(replacer.lruList), f)
        && diskManager.store == old(diskManager.store) && diskManager.log == old(diskManager.log)
      ensures pageId !in old(pageTable) && old(AllPinned()) ==>
        && page == None
        && PoolUnchanged()
        && diskManager.store == old(diskManager.store) && diskManager.log == old(diskManager.log)
      ensures pageId !in old(pageTable) && !old(AllPinned()) ==>
        var f := old(ReplacementFrame());
        var fromFree := old(freeList) != [];
        var victim := old(pages[f]);
        && page == Some(f)
        && pages[..] == old(pages[..])[f := Frame(pageId, 1, false, Stored(old(diskManager.store), pageId))]
        && freeList == (if fromFree then old(freeList)[1..] else old(freeList))
        && replacer.lruList == (if fromFree then old(replacer.lruList) else Victimized(old(replacer.lruList)))
        && pageTable == (if fromFree then old(pageTable) else old(pageTable) - {victim.pageId})[pageId := f]
        && diskManager.store == (if fromFree then old(diskManager.store) else StoreAfterEviction(old(diskManager.store), victim))
        && diskManager.log == old(diskManager.log) + (if fromFree then [] else EvictionWrites(victim)) + [Read(pageId)]
    {
      AllPinnedIff(pages[..], freeList, pageTable, replacer.lruMap);
      if pageId in pageTable {
        var frameId := PinResident(pageId);
        return Some(frameId);
      }
      var allPinned := IsAllPinned();
      if !allPinned {
        var replaceId := LoadPage(pageId);
        return Some(replaceId);
      }
      return None;
    }

    /**
     * The hit branch of FetchPageImpl: pin count set to 1 if it was 0 and
     * otherwise left alone, the frame taken out of the replacer, nothing else changed.
     */
    method PinResident(pageId: PageId) returns (frameId: FrameId)
      requires Valid()
      requires pageId in pageTable
      modifies pages, replacer
      ensures Valid()
      ensures frameId == pageTable[pageId]
      ensures pages[..] == old(pages[..])[frameId := (if old(pages[frameId].pinCount) == 0 then old(pages[frameId]).(pinCount := 1) else old(pages[frameId]))]
      ensures replacer.lruList == Pinned(old(replacer.lruList), frameId)
    {
      frameId := pageTable[pageId];
      ghost var frames0 := pages[..];
      if pages[frameId].pinCount == 0 {
        pages[frameId] := pages[frameId].(pinCount := 1);
      }
      UpdateResident(frames0, freeList, pageTable, replacer.lruMap, frameId, pages[frameId]);
      assert pages[..] == frames0[frameId := pages[frameId]];
      replacer.Pin(frameId);
    }

    /**
     * The miss branch of FetchPageImpl when not every frame is pinned: the
     * frame find_replace picks is mapped to the page, pinned once, clean, and
     * filled by ReadPage.
     */
    method LoadPage(pageId: PageId) returns (replaceId: FrameId)
      requires Valid()
      requires pageId !in pageTable && pageId < diskManager.nextPageId
      requires !AllPinned()
      modifies this, pages, replacer, diskManager
      ensures Valid()
      ensures diskManager.nextPageId == old(diskManager.nextPageId)
      ensures
        var f := old(ReplacementFrame());
        var fromFree := old(freeList) != [];
        var victim := old(pages[f]);
        && replaceId == f
        && pages[..] == old(pages[..])[f := Frame(pageId, 1, false, Stored(old(diskManager.store), pageId))]
        && freeList == (if fromFree then old(freeList)[1..] else old(freeList))
        && replacer.lruList == (if fromFree then old(replacer.lruList) else Victimized(old(replacer.lruList)))
        && pageTable == (if fromFree then old(pageTable) else old(pageTable) - {victim.pageId})[pageId := f]
        && diskManager.store == (if fromFree then old(diskManager.store) else StoreAfterEviction(old(diskManager.store), victim))
        && diskManager.log == old(diskManager.log) + (if fromFree then [] else EvictionWrites(victim)) + [Read(pageId)]
    {
      ghost var frames0 := pages[..];
      ghost var free0 := freeList;
      ghost var table0 := pageTable;
      ghost var evictable0 := replacer.lruMap;
      ghost var store0 := diskManager.store;
      ghost var nf := Frame(pageId, 1, false, Stored(store0, pageId));
      ghost var chosen := ReplacementFrame();
      replaceId := FindReplace();
      if free0 != [] {
        InstallFromFree(frames0, free0, table0, evictable0, pageId, nf);
      } else {
        assert chosen in evictable0;
        InstallOverVictim(frames0, free0, table0, evictable0, pageId, replaceId, nf);
        assert frames0[replaceId].pageId != pageId;
      }
      var data := diskManager.ReadPage(pageId);
      assert ReadyToInstall(replaceId, pageId, data);
      InstallPage(replaceId, pageId, data);
    }

    /**
     * UnpinPageImpl.  A page that is not resident gives false and changes
     * nothing.  Otherwise the pin count drops by one but not below zero, the
     * frame goes to the replacer once the count is zero, and the dirty flag
     * becomes old || isDirty, so unpinning never clears it.
     */
    method UnpinPage(pageId: PageId, isDirty: bool) returns (ok: bool)
      requires Valid()
      modifies pages, replacer
      ensures Valid()
      ensures ok == (pageId in pageTable)
      ensures !ok ==> PoolUnchanged()
      ensures ok ==>
        var f := pageTable[pageId];
        var pins := if old(pages[f].pinCount) > 0 then old(pages[f].pinCount) - 1 else 0;
        && pages[..] == old(pages[..])[f := old(pages[f]).(pinCount := pins, isDirty := old(pages[f].isDirty) || isDirty)]
        && replacer.lruList == (if pins == 0 then Unpinned(old(replacer.lruList), f) else old(replacer.lruList))
    {
      if pageId !in pageTable {
        return false;
      }
      var frameId := pageTable[pageId];
      ghost var frames0 := pages[..];
      ghost var evictable0 := replacer.lruMap;
      var before := pages[frameId];
      var pins := if before.pinCount > 0 then before.pinCount - 1 else 0;
      var nf := before.(pinCount := pins, isDirty := before.isDirty || isDirty);
      UpdateResident(frames0, freeList, pageTable, evictable0, frameId, nf);
      pages[frameId] := nf;
      assert pages[..] == frames0[frameId := nf];
      if pins == 0 {
        replacer.Unpin(frameId);
      } else {
        assert frameId !in evictable0;
      }
      return true;
    }

    /**
     * FlushPageImpl.  A page that is not resident gives false.  Otherwise its
     * frame is written to disk whether or not it is dirty, and it becomes clean.
     */
    method FlushPage(pageId: PageId) returns (ok: bool)
      requires Valid()
      modifies pages, diskManager
      ensures Valid()
      ensures ok == (pageId in pageTable)
      ensures diskManager.nextPageId == old(diskManager.nextPageId)
      ensures !ok ==> PoolUnchanged() && diskManager.store == old(diskManager.store) && diskManager.log == old(diskManager.log)
      ensures ok ==>
        var f := pageTable[pageId];
        && pages[..] == old(pages[..])[f := old(pages[f]).(isDirty := false)]
        && diskManager.store == old(diskManager.store)[pageId := pages[f].data]
        && diskManager.log == old(diskManager.log) + [Write(pageId)]
    {
      if pageId !in pageTable {
        return false;
      }
      var frameId := pageTable[pageId];
      ghost var frames0 := pages[..];
      diskManager.WritePage(pageId, pages[frameId].data);
      pages[frameId] := pages[frameId].(isDirty := false);
      UpdateResident(frames0, freeList, pageTable, replacer.lruMap, frameId, pages[frameId]);
      assert pages[..] == frames0[frameId := pages[frameId]];
      return true;
    }

    /**
     * NewPageImpl.  A page id is always allocated first.  When every frame is
     * pinned the result is None, the pool is unchanged and the new id is
     * neither used nor released.  Otherwise the frame find_replace picks holds
     * the new page, zeroed, pinned once and clean.  On failure the returned id
     * is INVALID_PAGE_ID.
     */
    method NewPage() returns (page: Option<FrameId>, pageId: PageId)
      requires Valid()
      modifies this, pages, replacer, diskManager
      ensures Valid()
      ensures diskManager.nextPageId == old(diskManager.nextPageId) + 1
      ensures page.None? <==> old(EveryFramePinned())
      ensures old(AllPinned()) ==>
        && page == None && pageId == InvalidPageId
        && PoolUnchanged()
        && diskManager.store == old(diskManager.store)
        && diskManager.log == old(diskManager.log) + [Allocate(old(diskManager.nextPageId))]
      ensures !old(AllPinned()) ==>
        var f := old(ReplacementFrame());
        var fromFree := old(freeList) != [];
        var victim := old(pages[f]);
        && pageId == old(diskManager.nextPageId)
        && page == Some(f)
        && pages[..] == old(pages[..])[f := Frame(pageId, 1, false, Zeros())]
        && freeList == (if fromFree then old(freeList)[1..] else old(freeList))
        && replacer.lruList == (if fromFree then old(replacer.lruList) else Victimized(old(replacer.lruList)))
        && pageTable == (if fromFree then old(pageTable) else old(pageTable) - {victim.pageId})[pageId := f]
        && diskManager.store == (if fromFree then old(diskManager.store) else StoreAfterEviction(old(diskManager.store), victim))
        && diskManager.log == old(diskManager.log) + [Allocate(pageId)] + (if fromFree then [] else EvictionWrites(victim))
    {
      AllPinnedIff(pages[..], freeList, pageTable, replacer.lruMap);
      var id := diskManager.AllocatePage();
      var allPinned := IsAllPinned();
      if allPinned {
        return None, InvalidPageId;
      }
      ghost var frames0 := pages[..];
      ghost var free0 := freeList;
      ghost var table0 := pageTable;
      ghost var evictable0 := replacer.lruMap;
      ghost var nf := Frame(id, 1, false, Zeros());
      ghost var chosen := ReplacementFrame();
      var replaceId := FindReplace();
      if free0 != [] {
        InstallFromFree(frames0, free0, table0, evictable0, id, nf);
      } else {
        assert chosen in evictable0;
        InstallOverVictim(frames0, free0, table0, evictable0, id, replaceId, nf);
      }
      assert ReadyToInstall(replaceId, id, Zeros());
      InstallPage(replaceId, id, Zeros());
      return Some(replaceId), id;
    }

    /**
     * DeletePageImpl.  The page id is always deallocated first.  A page that is
     * not resident gives true; a pinned one gives false and the pool is
     * unchanged.  An unpinned resident page leaves the replacer and the page
     * table, its frame is zeroed, marked INVALID_PAGE_ID and appended to the
     * free list; this path also gives false, as the code is written.
     */
    method DeletePage(pageId: PageId) returns (ok: bool)
      requires Valid()
      modifies this, pages, replacer, diskManager
      ensures Valid()
      ensures diskManager.store == old(diskManager.store) && diskManager.nextPageId == old(diskManager.nextPageId)
      ensures diskManager.log == old(diskManager.log) + [Deallocate(pageId)]
      ensures ok <==> pageId !in old(pageTable)
      ensures pageId !in old(pageTable) ==> PoolUnchanged()
      ensures pageId in old(pageTable) && old(pages[pageTable[pageId]].pinCount) > 0 ==> PoolUnchanged()
      ensures pageId in old(pageTable) && old(pages[pageTable[pageId]].pinCount) == 0 ==>
        var f := old(pageTable)[pageId];
        && replacer.lruList == Pinned(old(replacer.lruList), f)
        && pageTable == old(pageTable) - {pageId}
        && pages[..] == old(pages[..])[f := old(pages[f]).(pageId := InvalidPageId, data := Zeros())]
        && freeList == old(freeList) + [f]
    {
      diskManager.DeallocatePage(pageId);
      if pageId !in pageTable {
        return true;
      }
      var frameId := pageTable[pageId];
      if pages[frameId].pinCount > 0 {
        return false;
      }
      ghost var frames0 := pages[..];
      ghost var table0 := pageTable;
      ghost var free0 := freeList;
      ghost var evictable0 := replacer.lruMap;
      replacer.Pin(frameId);
      pageTable := pageTable - {pageId};
      pages[frameId] := pages[frameId].(data := Zeros());
      pages[frameId] := pages[frameId].(pageId := InvalidPageId);
      freeList := freeList + [frameId];
      Release(frames0, free0, table0, evictable0, pageId, pages[frameId]);
      assert pages[..] == frames0[frameId := pages[frameId]];
      return false;
    }

    /**
     * The state FlushAllPagesImpl's loop keeps, against the frames, store and
     * log it started from: the pages of order have been flushed in that order,
     * their frames are clean, and keys holds the resident pages still to do.
     */
    ghost predicate FlushProgress(frames0: seq<Frame>, store0: map<PageId, PageData>, log0: seq<DiskEvent>,
                                  keys: set<PageId>, order: seq<PageId>)
      reads this, pages, replacer, diskManager
    {
      && Valid()
      && NoDuplicates(order)
      && keys == pageTable.Keys - Elems(order)
      && TableInRange(pageTable, |frames0|)
      && (forall i :: 0 <= i < |order| ==> order[i] in pageTable)
      && pages[..] == Cleaned(frames0, Image(pageTable, Elems(order)))
      && diskManager.store == Flushed(store0, frames0, pageTable, order)
      && diskManager.log == log0 + WriteEvents(order)
    }

    /** One iteration of FlushAllPagesImpl's loop: flush one page still to do. */
    method FlushNext(pageId: PageId, ghost frames0: seq<Frame>, ghost store0: map<PageId, PageData>,
                     ghost log0: seq<DiskEvent>, ghost keys: set<PageId>, ghost order: seq<PageId>)
      requires FlushProgress(frames0, store0, log0, keys, order)
      requires pageId in keys
      modifies pages, diskManager
      ensures FlushProgress(frames0, store0, log0, keys - {pageId}, order + [pageId])
      ensures diskManager.nextPageId == old(diskManager.nextPageId)
    {
      ghost var f := pageTable[pageId];
      ghost var before := pages[..];
      var ok := FlushPage(pageId);
      CleanedStep(frames0, Image(pageTable, Elems(order)), f);
      ImageInsert(pageTable, Elems(order), pageId);
      AppendFresh(order, pageId);
      assert before[f] == Cleaned(frames0, Image(pageTable, Elems(order)))[f];
      WriteEventsAppend(log0, order, pageId);
      FlushedStep(store0, frames0, pageTable, order, pageId);
      MoveToDone(pageTable.Keys, Elems(order), pageId);
    }

    /**
     * FlushAllPagesImpl: FlushPage on every resident page, in the page table's
     * (unspecified) iteration order, given here as the ghost result order.
     * Every resident frame ends clean, the disk holds every resident page's
     * data (written in that order), one write per resident page is logged,
     * and nothing else changes.
     */
    method FlushAllPages() returns (ghost order: seq<PageId>)
      requires Valid()
      modifies pages, diskManager
      ensures Valid()
      ensures pages[..] == Cleaned(old(pages[..]), Range(pageTable))
      ensures diskManager.nextPageId == old(diskManager.nextPageId)
      ensures NoDuplicates(order) && Elems(order) == pageTable.Keys
      ensures TableInRange(pageTable, pages.Length) && forall i :: 0 <= i < |order| ==> order[i] in pageTable
      ensures diskManager.store == Flushed(old(diskManager.store), old(pages[..]), pageTable, order)
      ensures diskManager.log == old(diskManager.log) + WriteEvents(order)
    {
      ghost var frames0 := pages[..];
      ghost var store0 := diskManager.store;
      ghost var log0 := diskManager.log;
      assert Image(pageTable, {}) == {};
      assert pages[..] == Cleaned(frames0, {});
      order := FlushEach(pageTable.Keys, frames0, store0, log0);
      assert Elems(order) == pageTable.Keys by {
        forall p | p in Elems(order) ensures p in pageTable {
          var i :| 0 <= i < |order| && order[i] == p;
        }
        forall p | p in pageTable ensures p in Elems(order) {
          assert p !in pageTable.Keys - Elems(order);
        }
      }
      ImageAll(pageTable);
    }

    /** The loop of FlushAllPagesImpl: flush the pages of keys one by one, in an unspecified order. */
    method FlushEach(keys: set<PageId>, ghost frames0: seq<Frame>, ghost store0: map<PageId, PageData>,
                     ghost log0: seq<DiskEvent>) returns (ghost order: seq<PageId>)
      requires FlushProgress(frames0, store0, log0, keys, [])
      modifies pages, diskManager
      ensures FlushProgress(frames0, store0, log0, {}, order)
      ensures diskManager.nextPageId == old(diskManager.nextPageId)
    {
      var rest := keys;
      order := [];
      while rest != {}
        invariant FlushProgress(frames0, store0, log0, rest, order)
        invariant diskManager.nextPageId == old(diskManager.nextPageId)
        decreases |rest|
      {
        NonEmptyHasElement(rest);
        var pageId :| pageId in rest;
        FlushNext(pageId, frames0, store0, log0, rest, order);
        rest := rest - {pageId};
        order := order + [pageId];
      }
    }
  }
}
