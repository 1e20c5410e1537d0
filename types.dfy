/** Identifiers, constants and the page buffer shared by the buffer pool and its replacer. */
module Types {

  /** frame_id_t: index of a slot in the pool's frame array. */
  type FrameId = int

  /** page_id_t: identifier of a page on disk. */
  type PageId = int

  /** INVALID_PAGE_ID: the page id of a frame that holds no page. */
  const InvalidPageId: PageId := -1

  /** PAGE_SIZE: bytes per page and per frame buffer. */
  const PageSize: nat := 4096

  /** The contents of one page or one frame. */
  type PageData = seq<bv8>

  /** The all-zero buffer that Page::ResetMemory leaves behind. */
  function Zeros(): (d: PageData)
    ensures |d| == PageSize
    ensures forall i :: 0 <= i < |d| ==> d[i] == 0
  {
    seq(PageSize, _ => 0)
  }

  /** A result that may be missing: a null Page* or a Victim call that found nothing. */
  datatype Option<T> = None | Some(value: T)
}
