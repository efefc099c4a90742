/** Geometry of the 2 GB arena and the types shared by the snapshot modules. */
module Pages {
  const PAGE_SIZE: nat := 4096
  const MAX_PAGES: nat := 524288        // 2 GB / 4 KB
  const ZONE_START: nat := 458752       // first page of the 256 MB heap zone at the top
  const RING_SLOTS: nat := 60
  const SUPPLEMENTAL_MAX: nat := 200000 // pages

  newtype Byte = b: int | 0 <= b < 256

  type Page = s: seq<Byte> | |s| == PAGE_SIZE witness seq(PAGE_SIZE, _ => 0 as Byte)

  /** What a freshly committed page reads as, and what an orphaned page is overwritten with. */
  function ZeroPage(): Page {
    seq(PAGE_SIZE, _ => 0 as Byte)
  }

  lemma ZeroPageIs(i: nat)
    requires i < 4096
    ensures ZeroPage()[i] == 0
  {
  }

  type Memory = m: seq<Page> | |m| == MAX_PAGES witness seq(MAX_PAGES, _ => ZeroPage())

  datatype Option<+T> = None | Some(value: T)
}
