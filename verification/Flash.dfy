/** Pages, spare-area flags and addresses of the NAND flash, with the geometry
    that the sequencing layer imposes on it. */
module Flash {

  datatype Option<+T> = None | Some(value: T)

  type Block = seq<bv8>

  /** Bytes of a page in the build with 512-byte pages, and the byte of an erased page. */
  const PAGE := 512
  const EMPTY_BYTE: bv8 := 0xff

  /** A logical page address: a segment and a page offset inside it. */
  datatype LogAddr = LogAddr(seg: nat, off: nat)

  /** The two checkpoint bits of the spare area. */
  datatype CpMark = CpFirst | CpMiddle | CpLast | NotCp

  /** set_cp_page_flag */
  function CpMarkOf(k: int, last: int): CpMark {
    if k == 0 then CpFirst else if k == last then CpLast else CpMiddle
  }

  /** A page as the driver reads it: erased, or programmed with a main area and
      the spare-area flags the sequencing layer uses. */
  datatype Page =
    | Erased
    | Used(data: Block, prev: Option<LogAddr>, vots: bool, cp: CpMark, copied: bool, obs: bool)

  /** The first page of a segment; of what it says of the segment nothing is modelled. */
  const HEADER := Used([], None, false, NotCp, false, false)

  /** What a client of the sequencing layer stored in a page. */
  datatype Entry = Entry(data: Block, prev: Option<LogAddr>, vots: bool)

  /** A page with the simulator's two per-page write flags. */
  datatype Cell = Cell(page: Page, mainWrites: nat, spareWrites: nat)

  const FreshCell := Cell(Erased, 0, 0)

  predicate LivePage(p: Page) { p.Used? && p.cp.NotCp? && !p.obs }

  predicate ObsPage(p: Page) { p.Used? && p.obs }

  /** Erased pages and checkpoint pages both count as free. */
  predicate FreePage(p: Page) { p.Erased? || (!p.cp.NotCp? && !p.obs) }

  /** A page as clients know it: whether it was copied forward does not show. */
  function Bare(p: Page): Page {
    if p.Used? then p.(copied := false) else p
  }

  function EntryOf(p: Page): Entry
    requires p.Used?
  {
    Entry(p.data, p.prev, p.vots)
  }

  /** The write flags agree with the page: an unprogrammed page has a clean
      spare area, a programmed one was programmed once and its spare area was
      programmed again exactly when the page is obsolete. */
  predicate CellOk(c: Cell) {
    match c.page
    case Erased => c.spareWrites == 0
    case Used(_, _, _, _, _, obs) => c.mainWrites == 1 && c.spareWrites == (if obs then 1 else 0)
  }

  /** Slots, reserve slots, pages per slot, pages per erase unit, erase units
      per slot, and pages of one checkpoint. */
  datatype Geometry = Geometry(slots: nat, reserve: nat, pages: nat, euPages: nat, eus: nat, cpPages: nat) {

    ghost predicate Valid() {
      && 1 <= reserve
      && reserve + 2 <= slots < NO_SLOT
      && slots % 2 == 0
      && 2 <= euPages
      && 1 <= cpPages
      && cpPages + 1 < pages
    }

    /** Slots hold whole erase units. */
    ghost predicate Aligned() {
      1 <= eus && pages == euPages * eus
    }

    /** Number of data segments; also the index of the spare "new segment"
        entry and the number of the slot that data segments never start on. */
    function Segments(): int { slots - reserve - 1 }

    function FirstReserve(): int { slots - reserve }

    /** Pages of a segment header: the header page and its checkpoint. */
    function Header(): nat { cpPages + 1 }
  }

  const NO_SLOT: nat := 0xfff
}
