/** What the parts of the model share: 64-bit words, optional results and physical memory. */
module Machine {

  const TWO64: int := 0x1_0000_0000_0000_0000
  const PAGE_SIZE: int := 4096
  const MAX_FRAMES: int := 0x100_0000_0000

  /** Where the kernel heap is, and how large. */
  const HEAP_VIRT: int := 0xFFFF_FFFF_8100_0000
  const HEAP_PAGES: int := 256

  type Word = w: int | 0 <= w < TWO64

  datatype Option<T> = None | Some(value: T)

  function Min(a: int, b: int): int { if a < b then a else b }

  /** The 512 words of one page frame. */
  type Page = p: seq<Word> | |p| == 512 witness seq(512, _ => 0)

  /** Physical memory, page frame by page frame; frame `f` starts at address `f * 4096`. */
  type Memory = seq<Page>

  function ZeroPage(): Page { seq(512, _ => 0) }

  /** The word at offset `8 * i` of frame `f`; memory that does not exist reads as zero. */
  function Entry(mem: Memory, f: int, i: int): Word {
    if 0 <= f < |mem| && 0 <= i < 512 then mem[f][i] else 0
  }

  function SetEntry(mem: Memory, f: int, i: int, w: Word): (r: Memory)
    requires 0 <= f < |mem| && 0 <= i < 512
    ensures |r| == |mem|
    ensures forall g, j :: Entry(r, g, j) == if g == f && j == i then w else Entry(mem, g, j)
  {
    mem[f := mem[f][i := w]]
  }
}
