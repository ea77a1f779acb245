/** Extent addresses. The source packs segment and grain into one grain number and takes the
    segment back by division (scm_grain_to_segment_idx); here the two parts are kept apart. */
module Extents {
  import opened Arith

  datatype Addr = Addr(seg: nat, off: nat)

  /** The grain number of an address. */
  function Grain(segSize: nat, a: Addr): nat { a.seg * segSize + a.off }

  /** Splitting a grain number by division gives the address back, so comparing segments and
      offsets is comparing segment indices and grain numbers. */
  lemma GrainSplits(segSize: nat, a: Addr, b: Addr)
    requires a.off < segSize && b.off < segSize
    ensures Grain(segSize, a) / segSize == a.seg && Grain(segSize, a) % segSize == a.off
    ensures a.seg == b.seg ==> (Grain(segSize, a) < Grain(segSize, b) <==> a.off < b.off)
  {
    DivModUnique(Grain(segSize, a), segSize, a.seg, a.off);
  }
}
