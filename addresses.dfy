/** Machine-word addresses and the half-open virtual address ranges a TLB flush covers. */
module Addresses {
  import opened Wrappers

  /** Rust's `usize` on a 64-bit hart. */
  type Usize = x: int | 0 <= x < 0x1_0000_0000_0000_0000

  /** Address-space identifier, a `usize` in the source. */
  type Asid = Usize

  datatype VirtualAddress = VirtualAddress(addr: Usize)

  datatype PhysicalAddress = PhysicalAddress(addr: Usize)

  /** `Range<VirtualAddress>`: the half-open interval [start, end). */
  datatype VirtualRange = VirtualRange(start: VirtualAddress, end: VirtualAddress)

  predicate Contains(r: VirtualRange, a: VirtualAddress) {
    r.start.addr <= a.addr < r.end.addr
  }

  /** The two ranges touch or overlap, the case `concat` is meant for. */
  predicate Adjoins(a: VirtualRange, b: VirtualRange) {
    a.start.addr <= b.end.addr && b.start.addr <= a.end.addr
  }

  function Min(x: Usize, y: Usize): Usize { if x <= y then x else y }

  function Max(x: Usize, y: Usize): Usize { if x <= y then y else x }

  /**
   * `AddressRangeExt::concat`: the union bound [min(start), max(end)).
   * It covers both arguments, and for ranges that touch or overlap
   * it covers nothing else.
   */
  function Concat(a: VirtualRange, b: VirtualRange): (r: VirtualRange)
    ensures r.start.addr <= a.start.addr && r.start.addr <= b.start.addr
    ensures r.start == a.start || r.start == b.start
    ensures r.end.addr >= a.end.addr && r.end.addr >= b.end.addr
    ensures r.end == a.end || r.end == b.end
    ensures forall x :: Contains(a, x) || Contains(b, x) ==> Contains(r, x)
    ensures a.start.addr <= a.end.addr && b.start.addr <= b.end.addr && Adjoins(a, b) ==>
              forall x :: Contains(r, x) ==> Contains(a, x) || Contains(b, x)
  {
    VirtualRange(VirtualAddress(Min(a.start.addr, b.start.addr)),
                 VirtualAddress(Max(a.end.addr, b.end.addr)))
  }

  lemma ConcatCommutes(a: VirtualRange, b: VirtualRange)
    ensures Concat(a, b) == Concat(b, a)
  {
  }

  lemma ConcatAssociates(a: VirtualRange, b: VirtualRange, c: VirtualRange)
    ensures Concat(Concat(a, b), c) == Concat(a, Concat(b, c))
  {
  }

  lemma ConcatIdempotent(a: VirtualRange)
    ensures Concat(a, a) == a
  {
  }

  /**
   * The range a sequence of `extend_range` calls accumulates, merged left to
   * right in the order the ranges were recorded.
   */
  function Union(rs: seq<VirtualRange>): (r: VirtualRange)
    requires |rs| > 0
    ensures forall i :: 0 <= i < |rs| ==> r.start.addr <= rs[i].start.addr && rs[i].end.addr <= r.end.addr
    ensures exists i :: 0 <= i < |rs| && r.start == rs[i].start
    ensures exists i :: 0 <= i < |rs| && r.end == rs[i].end
    ensures forall i, x :: 0 <= i < |rs| && Contains(rs[i], x) ==> Contains(r, x)
  {
    if |rs| == 1 then rs[0]
    else
      var u := Union(rs[..|rs| - 1]);
      var r := Concat(u, rs[|rs| - 1]);
      assert forall i :: 0 <= i < |rs| - 1 ==> rs[..|rs| - 1][i] == rs[i];
      r
  }

  /** Recording one more range merges it into the accumulated one with `concat`. */
  lemma UnionSnoc(rs: seq<VirtualRange>, r: VirtualRange)
    requires |rs| > 0
    ensures Union(rs + [r]) == Concat(Union(rs), r)
  {
    assert (rs + [r])[..|rs|] == rs;
  }
}
