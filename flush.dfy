/**
 * The TLB-flush obligation: the address space and virtual range whose stale
 * translations must be invalidated after the page tables were edited.
 */
module TlbFlush {
  import opened Wrappers
  import opened Addresses
  import opened VmmError
  import opened PagingMode

  class Flush {
    /** The paging mode `M` whose invalidation this obligation is discharged through. */
    const mode: Mode
    var asid: Asid
    var range: Option<VirtualRange>
    /** Every range recorded so far, in order. */
    ghost var recorded: seq<VirtualRange>
    /** Set once the obligation has been consumed by `Flush` or `Ignore`. */
    ghost var resolved: bool

    /** The pending range is the merge of every range recorded into it. */
    ghost predicate Valid()
      reads this
    {
      && (range.None? <==> recorded == [])
      && (range.Some? ==> range.value == Union(recorded))
    }

    /** `Flush::empty`: an obligation with nothing to invalidate yet. */
    constructor Empty(mode: Mode, asid: Asid)
      ensures Valid() && !resolved
      ensures this.mode == mode && this.asid == asid && range == None && recorded == []
    {
      this.mode := mode;
      this.asid := asid;
      range := None;
      recorded := [];
      resolved := false;
    }

    /** `Flush::new`: an obligation for exactly `range`. */
    constructor New(mode: Mode, asid: Asid, range: VirtualRange)
      ensures Valid() && !resolved
      ensures this.mode == mode && this.asid == asid && this.range == Some(range) && recorded == [range]
    {
      this.mode := mode;
      this.asid := asid;
      this.range := Some(range);
      recorded := [range];
      resolved := false;
    }

    /**
     * `Flush::flush`: consumes the obligation. A pending range is handed to the
     * hardware in exactly one call, whose outcome is returned; with nothing
     * pending the hardware is not called and the result is `Ok`.
     */
    method Flush(tlb: Tlb) returns (r: Result<(), Error>)
      requires Valid() && !resolved
      requires tlb.mode == mode
      modifies this`resolved, tlb`calls
      ensures resolved
      ensures r.Err? ==> r.error.Sbi?
      ensures old(range).None? ==> tlb.calls == old(tlb.calls) && r == Ok(())
      ensures old(range).Some? ==>
                tlb.calls == old(tlb.calls) + [Invalidation(asid, old(range).value, r)]
    {
      if range.Some? {
        var outcome := tlb.InvalidateRange(asid, range.value);
        match outcome
        case Err(e) =>
          resolved := true;
          return Err(e);
        case Ok(()) =>
      }
      resolved := true;
      r := Ok(());
    }

    /** `Flush::ignore`: consumes the obligation without touching the hardware. */
    method Ignore()
      requires Valid() && !resolved
      modifies this`resolved
      ensures resolved
    {
      resolved := true;
    }

    /**
     * `Flush::extend_range`: merges `other` into the pending range when `asid`
     * names this obligation's address space; otherwise reports the mismatch
     * and changes nothing. The address space itself never changes.
     */
    method ExtendRange(asid: Asid, other: VirtualRange) returns (r: Result<(), Error>)
      requires Valid() && !resolved
      modifies this`range, this`recorded
      ensures Valid()
      ensures this.asid == old(this.asid)
      ensures r.Ok? <==> asid == this.asid
      ensures asid == this.asid ==>
                && recorded == old(recorded) + [other]
                && range == Some(if old(range).Some? then Concat(old(range).value, other) else other)
      ensures asid != this.asid ==>
                && r == Err(AddressSpaceMismatch(this.asid, asid))
                && range == old(range) && recorded == old(recorded)
    {
      if this.asid == asid {
        var taken := range;
        range := None;
        if taken.Some? {
          UnionSnoc(recorded, other);
          range := Some(Concat(taken.value, other));
        } else {
          range := Some(other);
        }
        recorded := recorded + [other];
        r := Ok(());
      } else {
        r := Err(AddressSpaceMismatch(this.asid, asid));
      }
    }
  }

  /**
   * Two adjacent edits of one address space followed by a flush issue a single
   * invalidation covering both: [0x1000, 0x2000) and [0x2000, 0x3000) become
   * [0x1000, 0x3000).
   */
  method MergedEditsFlushOnce(tlb: Tlb, asid: Asid) returns (r: Result<(), Error>)
    modifies tlb`calls
    ensures tlb.calls == old(tlb.calls) + [Invalidation(asid, Span(0x1000, 0x3000), r)]
  {
    var f := new Flush.Empty(tlb.mode, asid);
    var r1 := f.ExtendRange(asid, Span(0x1000, 0x2000));
    var r2 := f.ExtendRange(asid, Span(0x2000, 0x3000));
    r := f.Flush(tlb);
  }

  /**
   * An edit tagged with another address space is refused with both ASIDs named,
   * and the range recorded before it is what gets flushed.
   */
  method MismatchLeavesRange(tlb: Tlb, a: Asid, b: Asid, r1: VirtualRange) returns (e: Result<(), Error>, r: Result<(), Error>)
    requires a != b
    modifies tlb`calls
    ensures e == Err(AddressSpaceMismatch(a, b))
    ensures tlb.calls == old(tlb.calls) + [Invalidation(a, r1, r)]
  {
    var f := new Flush.New(tlb.mode, a, r1);
    e := f.ExtendRange(b, Span(0x2000, 0x3000));
    r := f.Flush(tlb);
  }

  /** An obligation that was never extended flushes without a hardware call. */
  method EmptyFlushIsSilent(tlb: Tlb, asid: Asid) returns (r: Result<(), Error>)
    modifies tlb`calls
    ensures r == Ok(()) && tlb.calls == old(tlb.calls)
  {
    var f := new Flush.Empty(tlb.mode, asid);
    r := f.Flush(tlb);
  }

  /** Ignoring an obligation, even a pending one, calls no hardware at all. */
  method IgnoreIsSilent(tlb: Tlb, asid: Asid, range: VirtualRange)
    modifies tlb`calls
    ensures tlb.calls == old(tlb.calls)
  {
    var f := new Flush.New(tlb.mode, asid, range);
    f.Ignore();
  }

  function Span(start: Usize, end: Usize): VirtualRange {
    VirtualRange(VirtualAddress(start), VirtualAddress(end))
  }
}
