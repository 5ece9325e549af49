/**
 * The paging-mode capability and its hardware invalidation primitive.
 * The primitive itself (a remote fence through the Supervisor Binary
 * Interface) is outside the model: `Tlb.InvalidateRange` only records each
 * call in a ghost log, together with the outcome the platform reported.
 */
module PagingMode {
  import opened Wrappers
  import opened Addresses
  import opened VmmError

  datatype Mode = Sv39 | Sv48 | Sv57

  /** One call of `M::invalidate_range(asid, range)` and what it returned. */
  datatype Invalidation = Invalidation(asid: Asid, range: VirtualRange, outcome: Result<(), Error>)

  /** The TLBs of the harts that share the address spaces, as seen through `M`. */
  class Tlb {
    const mode: Mode
    ghost var calls: seq<Invalidation>

    constructor (mode: Mode)
      ensures this.mode == mode && calls == []
    {
      this.mode := mode;
      calls := [];
    }

    /**
     * Issues the invalidation. The platform may fail; which outcome it
     * reports is not under the caller's control, so it is chosen here
     * without constraint, and the only failure it can report is a platform one.
     */
    method InvalidateRange(asid: Asid, range: VirtualRange) returns (r: Result<(), Error>)
      modifies this`calls
      ensures r.Err? ==> r.error.Sbi?
      ensures calls == old(calls) + [Invalidation(asid, range, r)]
    {
      var fails: bool :| true;
      if fails {
        var code: int :| true;
        r := Err(Sbi(SbiError(code)));
      } else {
        r := Ok(());
      }
      calls := calls + [Invalidation(asid, range, r)];
    }
  }
}
