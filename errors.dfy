/** The error enum shared by the memory-management crates. */
module VmmError {
  import opened Addresses

  /** The failure a Supervisor Binary Interface call reports; its code is opaque here. */
  datatype SbiError = SbiError(code: int)

  datatype Error =
    | OutOfMemory
    | AddressSpaceMismatch(expected: Asid, found: Asid)
    | DoubleFree(frame: PhysicalAddress)
    | Sbi(inner: SbiError)
}
