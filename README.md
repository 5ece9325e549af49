# k23 TLB flush obligation and build target parsing, in Dafny

This project models two small parts of the k23 kernel.

**The TLB flush obligation (`libs/kmm/src/flush.rs`).** After a page-table edit, the
memory manager returns a `Flush`. It records the address space (ASID) and the virtual
range whose cached translations are now stale. Later edits of the same address
space widen the pending range. An edit tagged with a different address space is
refused with `AddressSpaceMismatch`, and the pending range is left as it was.
Consuming the obligation with `flush` hands the pending range to the paging mode's
`invalidate_range` in one call and passes its error up. An empty obligation makes no
call and succeeds. `ignore` discards the obligation without touching the hardware.

- `Flush` is a Dafny class with the source's two fields, `asid` and `range`. Its ghost
  state is the list of every range recorded into it, plus a flag set once the obligation
  is consumed.
- The class invariant `Valid` says that the pending range is the merge (`Union`) of
  every recorded range, and that it is empty exactly when nothing was recorded.
- The paging mode's invalidation is the class `PagingMode.Tlb`. It keeps a ghost log of
  every invalidation request together with its outcome. Each outcome is chosen
  nondeterministically, success or an SBI error, so every proof covers both.

**Build target parsing (`build/config/src/lib.rs`).**

- `TargetTriple::from_str` splits a string into at most four pieces at `-`, the way
  Rust's `splitn(4, '-')` does. It then checks the pieces one by one against
  `riscv64gc-unknown-none-elf`.
- `Target::from_str` accepts any string: the supported triple becomes `Target::Triple`,
  and anything else becomes `Target::Path`.
- `Target::to_string` joins a triple's fields with `-`, and gives a path as it was
  written.
- The configuration defaults are also here: 16 kernel stack pages, 4 bootloader stack
  pages, log level `Info`, and the log-level discriminants 1 to 5.

Proved properties of the parser:

- `splitn` is characterised completely. Its result is the unique splitting with at most
  `n` pieces whose join is the input and whose pieces other than the last contain no
  separator, the last one too when there are fewer than `n` pieces. Its length is
  `min(occurrences + 1, n)`.
- Exactly one string parses as a triple.
- The error reported depends on how many separators the input has and on which
  component is unsupported first.
- Printing a parsed target gives back the input string.
- Parsing a printed target gives the target back exactly when it is the supported triple
  or a path that is not spelled like it.

Two behaviours of the code that its error texts do not suggest; the model follows the code:

- The code cannot report "missing architecture", although `build/config/src/lib.rs:150-152` attaches a
  context string for that case. `splitn` always yields at least one
  piece, even for the empty string, so an input with no `-` fails with "missing vendor"
  instead (`BuildConfigProofs.MissingComponent`).
- No error says "too many components": a fourth `-` does not cause an error by itself. It stays inside the environment piece,
  which then fails the `elf` check (`BuildConfigProofs.TrailingPieceInEnvironment`).

Files:

- `wrappers.dfy`: `Option` and `Result`.
- `addresses.dfy`: `usize` addresses and ranges, and the concatenation of ranges.
- `errors.dfy`: the VMM `Error` enum.
- `mode.dfy`: the paging mode and its TLB invalidation.
- `flush.dfy`: the `Flush` class and client scenarios.
- `config.dfy`: the build configuration and its proofs.

## Model

| member | source | states |
|---|---|---|
| TlbFlush.Flush.Empty | libs/kmm/src/flush.rs:13-19 | The new obligation is bound to the given paging mode `M`, has the given ASID and no pending range. Nothing is recorded, the invariant holds, and it is not yet consumed. |
| TlbFlush.Flush.New | libs/kmm/src/flush.rs:21-27 | The new obligation is bound to the given paging mode `M`, has the given ASID and exactly the given range pending, recorded once. The invariant holds and it is not yet consumed. |
| TlbFlush.Flush.Flush | libs/kmm/src/flush.rs:34-43 | Consumes the obligation through the TLB of its own paging mode. With a pending range, exactly one invalidation of that ASID and range is logged, and its outcome is the result. Any failure is therefore the hardware's SBI error. With no pending range, nothing is logged and the result is `Ok`. |
| TlbFlush.Flush.Ignore | libs/kmm/src/flush.rs:51 | Consumes the obligation and logs no invalidation; its frame allows no change to the TLB log. |
| TlbFlush.Flush.ExtendRange | libs/kmm/src/flush.rs:58-73 | The result is `Ok` iff the ASIDs match. On a match, `other` is recorded and the pending range becomes the concatenation of the old one with `other`, or `other` alone if none was pending. On a mismatch, the error names the expected and found ASIDs and nothing changes. The invariant (pending range = merge of all recorded ranges) is kept, and the ASID never changes. |
| TlbFlush.MergedEditsFlushOnce | libs/kmm/src/flush.rs:58-66 | Two adjoining edits of one address space, then a flush, give exactly one invalidation, of the merged range [0x1000, 0x3000). |
| TlbFlush.MismatchLeavesRange | libs/kmm/src/flush.rs:67-72 | An edit from another address space is refused with `AddressSpaceMismatch(expected, found)`, and the later flush invalidates only the range recorded before it. |
| TlbFlush.EmptyFlushIsSilent | libs/kmm/src/flush.rs:36-42 | Flushing an empty obligation returns `Ok` and makes no invalidation call. |
| TlbFlush.IgnoreIsSilent | libs/kmm/src/flush.rs:51 | Ignoring a pending obligation makes no invalidation call. |
| PagingMode.Tlb.InvalidateRange | libs/kmm/src/flush.rs:37 | Appends one request to the log, with its ASID, range and outcome. Any failure is an SBI error. |
| Addresses.Concat | libs/kmm/src/flush.rs:61 | The result is the smallest range spanning both inputs. Its start and end each come from one of the inputs, and it contains every address of either input. For well-formed, adjoining inputs, it contains no other address. |
| Addresses.ConcatCommutes | libs/kmm/src/flush.rs:61 | Concatenation does not depend on argument order. |
| Addresses.ConcatAssociates | libs/kmm/src/flush.rs:61 | Concatenation is associative, so the merged range does not depend on how edits were grouped. |
| Addresses.ConcatIdempotent | libs/kmm/src/flush.rs:61 | Concatenating a range with itself gives that range. |
| Addresses.Union | libs/kmm/src/flush.rs:58-64 | The merge of a non-empty list of ranges contains every address of every range in it. Its start is the least start and its end the greatest end, each attained by some range in the list. |
| Addresses.UnionSnoc | libs/kmm/src/flush.rs:60-61 | Recording one more range extends the merge by one concatenation. This is the step `ExtendRange` takes. |
| BuildConfig.KernelDefaultStackSizePages | build/config/src/lib.rs:11-13 | The kernel's default stack size is 16 pages. |
| BuildConfig.BootloaderDefaultStackSizePages | build/config/src/lib.rs:14-16 | The bootloader's default stack size is 4 pages. |
| BuildConfig.DefaultLogLevel | build/config/src/lib.rs:92-94 | The default log level is `Info`. |
| BuildConfig.Discriminant | build/config/src/lib.rs:84-99 | Every log level's discriminant lies in 1..5. |
| BuildConfig.DiscriminantsAscend | build/config/src/lib.rs:88-98 | `Error` is 1, and `Warn`, `Info`, `Debug`, `Trace` each have one more than the level before, so they are 2, 3, 4 and 5. |
| BuildConfig.FromDiscriminant | build/config/src/lib.rs:84-99 | A level exists for a discriminant iff it lies in 1..5, and that level has this discriminant. |
| BuildConfig.DiscriminantRoundTrip | build/config/src/lib.rs:84-99 | Every level is recovered from its own discriminant. |
| BuildConfig.Message | build/config/src/lib.rs:150-162 | Each `TripleError` carries the source's context text: the four absent-component errors begin with "missing ", the four unsupported-component errors with "unsupported ". |
| BuildConfig.MessagesDistinct | build/config/src/lib.rs:150-162 | Two errors have the same text iff they are the same error. |
| BuildConfig.IndexOf | build/config/src/lib.rs:148 | Finds the first occurrence of the separator, or reports that there is none iff the character does not occur. |
| BuildConfig.SplitN | build/config/src/lib.rs:148 | `splitn(n, sep)` yields between 1 and `n` pieces. |
| BuildConfigProofs.SplitNSpec | build/config/src/lib.rs:148 | The pieces join back to the input. No piece before the last holds the separator, and neither does the last when fewer than `n` pieces came out. |
| BuildConfigProofs.SplitNUnique | build/config/src/lib.rs:148 | Any list of pieces with the `SplitNSpec` properties is exactly what `splitn` returns. |
| BuildConfigProofs.JoinInjective | build/config/src/lib.rs:148 | Two such splittings with the same join are equal. |
| BuildConfigProofs.SplitNLength | build/config/src/lib.rs:148 | `splitn` yields `min(occurrences of sep + 1, n)` pieces. |
| BuildConfigProofs.OccurrencesJoin | build/config/src/lib.rs:148 | Joining pieces adds one separator per gap to those in the last piece (the others hold none). |
| BuildConfig.TripleFromStr | build/config/src/lib.rs:147-170 | A successful parse always yields the fields `riscv64gc`, `unknown`, `none`, `elf`. |
| BuildConfigProofs.TripleFromStrOkIff | build/config/src/lib.rs:147-170 | Parsing succeeds iff the input is exactly `riscv64gc-unknown-none-elf`, and then gives the supported triple. |
| BuildConfigProofs.OnlySupportedParses | build/config/src/lib.rs:159-169 | A string that parses is exactly the supported triple's text. |
| BuildConfigProofs.AcceptedPieces | build/config/src/lib.rs:159-162 | A string that parses splits into exactly the four supported components. |
| BuildConfigProofs.SupportedSplits | build/config/src/lib.rs:148 | The supported triple's text splits into its four components. |
| BuildConfigProofs.MissingComponent | build/config/src/lib.rs:148-157 | "Missing architecture" is never reported. With 0, 1 or 2 separators the error is "missing vendor", "missing OS" or "missing environment" respectively, and these errors occur for no other count. |
| BuildConfigProofs.FourPieces | build/config/src/lib.rs:148 | With at least three separators there are four pieces. The first three contain no separator, and the input is their `-`-join. |
| BuildConfigProofs.UnsupportedComponent | build/config/src/lib.rs:159-169 | With four pieces, the first piece that differs from its supported value decides the error (architecture, vendor, OS, environment, in that order). If none differs, the result is the supported triple. |
| BuildConfigProofs.TrailingPieceInEnvironment | build/config/src/lib.rs:148-162 | A fifth `-`-separated component stays inside the environment piece, and the input fails with "unsupported environment". |
| BuildConfig.TargetFromStr | build/config/src/lib.rs:115-121 | Parsing a target never fails. It gives a triple iff the triple parser accepts the input, and otherwise a path holding the input unchanged. |
| BuildConfigProofs.TargetFromStrCases | build/config/src/lib.rs:115-121 | The supported triple's text becomes `Triple(supported)`; every other string becomes `Path` of itself. |
| BuildConfig.ToString | build/config/src/lib.rs:123-131 | A triple prints as its four fields joined by `-`. A path prints as itself. |
| BuildConfigProofs.RoundTrip | build/config/src/lib.rs:115-131 | Printing a parsed target gives back the input string, for every string. |
| BuildConfigProofs.ReparseIff | build/config/src/lib.rs:115-131 | Parsing a printed target gives it back iff it is the supported triple, or a path not spelled `riscv64gc-unknown-none-elf`. |
| BuildConfigProofs.PathSpelledAsTriple | build/config/src/lib.rs:115-131 | The path `riscv64gc-unknown-none-elf` reparses as the triple, which is a different target, so printing is not injective. |

## Left out

- Logging: the `log::trace!` and `log::warn!` calls in `flush` are left out because they are output only.
- Move semantics and `#[must_use]`: a consumed `Flush` cannot be used again in the source. Here this is only the ghost `resolved` flag, which `Flush` requires to be unset.
- `ignore` being `unsafe`: not modelled, because it is a compile-time marker.
- `PagingMode.Tlb.InvalidateRange`: the real SBI remote fence call is not modelled. Its outcome is nondeterministic, and SBI error codes are opaque integers.
- `Addresses.Concat`: the range-extension trait is not part of this model. `concat` is modelled as the smallest range spanning both inputs.
- Empty or inverted ranges (start at or after end) are accepted as they are, as in the source.
- `MemoryMode` (build/config/src/lib.rs:101-106) is a bare configuration enum that nothing in this model reads; the paging modes themselves are `PagingMode.Mode`.
- The paging-mode geometry (page sizes, levels, address widths) is not modelled. The mode type parameter `M` of `Flush<M>` becomes a `mode` tag on both `Flush` and `Tlb`, and `Flush` accepts only a `Tlb` with the same tag.
- `Config::from_file` and `from_file_with_hasher` are left out: they read a TOML file and hash it, which is file I/O and an external hasher.
- The serde `Deserialize`/`Serialize` implementations for `Target` and the config structs are left out: they are serialisation glue around `from_str`/`to_string`.
- Error types: the `anyhow` error context strings are modelled as the `TripleError` enum, with their messages in `Message`. `Target::from_str`'s error type is kept, but no error value is ever produced.
- Paths: `PathBuf` is modelled as the string it was built from. `to_string_lossy` is taken as the identity, since the Dafny strings here are already valid text.
- `usize`: it is 64 bits wide for the ASID and addresses. No arithmetic is done on it, so no wrap-around arises.
