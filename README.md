# archive-sum, modelled in Dafny

archive-sum hashes every regular-file member of an archive (tar, or anything
libarchive reads). It then does one of two things:

- **Print mode** writes md5sum-style `"<hex>  <path>"` lines, one per regular member.
- **Verify mode** compares each member with its copy in a source directory:
  - it reports each member as OK, FAILED or MISSING;
  - it closes with WARNING and FATAL summary lines;
  - it succeeds only when nothing was missing or failed.

The repository holds several generations of the tool:

- three Rust engines:
  - `lib/` uses a shared `DynDigest` accumulator that is finalized and reset;
  - `src/` uses a fresh `Digest` per member over the `tar` crate;
  - `archive-sum/` uses OpenSSL over a safe libarchive wrapper;
- the wrapper itself (`libarchive/`);
- two C tools (`src/check.c`, `src/sum.c`, `archive-sum.c`);
- the argument records and `main` functions of three Rust command-line tools.

This project models all of them.

## How the model is built

**Values.** An archive is a sequence of `Member(path, filetype, data, fault)`:

- `fault` is the read error that ends a damaged member's data;
- a `Container` adds the header error that may follow the last member.

The disk is a map from path to content and `st_blksize`.

**Digests.** A digest algorithm is a function from the bytes fed to it to the
digest (`Bytes.Algorithm`). The accumulator is the class `Digest.Hasher`,
whose state is the bytes fed since it was created or reset.

**The archive library.** libarchive (and the `tar` crate's reader) is the class
`Native.Reader`:

- it has a header cursor and a data offset;
- every data read returns a block whose size the library chooses;
- so every proof holds for any chunking;
- a data read that fails leaves the handle in libarchive's fatal state, in which
  no further header is read.

A member's data is its content as `archive_read_data` delivers it. Blocks are
consecutive slices of that content. The offsets libarchive reports with each
block, and the holes of sparse members, are modelled apart in `Sparse`.

**Reference functions.** Each engine is specified by a function over the member
sequence:

- `Engine.VerifyRun` and `Engine.PrintRun` for the Rust engines;
- `CCheck.CheckRun` for `archive_check`;
- `CSum.SumRun` for `archive_sum`.

**Loops.** Each loop is written as the imperative method it is in the source:

- header loops, read loops and block loops;
- counters and sinks held as `seq<string>`.

Each loop is proved to produce exactly that function's output. The properties
the tool promises are then proved as lemmas about the functions:

- one digest line per regular member;
- counters that count the verdicts;
- success exactly when every member's copy matches;
- the append sink equal to print mode's output;
- verdicts that agree with a raw-digest classification.

**Pure decisions.** The command-line decisions are functions with lemmas:

- the routing table of `--quiet`/`--status`;
- the gzip tests;
- the verification switch;
- mode precedence and exit codes.

**Partners across versions.** Where two versions make the same decision
differently, a lemma states where they agree and where they differ:

- the inline routing in the `main.rs` files against `verify_err`;
- the suffix-based gzip test against the extension-based one;
- `check.is_some()` against `contains_id("check")`;
- C's `memcmp` against Rust's comparison of hex strings.

**Exit codes after an error.** cli/src/main.rs:34-37 prints an engine's error
and calls `process::exit(1)`. archive-sum-cli/src/main.rs:30-32 and
src/main.rs:29-31 print the error and return from `main`, so those tools exit
with 0 after an error. Exit code 1 there comes only from a failed verification
(`Ok(false)`). The model follows the code (`Mains.SubcommandExit`,
`Mains.MainExit`, `Mains.ErrorExitCodes`).

## Model

| member | source | states |
|---|---|---|
| Digest.Hasher.constructor | src/verify.rs:34 | A fresh accumulator (`Digest::new`, `Hasher::new`, `EVP_DigestInit_ex`) has been fed nothing. |
| Digest.Hasher.Update | lib/src/verify.rs:55 | `update` appends the bytes to what the digest will cover. |
| Digest.Hasher.FinalizeReset | lib/src/verify.rs:61 | `finalize_reset` returns the digest of exactly the bytes fed since the last reset and leaves the accumulator empty. |
| Digest.Hasher.Finalize | src/verify.rs:38 | `finalize`/`finish` returns the digest of everything fed. |
| Native.Reader.constructor | libarchive/src/archive.rs:56-64 | An opened handle holds the archive's members and trailer and is positioned before the first header. |
| Native.Reader.NextHeader | libarchive/src/archive.rs:121-124 | In the fatal state left by a failed data read, `archive_read_next_header` returns ARCHIVE_FATAL and changes nothing. Otherwise it advances to the next member with ARCHIVE_OK. After the last member it returns ARCHIVE_EOF for a clean end, or ARCHIVE_FATAL with the trailer's message, and stays put. |
| Native.Reader.ReadData | libarchive/src/entry.rs:61-67 | `archive_read_data` returns 1..len of the next bytes of the current member, in order. It returns 0 only at the end of clean data (or for len 0), and ARCHIVE_FATAL with the member's fault at the end of damaged data, which puts the handle in the fatal state. |
| Native.Reader.ReadDataBlock | libarchive/src/entry.rs:86-91 | `archive_read_data_block` returns ARCHIVE_OK with a non-empty next block exactly while data remains. At the end it returns ARCHIVE_EOF iff the data is clean, else ARCHIVE_FATAL with the fault, which puts the handle in the fatal state. |
| Sparse.Filled | src/sum.c:51 | The blocks laid out at their offsets reach exactly to the end of the last block. |
| Sparse.Content | src/check.c:65 | What `archive_read_data` delivers has the member's size and starts with the filled blocks; the rest is the trailing hole. |
| Sparse.BlocksDropHoles | libarchive/src/entry.rs:80-91 | The bytes `Blocks::next` yields, offsets dropped, fall short of the member's content by its holes, and equal the content exactly when the member has no hole (as written, see Findings). |
| Sparse.FilledIsConcatenatedPlusHoles | libarchive/src/entry.rs:80-91 | Laying blocks out at their offsets adds exactly the hole bytes to their concatenation, and adds nothing when there are no holes. |
| Sparse.SparseMemberHashedShort | libarchive/src/entry.rs:80-91 | For a member `1`, hole, `2`, the iterator yields `[1, 2]` while the member's content is `[1, 0, 2]`. |
| Sparse.FilledPlacesBlocks | src/sum.c:51 | Reading with offsets honoured puts each block's bytes at that block's offset (corrected, see Findings). |
| Sparse.FilledHolesAreZero | src/sum.c:51 | A byte that no block covers reads as zero. |
| Platform.PreferredBlockSize | src/verify.rs:60-67 | The read buffer is `st_blksize` on Unix when it fits `usize`, else `DEFAULT_BLOCK_SIZE` (65536); a positive blksize gives a positive size. |
| Hex.HexByte | lib/src/verify.rs:64 | `{:02x}` gives two lower-case hex digits whose values make up the byte, high nibble first. |
| Hex.HexString | lib/src/verify.rs:61-65 | A digest renders as 2 lower-case hex digits per byte. |
| Hex.ParseHexString | src/print.rs:29-31 | Reading the rendered digits back yields the digest: rendering has an inverse. |
| Hex.ParseHexSnoc | src/print.rs:29-31 | Parsing one more rendered byte appends exactly that byte to the parsed prefix, and a failed prefix stays failed. |
| Hex.HexStringInjective | lib/src/verify.rs:112 | Two digests render equal iff they are equal, so comparing hex strings decides what comparing raw digests (C's `memcmp`) decides. |
| Decimal.DecimalString | lib/src/verify.rs:121 | A counter prints as a non-empty string of digits with no leading zero. |
| Decimal.ParseDecimalOfDecimalString | lib/src/verify.rs:120-126 | The number in a summary line reads back as the counter. |
| Engine.Reached | src/sum.c:42-51 | The members a C header loop reaches. These are a prefix of the archive: all of it when no regular member is damaged, else the prefix ending with the first damaged regular member, which is why no header is read after a failed data read. |
| Engine.Join | lib/src/verify.rs:72 | `source.join(path)` ends with the member path, and an absolute member path replaces the directory. |
| Engine.SourcePath | lib/src/verify.rs:71-75 | The copy is looked up at `source.join(path)` when a source directory is given, else at the member path unchanged. |
| Engine.SplitDigestLineRoundTrip | lib/src/verify.rs:69 | A `"<hex>  <path>"` line splits back into exactly its hex digest and its path. |
| Engine.NonRegularIgnored | lib/src/verify.rs:45-47 | A non-regular member writes nothing to any sink and changes no counter, in verify and in print mode. |
| Engine.AppendIsPrintOutput | lib/src/verify.rs:67-69 | The append sink of a verification gets exactly print mode's lines for the same archive, whatever the verdicts, and both stop at the same read error. |
| Engine.VerifyTally | lib/src/verify.rs:77-117 | One append line and one verdict per checked member. `missing` counts MISSING and `failures` counts FAILED. `out` has one line per OK and `err` one per MISSING or FAILED. |
| Engine.VerifyAbortsIffUnsound | lib/src/verify.rs:52 | The scan aborts exactly when some regular member's data ends in a read error. |
| Engine.VerifyAbortPersists | archive-sum/src/verify.rs:33-35 | After a read error no later member is read: the scan's output is that of the prefix up to the error. |
| Engine.PrintAbortPersists | lib/src/print.rs:32 | The same for print mode: a read error ends the run with the lines written before it. |
| Engine.VerdictsAreClassification | lib/src/verify.rs:106-117 | Without read errors every regular member gets a verdict in archive order. It is MISSING when no copy exists, else OK iff the raw digests of member and copy are equal. |
| Engine.VerifyRunResult | lib/src/verify.rs:120-132 | The result is Ok(true) iff nothing aborted and both counters are 0, and Ok(false) iff nothing aborted and a counter is positive. On success `err` ends with the WARNING line (iff missing > 0) and then the FATAL line (iff failures > 0). |
| Engine.SuccessIffAllOk | lib/src/verify.rs:128-132 | For an archive read without errors, verification succeeds iff every regular member's copy exists with an identical digest. |
| Engine.PrintLines | lib/src/print.rs:42-45 | Print mode writes exactly one line per regular member, in archive order, each reading back as the member's hex digest and path. |
| Feed.FeedRead | lib/src/verify.rs:49-59 | The `read` loop feeds the member's remaining data in order, whatever the read sizes. It ends at the first 0, or with the member's fault. |
| Feed.FeedBlocks | archive-sum/src/verify.rs:33-35 | The `blocks()` loop feeds every block in order, i.e. the member's data, and ends with the block error if there is one. |
| Feed.FeedArchiveData | src/check.c:65-66 | The C loop feeds the member's data in order and stops at the first result <= 0. A read error ends it like end-of-data, but leaves the handle in the fatal state iff the data was damaged. |
| Feed.FeedFile | lib/src/verify.rs:94-104 | Reading a file on disk in reads no longer than the buffer they fill feeds its whole content in order. |
| Feed.HashFile | src/verify.rs:69-85 | A fresh accumulator fed the source file yields the digest of its content. |
| Feed.HashRead | src/verify.rs:34-38 | `io::copy` into a fresh accumulator yields the member data's digest, or the read error that cut it short. |
| Feed.HashBlocks | archive-sum/src/print.rs:22-28 | A fresh accumulator fed every block yields the member data's digest, or the block error. |
| Feed.HashReadShared | lib/src/print.rs:29-41 | With the shared accumulator the digest covers the bytes already pending and then the member's data; afterwards the accumulator is empty. |
| Checking.CheckFresh | src/verify.rs:54-96 | The member's verdict: MISSING when no file is at the source path, else OK iff the archive hex digest equals the copy's, else FAILED. |
| Checking.CheckShared | lib/src/verify.rs:77-117 | The same verdict with the shared accumulator, which starts and ends empty. |
| Checking.Summarize | lib/src/verify.rs:120-132 | `err` gains the WARNING and then the FATAL summary, each only when its counter is positive; the result is `missing == 0 && failures == 0`. |
| Checking.Report | lib/src/verify.rs:112-117 | OK goes to `out`. MISSING and FAILED go to `err` and increment their own counter only. |
| LibVerify.Run | lib/src/verify.rs:31-133 | The three sinks and the result are exactly `VerifyRun` with resolved paths and the shared accumulator's pending bytes. A header error after the last member is returned as Err. On success the accumulator holds only what the scan left pending. |
| LibVerify.CheckMember | lib/src/verify.rs:49-117 | One regular member advances the scan by exactly one `VerifyStep`: digest line, lookup, verdict. A read error leaves the sinks unchanged and is returned. |
| LibPrint.Run | lib/src/print.rs:17-49 | `out` and the result are exactly `PrintRun`: one line per regular member, then Err at the first read or header error. |
| SrcVerify.Run | src/verify.rs:14-112 | The sinks and the result are exactly `VerifyRun` with resolved paths and a fresh accumulator per member. |
| SrcVerify.ScanEntries | src/verify.rs:27-97 | The `entries()` loop yields the scan of all members when the archive ends cleanly, or the run's whole output up to the error that stopped it. |
| SrcVerify.VisitEntry | src/verify.rs:27-96 | One loop turn extends the scan by the entry just read, or ends the run with that entry's read error. |
| SrcVerify.CheckMember | src/verify.rs:34-96 | One regular member advances the scan by exactly one `VerifyStep`, or returns its read error with the sinks unchanged. |
| SrcPrint.Run | src/print.rs:11-37 | `out` and the result are exactly `PrintRun` with a fresh accumulator per member. |
| ArchiveSumVerify.Run | archive-sum/src/verify.rs:15-111 | The sinks and the result are exactly `VerifyRun` with archive paths in the verdict lines. A header error ends the iteration like end of archive. |
| ArchiveSumVerify.ScanEntries | archive-sum/src/verify.rs:26-96 | The `for entry in archive` loop yields the scan of all members, or the output up to the block error that stopped it. |
| ArchiveSumVerify.VisitEntry | archive-sum/src/verify.rs:26-29 | A non-file entry leaves the scan as it is; a file entry extends it by one step or ends the run with its block error. |
| ArchiveSumVerify.CheckMember | archive-sum/src/verify.rs:31-95 | One regular entry advances the scan by one `VerifyStep`, with MISSING/OK/FAILED lines naming the archive path. |
| ArchiveSumPrint.Run | archive-sum/src/print.rs:12-36 | `out` and the result are exactly `PrintRun`. A block error is returned; a header error ends the iteration. |
| LibEntry.FileTypeOf | libarchive/src/entry.rs:34-48 | Each of the eight known codes decodes to the file type whose code it is; any other code is excluded, because the source panics on it. |
| LibEntry.CodeOf | libarchive-sys/src/lib.rs:18-25 | Every file type has one of the eight declared codes. |
| LibEntry.FileTypeOfBijective | libarchive/src/entry.rs:36-45 | Decoding is a bijection: distinct codes give distinct types and every type is reached. |
| LibEntry.IsFile | libarchive/src/entry.rs:50-52 | `is_file` holds iff the code is AE_IFREG (0o100000). |
| LibEntry.Read | libarchive/src/entry.rs:59-70 | `read` returns the next bytes of the member, in order, and 0 iff the data is exhausted or the buffer is empty. It requires a read whose count is not an error (clean data, or bytes left before the fault), since the count is cast without an error check. |
| LibEntry.BlocksNext | libarchive/src/entry.rs:80-110 | `Blocks::next` yields None iff the clean data is exhausted, the next non-empty block in order on ARCHIVE_OK, and Err with the library message at the end of damaged data. |
| LibArchive.OpenFilename | libarchive/src/archive.rs:42-74 | Allocation failure gives "archive allocation error" and open failure the library's message. Success keeps the requested block size and a handle before the first header. |
| LibArchive.Open | libarchive/src/archive.rs:20-36 | The block size is the file's preferred one (with the 65536 fallback). A missing file is the I/O error on Unix, reported before any allocation. Elsewhere it reaches `open_filename`: the allocation error first, else the library's open error. |
| LibArchive.Stdin | libarchive/src/archive.rs:38-40 | Standard input is always opened with the default block size 65536. |
| LibArchive.Entries.constructor | libarchive/src/archive.rs:80-82 | `entries()` makes a cursor only from an archive no header of which was read yet. |
| LibArchive.Entries.Next | libarchive/src/archive.rs:119-138 | `next` yields the next header, of any type, in archive order, iff `archive_read_next_header` returns 0. Otherwise it yields None: after the last member (whether the end was clean or an error), or in the fatal state a failed data read left. |
| CCheck.Snprintf | src/check.c:72 | `snprintf` keeps the longest prefix that fits with the terminating NUL, and the whole string when it fits. |
| CCheck.OriginalPath | src/check.c:71-75 | The original path is shorter than PATH_MAX. |
| CCheck.OriginalPathIsSourcePath | src/check.c:71-75 | The original path is the member path for an empty `check_dir`, else `check_dir/path`, matching the Rust lookup whenever it fits in PATH_MAX. |
| CCheck.OriginalReadLength | src/check.c:87 | The read length for an original file never exceeds the size of `buf` and equals the file's blksize when that fits (corrected, see Findings). |
| CCheck.AsWrittenReadOverflows | src/check.c:87 | When the original's blksize exceeds the archive's, the as-written length breaks the read loop's buffer precondition. If the file is longer than `buf`, its first `read` may return more bytes than `buf` holds. The corrected length always fits. |
| CCheck.CheckMember | src/check.c:60-121 | One regular member advances the scan by exactly one `CheckStep`: unreadable copy, length mismatch, or verdict by verbosity. |
| CCheck.CheckEntries | src/check.c:55-122 | The header loop yields exactly `CheckMembers` over the members it reaches: all of them, or, when a data read fails, those up to and including that member (`Engine.Reached`). A header error ends it silently. |
| CCheck.WarnSummaries | src/check.c:127-135 | The two WARNING summaries are written under their own conditions, never at STATUS. |
| CCheck.ArchiveCheck | src/check.c:14-146 | stdout, stderr and the return value are exactly `CheckRun`. |
| CCheck.OutcomeAgreesWithSourceVerdict | src/check.c:93-121 | An unreadable copy is what the Rust tools call MISSING. A length mismatch is a FAILED there. Otherwise `memcmp` equality is OK there. |
| CCheck.CountersIgnoreVerbosity | src/check.c:99-121 | `missing`, `warning`, the verdicts and stderr do not depend on the verbosity; only stdout does. |
| CCheck.CheckTally | src/check.c:77-121 | `missing` counts unreadable copies and `warning` mismatches. There is at most one verdict per regular member and a `perror` line per unreadable copy. |
| CCheck.OutByVerbosity | src/check.c:99-121 | NORMAL prints one line per compared member. QUIET prints only FAILED lines, one per mismatch. STATUS prints nothing. |
| CCheck.CheckRunResult | src/check.c:127-145 | The return value is 1 iff the archive was stat-ed, opened and freed with no unreadable or mismatched member, else 0. At STATUS stdout is empty and stderr holds only the `perror`, length and free-error lines. |
| CCheck.MissingPluralFollowsWarning | src/check.c:127-130 | The unreadable-files summary says "file" when exactly one checksum mismatched and "files" otherwise, whatever the number of unreadable files. |
| CSum.HexDigits | src/sum.c:56-57 | The `%02x` loop prints the digest's hex string. |
| CSum.ArchiveSum | src/sum.c:10-72 | stdout, stderr and the status are exactly `SumRun`. |
| CSum.SumLinesRegular | src/sum.c:42-60 | One line per regular member of the members read, in order, each reading back as the hex digest of the member's data and its path. `archive_sum` prints this for the members it reaches (`Engine.Reached`). |
| CSum.SumIsPrint | src/sum.c:49-59 | For an archive without read errors the C loop reaches every member and prints exactly what Rust print mode writes. |
| CSum.SumStopsAfterDamage | src/sum.c:42-60 | With a damaged regular member, Rust print mode stops with that member's error and prints no line for it. The C loop prints the same lines plus one for that member, the digest of the bytes before the error, and then stops. |
| CSum.SumRunStatus | src/sum.c:19-71 | The status is EXIT_FAILURE iff the archive cannot be stat-ed, opened or freed. Digest lines are printed for the reached members whenever it could be opened. |
| CSum.SumAll | archive-sum.c:158-161 | `main`'s archive loop always returns EXIT_SUCCESS. |
| CSum.SumArchives | archive-sum.c:158-161 | `main`'s loop produces exactly `SumAll`: each archive's output after the earlier ones'. |
| CSum.SumAllContinues | archive-sum.c:158-161 | A failing archive does not stop the loop: every archive's output appears, after that of the archives before it. |
| Routing.VerifyOut | cli/src/cli.rs:129-137 | `out` is stdout iff neither `--quiet` nor `--status` occurred, else a sink. |
| Routing.VerifyErr | cli/src/cli.rs:139-152 | `err` is a sink iff `--status` occurred and no `--quiet` came later; otherwise stderr. |
| Routing.LastIndex | cli/src/cli.rs:61-62 | The last occurrence of a flag holds it with none after it, and is None iff the flag never occurs. |
| Routing.RoutingFollowsLastFlag | cli/src/cli.rs:129-152 | The table is the last-flag-wins reading of the command line: stdout only with neither flag, both silent when `--status` is last, stderr alone when `--quiet` is last. |
| Routing.StatusDecidesErr | cli/src/cli.rs:139-152 | Without `--status`, `err` is stderr whatever `--quiet` says; `--status` alone silences both sinks. |
| Routing.VerifyErrNested | archive-sum-cli/src/main.rs:83-89 | The inline decision over `indices_of(..).map(Iterator::last)` picks stderr or a sink. |
| Routing.Nested | archive-sum-cli/src/main.rs:73-74 | The nested option is present iff the flag occurred. |
| Routing.NestedAgrees | src/main.rs:84-100 | The inline nested-option decision equals `verify_err` for every pair of last indices. |
| Cli.LastOf | cli/src/cli.rs:61-62 | `indices_of(..).and_then(last)` is present iff the flag occurred, and then it is an occurrence no smaller than any other. |
| Cli.FromMatches | cli/src/cli.rs:56-71 | `try_from` turns verification on iff `-c` has a value; the last indices are present iff their flags occurred. src/cli.rs:23-38 is identical. |
| Cli.Arguments.ArchiveSource | cli/src/cli.rs:83-106 | No archive means stdin. An unopenable file is an error. Otherwise the file is gunzipped iff its extension is "gz" or "tgz" ignoring ASCII case. |
| Cli.Arguments.Append | cli/src/cli.rs:108-117 | No append file gives None; otherwise the file opened for appending, or its open error. |
| Cli.Arguments.AppendOrSink | cli/src/cli.rs:119-122 | The append file if named, else a sink; it fails exactly when opening the append file fails. |
| Cli.Arguments.AppendOrStdout | cli/src/cli.rs:124-127 | The append file if named, else stdout; it fails exactly when opening the append file fails. |
| Cli.BareCheckDoesNotVerify | cli/src/cli.rs:75-81 | A bare `-c` leaves verification off and no directory; `-c dir` turns it on with that directory. |
| Cli.ArgumentsRouting | cli/src/cli.rs:129-152 | From the parsed matches: stdout iff neither flag occurs; `err` is silenced iff `--status` occurs and every `--quiet` is at or before some `--status`. |
| Cli.ExtensionOfName | cli/src/cli.rs:89 | `dir/stem.ext`, with a stem other than "." and an extension without '.', has extension `ext`. |
| Cli.GzipIgnoresCase | cli/src/cli.rs:89-92 | "T.GZ" is gunzipped: the test ignores case. |
| Cli.GzipNeedsStem | cli/src/cli.rs:89-92 | "d/.tgz" is not gunzipped: a leading dot does not start an extension. |
| Args.FromMatches | cli/src/args.rs:30-55 | The shared fields are read as in cli/src/cli.rs. `verify` is the presence of `-c`, `list_digests` the presence of `--list-digests`, and `verify_dir` the value of `-c`. |
| Args.VerifySwitchDiffers | cli/src/args.rs:62-72 | This version verifies whenever cli/src/cli.rs does. The two differ exactly on a bare `-c`, which verifies here with no directory. |
| Args.BareCheckVerifiesHere | cli/src/args.rs:62-72 | A bare `-c` verifies, and each member is looked up at its own path, relative to the working directory, as the long help of `-c` promises (corrected, see Findings). |
| Args.SinksAgree | cli/src/args.rs:91-124 | `verify_out`/`verify_err` are the routing table on the last indices; `append_or_sink`/`append_or_stdout` fall back to a sink/stdout. |
| Mains.SubcommandExit | archive-sum-cli/src/main.rs:16-33 | Exit code 1 iff verify returned Ok(false). An error prints one "archive-sum: error:" line and still exits 0. Nothing is written to stdout. |
| Mains.ModeOf | cli/src/main.rs:18-32 | `--list-digests` wins over `-c`, which wins over printing. |
| Mains.MainExit | cli/src/main.rs:15-38 | With `--list-digests` stdout is the digest names. The exit code is 0 iff the mode succeeded (verify: Ok(true), print: Ok). An error prints one line and exits 1. |
| Mains.ErrorExitCodes | cli/src/main.rs:34-37 | The same error exits 0 from the subcommand tools and 1 from cli; a mismatch exits 1 from both. |
| Mains.VerifySetup | archive-sum-cli/src/main.rs:55-92 | The archive's open error comes first, before any sink is set up. |
| Mains.PrintSetup | archive-sum-cli/src/main.rs:35-53 | The archive's open error comes first, before the append file is opened. |
| Mains.SetupAgreesWithArguments | src/main.rs:71-100 | The inline set-up (append file or sink, `out` by `is_present`, `err` by nested last indices) chooses exactly `append_or_sink`, `verify_out`, `verify_err` and `append_or_stdout`. |
| Mains.ArgsVerifySetup | cli/src/main.rs:48-58 | It fails with the archive error first, else exactly when `append_or_sink` fails; `out` is a sink iff either flag occurred. |
| Mains.ArgsPrintSetup | cli/src/main.rs:40-46 | It fails with the archive error first, else exactly when `append_or_stdout` fails; without an append file it writes to stdout. |
| Mains.ArgsSetupAgrees | cli/src/main.rs:40-58 | For the same command line, cli's `run_verify`/`run_print` hand the engines the same writers as the subcommand tools. |
| Mains.StatusAloneSilences | archive-sum-cli/src/main.rs:76-89 | `--status` with no `--quiet` silences `out` and `err` but still writes the append file. |
| Mains.ArchiveFrom | src/main.rs:34-53 | No archive means stdin. An unopenable file is an error. Otherwise the file is gunzipped iff its name ends with ".tar.gz" or ".tgz", case-sensitively. |
| Mains.TarGzHasExtension | src/main.rs:39 | Every ".tar.gz" name is also gunzipped by the extension test. |
| Mains.TgzHasExtension | src/main.rs:39 | So is every ".tgz" name whose last component has something before the dot. |
| Mains.PlainGzOnlyByExtension | src/main.rs:39 | "a.gz" is gunzipped by the extension test only. |
| Mains.UpperCaseOnlyByExtension | src/main.rs:39 | "T.GZ" is gunzipped by the extension test only. |
| Mains.SuffixWithoutExtension | src/main.rs:39 | "d/.tgz" is gunzipped by the suffix test only. |

## Left out

- The digest algorithms (MD5, SHA-1, SHA-2 from the `md5`/`sha1` crates, `DynDigest`, OpenSSL, EVP) are foreign. They are the parameter `Algorithm`, so the published test-vector hashes are not reproduced.
- Failures writing to any sink (`writeln!(..)?`, `printf`) are not modelled: sinks are sequences of lines that always accept a write.
- Errors from `fs::metadata` and `File::open` on a source file that exists (permissions, a directory at the source path) are not modelled; an existing path is always a readable file.
- The C `perror` text is modelled as the ENOENT message for every failed `stat`; other `errno` values are not distinguished.
- libarchive's ARCHIVE_WARN and ARCHIVE_RETRY statuses are not modelled; a header read is OK, end, or fatal.
- clap's argument definitions and validators (archive-sum-cli/src/cli.rs, `build` in cli/src/cli.rs and src/cli.rs) and C's `getopt_long`, usage text and `EVP_get_digestbyname` (archive-sum.c:77-156) are argument parsing. The model starts from the parsed matches, or from the archive list in C.
- The digest choice of cli/src/args.rs (`digest()`), the names `--list-digests` prints, and the OpenSSL `Hasher::new` errors are not modelled; the names are a parameter of `Mains.MainExit`.
- `Args.Arguments.archive()` opens the archive through `archive_rs::Archive::open`, whose format detection is not part of this model; its `expect` on a missing archive argument is not modelled. The engines receive an already opened archive.
- `main` passing the opened archive and sinks on to the engines is stated per step (setup, engine, exit) and not as one composed function.
- The `unimplemented!`/`unreachable!` arms of the subcommand `main`s cannot be reached with clap's definitions and are not modelled.
- `Entry::path()` errors in the `tar`-based engines (non-UTF-8 or malformed paths) are not modelled; paths are strings.
- LibEntry.FileTypeOf: a code outside the eight declared ones is excluded by a precondition instead of modelling the panic.
- LibEntry.Read: the read at a damaged member's fault, where `archive_read_data` returns ARCHIVE_FATAL and `as usize` turns it into a huge count, is excluded by the precondition; no modelled engine reads an entry through `Read`.
- The counters are unbounded; the 32-bit `unsigned int` wrap and the `%d` printing of `warning` in check.c are not modelled.
- NUL bytes inside member paths (cut short by C strings) and `to_string_lossy` replacement are not modelled.
- Engine.Join: `Path::join` normalisation beyond the separator (`.` and `..` components, repeated '/') is not modelled.
- Ownership and release (`Drop`, `archive_read_free`, `EVP_MD_CTX_destroy`, `close`) is modelled only as a possible free error in C.
- CCheck.ArchiveCheck, CSum.ArchiveSum: when `archive_read_free` fails, src/check.c:137-138 and src/sum.c:64-67 take the message from `archive_error_string(a)` after `a` has been released, a use after free whose text is undefined. The model prints the message the library reported, as if it had been read before freeing.
- Native.Reader.NextHeader: skipping the unread data of a damaged member (a non-regular one, whose data no tool reads) succeeds in the model; libarchive may report the damage there instead.
- Native.Reader: the `tar` crate's reader and libarchive are one abstract reader, so differences in how they chunk data or report errors are not captured.
- Native.Reader.ReadDataBlock: the offset that `archive_read_data_block` returns with each block is not modelled. Blocks are consecutive slices of the member's data, so a sparse member, whose holes `archive_read_data` fills with zeros, cannot occur in the reader. In the model, the engines that read through `Blocks::next` (archive-sum/src/print.rs and archive-sum/src/verify.rs) therefore hash the same bytes as those that call `archive_read_data`. For a sparse member they do not; `Sparse` states that difference on its own (see Findings).
- CCheck.Snprintf, CCheck.OriginalPath: lengths are counted in characters, while `snprintf` and PATH_MAX count bytes. For ASCII paths the two agree; a non-ASCII path near 4096 bytes is cut at a different place in the model than in C, where the cut may also fall inside a UTF-8 sequence.
- Cli.FromMatches: the one `Arguments` record stands for both cli/src/cli.rs and src/cli.rs, whose modelled parts are identical.

## Findings

| source | as written | input that shows it | evidently intended | confidence | as-written member | corrected member |
|---|---|---|---|---|---|---|
| src/check.c:87 | `read(original_fd, buf, original_bsize)` reads up to the original file's `st_blksize` into `buf`, which line 35 sizes by the archive's `st_blksize` | an archive on a file system with 4096-byte blocks and an original file of 65536 bytes on one with 65536-byte blocks: the first read may write 61440 bytes past `buf` | read at most `archive_bsize` bytes, the size of `buf` | not executed | CCheck.AsWrittenReadOverflows | CCheck.OriginalReadLength |
| libarchive/src/entry.rs:80-91 | `Blocks::next` fetches each block's offset from `archive_read_data_block` and drops it, so archive-sum/src/print.rs:24 and archive-sum/src/verify.rs:33 hash the blocks back to back | a sparse member of three bytes whose middle byte is a hole: the digest covers `[1, 2]`, while the member's content, and the file it extracts to, is `[1, 0, 2]` | hash the member's content, with each block at its offset and the holes as zeros | not executed | Sparse.BlocksDropHoles | Sparse.FilledPlacesBlocks |
| cli/src/cli.rs:75-77 | `verify()` is `check.is_some()` over `value_of("check")`, so a `-c` without a directory prints digests instead of verifying (src/cli.rs:42-44 is the same) | the command line `-c -- archive.tar` | verify against the current working directory, as the long help of `-c` (cli/src/cli.rs:190-196) says; cli/src/args.rs:62-64 tests the presence of `-c` and does so | not executed | Cli.BareCheckDoesNotVerify | Args.BareCheckVerifiesHere |

The plural of check.c's unreadable-files summary follows `warning` rather than
`missing` (src/check.c:128-129), so one unreadable file with no mismatch reads
"1 listed files could not be read". This is modelled as written
(`CCheck.MissingPluralFollowsWarning`); it affects only the wording.
