# Verified model of the frontend build and release scripts

This project models the algorithms inside the repository's frontend scripts and proves what they are for.

* **Icon codec** (`Bytes`, `Crc32`, `CrcDivision`, `Scanlines`, `Png`, `Ico`, `Sums`, `Resize`): the checksum register
  and polynomial division, the PNG chunk writer and reader, row filters and their in-place reconstruction, the area
  filter, and the ICO container. Methods work on byte arrays as the scripts do and are proved equal to specification
  functions; file layouts, round trips, error detection and conservation are proved about those functions. A byte is an
  integer below 256 and the checksum register a 32-bit word.
* **Schema-path lookup** (`SchemaLookup`): a three-valued search over a possibly recursive graph of type declarations
  with one `seen` set that every branch mutates. Calls carry the number of stack frames left, so running out of stack
  is an outcome, not an assumption.
* **Graphs** (`PackageGraph`, `ProjectFaces`): the layered dependency order and two worklist walks over project
  references.
* **Protocols** (`ArchivePublication`, `NpmPublication`, `SidecarCache`, `LintPool`): any number of processes racing
  for one cache path; release runs interrupted between any two registry writes and restarted; a cache directory
  whose preparation can crash at any step; a pool of workers sharing a cursor. Runs are sequences of states related
  by atomic steps, and theorems speak of every run.
* **Text** (`Chars`, `LinkRewrite`, `Prose`, `PairedMarkdown`, `ShellQuoting`): bracket and parenthesis scanners and
  back-to-front splicing, comment ranges projected onto lines, a partition of code blocks, and shell quoting read
  back by the POSIX rules.

Where the code does not do what it promises, the model follows the code:

* The schema-path check must call a path missing only when it is absent. It looks at property signatures alone and
  compares their written text, so it calls a method, any name an index signature admits, and a quoted name missing
  (`SchemaLookup.MethodReportedMissing`, `IndexReportedMissing`, `QuotedReportedMissing`). At one literal or interface
  no name is wrongly missing exactly when every name of a member, and every name an index signature admits, is also that
  of a property signature written with just that name (`SchemaLookup.NeverWronglyMissing`); where members are
  transparent in this way and written bare, both definite answers are right (`SchemaLookup.LookupSound`).
* `gen-config-catalog.ts:325` says that a recursive type bails out rather than loops. `type T = T['x']` prepends a
  step at every turn, so the guard's key never repeats and the search overflows any stack
  (`SchemaLookup.SelfIndexedOverflows`). Where no cycle of references lengthens the path it always returns
  (`SchemaLookup.LookupTerminates`).
* The commit point of a release, `latest` of the entry package, is set last only if the bundle's own tag is another
  one or the entry is its last package (`NpmPublication.SafeExactlyWhenCommittingLast`); nothing refuses a bundle
  whose tag is `latest`.
* A racing archive preparation can remove a verified archive if the slot held a corrupt file at first
  (`ArchivePublication.LossNeedsCorruption`), or if hashing an intact file fails (`ArchivePublication.MisreadLoses`).
  When every call returns the archive is there all the same.
* A completed sidecar build validates again for the same inputs only if its metadata is within 16 MiB
  (`SidecarCache.BuiltThenValid`): larger metadata is written but never read, so such a build is repeated every time
  (`SidecarCache.OversizedIsRebuilt`).
* The destination of a printed link, image or definition is found exactly when its label leads to the separator, nothing
  but white space stands before it, its own delimiters balance in it, and what follows ends it
  (`LinkRewrite.RangeFoundExactly`). CommonMark also reads links that fail this: a lone bracket in a code span of the
  label, a link that goes on in the next line of a block quote, whose `>` is overwritten in place of the destination, a
  bare destination that begins with a no-break space, or a backslash before a space (`LinkRewrite.LoneBracketMissed`,
  `QuotedGapMissed`, `NoBreakSpaceSkipped`, `EscapedSpaceSwallowed`). A target with a space, as decoding a path can give,
  is not found again in the projected text (`LinkRewrite.SpacedTargetLost`).
* The face check promises that every reachable reference names the leaf of the aggregate it is reached from, but it
  judges a reference by its own config's face. A clean report means isolation exactly when every config that enters a
  split project has the face of the aggregates that reach it (`ProjectFaces.CleanReportExactly`); a neutral config that
  extends the client base breaks this (`ProjectFaces.BridgedIsCleanNotIsolated`).
* A pool without workers is the only one that misses a result (`LintPool.RunAll`).

## Model

| member | source | states |
|---|---|---|
| Crc32.ComputeChecksum | frontend/scripts/app-icon-assets.ts:14-23 | the in-place loop over bytes and bits computes the checksum the theorems below are about |
| Crc32.ShiftIsLinear | frontend/scripts/app-icon-assets.ts:19 | one shift of the register distributes over XOR |
| Crc32.RegisterFeedsBits | frontend/scripts/app-icon-assets.ts:16-21 | taking the message byte by byte is feeding the register its bits one at a time, lowest first |
| Crc32.FeedDifference | frontend/scripts/app-icon-assets.ts:16-21 | two registers differ exactly as one fed with the error pattern alone |
| Crc32.BurstLeavesTrace | frontend/scripts/app-icon-assets.ts:16-21 | an error pattern within 32 consecutive bits leaves a nonzero register unless it is empty |
| Crc32.ShortBurstDetected | frontend/scripts/app-icon-assets.ts:14-23 | equal-length messages that differ only inside 32 consecutive bits, byte-aligned or not, share a checksum only if equal |
| Crc32.FourByteCorruptionDetected | frontend/scripts/app-icon-assets.ts:14-23 | corrupting up to four neighbouring bytes always changes the checksum |
| Crc32.ChecksumValueFaithful | frontend/scripts/app-icon-assets.ts:22 | the unsigned value stored in a file determines the checksum and fits 32 bits |
| CrcDivision.ChecksumIsRemainder | frontend/scripts/app-icon-assets.ts:14-23 | a word is the checksum if and only if it is the complement of the remainder of dividing the message, its first 32 bits inverted and 32 zeros behind it, by the generator polynomial (section 3.4 of RFC 2083) |
| CrcDivision.BitOrder | frontend/scripts/app-icon-assets.ts:16-21 | the message enters the division byte by byte, each byte from its lowest bit |
| CrcDivision.KnownChecksums | frontend/scripts/app-icon-assets.ts:15-22 | the checksum of nothing is 0 and that of the IEND chunk is AE 42 60 82 |
| Scanlines.PaethIsNearest | frontend/scripts/app-icon-assets.ts:59-67 | the predictor is a neighbour at least distance from the estimate, ties going to left, then above (section 6.6 of RFC 2083) |
| Scanlines.ReconstructByte | frontend/scripts/app-icon-assets.ts:108-120 | one turn of the inner loop stores the next byte of the image, or fails on an unsupported filter |
| Scanlines.Reconstruct | frontend/scripts/app-icon-assets.ts:104-121 | the in-place loops produce exactly the image, or the failure, that the scanlines specify |
| Scanlines.UnfiltersExactly | frontend/scripts/app-icon-assets.ts:107-119 | where rows have pixels, reconstruction fails if and only if some row has an unsupported filter type |
| Scanlines.FiltersAsSpecified | frontend/scripts/app-icon-assets.ts:104-121 | in accepted scanlines every byte is the pixel minus, by filter type, nothing, the left, the upper, the floor of their mean or the nearest of the three neighbours, all of the decoded image and 0 outside it (section 6 of RFC 2083) |
| Scanlines.UnfilterFiltered | frontend/scripts/app-icon-assets.ts:104-121 | for every image and every choice of filter per row, reconstructing the filtered rows gives the image back |
| Scanlines.FilteredUnfilter | frontend/scripts/app-icon-assets.ts:104-121 | conversely, accepted scanlines are the filtering of the image they decode to, so nothing else decodes |
| Scanlines.PlainRow | frontend/scripts/app-icon-assets.ts:47-49 | a row of filter type 0 is its bytes behind a zero |
| Png.PngChunk | frontend/scripts/app-icon-assets.ts:25-33 | the chunk is its length, name, data and checksum, in that layout |
| Png.BuildScanlines | frontend/scripts/app-icon-assets.ts:45-49 | copying rows into a zeroed buffer is filtering every row with type 0 |
| Png.EncodePng | frontend/scripts/app-icon-assets.ts:36-57 | the encoder's result or error, for every image, is the specified stream |
| Png.ParseChunks | frontend/scripts/app-icon-assets.ts:74-95 | the chunk loop collects the header and IDAT data of a well-formed stream and fails on a short read, a wrong checksum or an unsupported header |
| Png.DecodePng | frontend/scripts/app-icon-assets.ts:70-123 | the decoder's result or error, for every byte string, is the specified one |
| Png.ReadSerializedAll | frontend/scripts/app-icon-assets.ts:77-95 | reading a written chunk sequence accepts its chunks one after the other |
| Png.DecodesExactly | frontend/scripts/app-icon-assets.ts:70-123 | a file decodes to an image if and only if it is the signature and a sequence of well-formed chunks with supported headers, the last of which gives the size, and IDAT data that inflates to a filtering of the pixels, whatever the filters, the split into chunks and the other chunks |
| Png.IdatInOrder | frontend/scripts/app-icon-assets.ts:91-92 | what is inflated is the data of the IDAT chunks and of no others, in order |
| Png.EncodesExactly | frontend/scripts/app-icon-assets.ts:36-57 | the encoder refuses exactly a buffer of another size than its dimensions say, and dimensions or packed rows that do not fit 32 bits |
| Png.EncodedLayout | frontend/scripts/app-icon-assets.ts:40-56 | every byte of the file: signature, IHDR with its fields, sRGB, IDAT and the twelve bytes of IEND |
| Png.DecodeEncoded | frontend/scripts/app-icon-assets.ts:36-123 | decoding an encoded image gives it back; only an image without pixels is refused |
| Png.CorruptionRejected | frontend/scripts/app-icon-assets.ts:77-84 | corrupting up to four neighbouring bytes of the name and data of any chunk of a decodable file makes it refused |
| Ico.WriteEntry | frontend/scripts/app-icon-assets.ts:206-217 | the callback writes one 16-byte entry and nothing else, or fails on a size outside 1..256 or a field that does not fit |
| Ico.WriteDirectory | frontend/scripts/app-icon-assets.ts:205-218 | the loop fills the header with one entry per frame at growing offsets, or fails as the first bad frame does |
| Ico.EncodeIco | frontend/scripts/app-icon-assets.ts:200-220 | the container written is header, directory and frames, or the specified error |
| Ico.EncodedLayout | frontend/scripts/app-icon-assets.ts:205-219 | the frames lie one after the other, without gap or overlap, from the end of the directory to the end of the container |
| Ico.EncodesExactly | frontend/scripts/app-icon-assets.ts:200-218 | a list of frames is packaged if and only if there are fewer than 65536, each of a size within 1..256, with its length and its offset below 2^32 |
| Ico.EncodedFields | frontend/scripts/app-icon-assets.ts:202-217 | the header and all fields of every directory entry, byte by byte |
| Ico.DecodesExactly | frontend/scripts/app-icon-assets.ts:223-239 | a container decodes to a list of frames if and only if its header counts them and every entry is square, behind the directory and inside the file, and names that frame |
| Ico.DecodeEncoded | frontend/scripts/app-icon-assets.ts:200-239 | decoding an encoded list of frames gives it back, size 256 included |
| Ico.DirectoryFits | frontend/scripts/app-icon-assets.ts:206-218 | exactly which frame lists can be stored: sizes within 1..256, lengths and offsets below 2^32 |
| Resize.VisitsOverlaps | frontend/scripts/app-icon-assets.ts:143-146 | the loops visit exactly the source cells that overlap the target cell |
| Resize.VisitsExist | frontend/scripts/app-icon-assets.ts:143-146 | every target cell visits some source cell, and only existing ones |
| Resize.SharesFillTarget | frontend/scripts/app-icon-assets.ts:144-146 | along one axis the shares of a target cell add up to its width |
| Resize.SharesFillSource | frontend/scripts/app-icon-assets.ts:144-146 | along one axis the shares of a source cell over all targets add up to its own width |
| Resize.WeightsOfTarget | frontend/scripts/app-icon-assets.ts:147-150 | every target pixel's weights sum to the scale squared |
| Resize.BlendConserves | frontend/scripts/app-icon-assets.ts:143-156 | summed over the target image, any blended quantity is the source total, so each source pixel's weights sum to one |
| Resize.AlphaConserved | frontend/scripts/app-icon-assets.ts:149-151 | alpha before rounding is conserved |
| Resize.RoundedIsNearest | frontend/scripts/app-icon-assets.ts:158-161 | rounding takes the nearest integer, halves upwards |
| Resize.ResizedBetweenSources | frontend/scripts/app-icon-assets.ts:158-161 | each output channel lies between the least and greatest value among the overlapped pixels, for colour among those with nonzero alpha |
| Resize.StoredIsNearest | frontend/scripts/app-icon-assets.ts:157-161 | the stored alpha is the integer nearest to the mean over the area, a stored colour nearest to the mean over the alpha, halves upwards, and 0 under no alpha |
| Resize.OwnSizeKeeps | frontend/scripts/app-icon-assets.ts:126-165 | resized to its own size an image keeps every byte of every pixel that is not wholly transparent |
| Resize.ResizedIsByte | frontend/scripts/app-icon-assets.ts:157-161 | every stored channel is a byte, so nothing wraps |
| Resize.ReadPixel | frontend/scripts/app-icon-assets.ts:148-154 | one pixel's channels, or a failure exactly when the buffer does not reach it |
| Resize.BlendPixel | frontend/scripts/app-icon-assets.ts:138-156 | the two inner loops accumulate exactly the weighted sums over all source pixels, or fail on a buffer that is too short |
| Resize.WritePixel | frontend/scripts/app-icon-assets.ts:133-161 | the body of the outer loops stores one resized pixel and leaves every other byte, done or still to do |
| Resize.ResizeSquare | frontend/scripts/app-icon-assets.ts:126-165 | refuses exactly a non-square source or a size outside 1..width, fails exactly on a buffer shorter than the pixels, and otherwise every channel of the new image is the resized one |
| SchemaLookup.Exclusive | frontend/scripts/gen-config-catalog.ts:311-315 | no path is both present in and absent from the unfolding of a type |
| SchemaLookup.DeclExclusive | frontend/scripts/gen-config-catalog.ts:311-315 | the same for declarations |
| SchemaLookup.Walk.LookupPath | frontend/scripts/gen-config-catalog.ts:317-403 | the recursive search on one mutated set is the function that threads the set through, stack overflow included |
| SchemaLookup.Walk.IntoMembers | frontend/scripts/gen-config-catalog.ts:335-343 | a property signature of that name answers: found at the last step, "unknown" without a type, else its type is looked into on the shared set |
| SchemaLookup.Walk.LookupHeritage | frontend/scripts/gen-config-catalog.ts:348-359 | the loop over base types answers for each in turn on the shared set |
| SchemaLookup.Walk.LookupEach | frontend/scripts/gen-config-catalog.ts:367-377 | the branches of a union or intersection are looked up in turn on the shared set |
| SchemaLookup.Walk.LookupDeclaration | frontend/scripts/gen-config-catalog.ts:322-327 | a named declaration is guarded by itself and the number of steps left, then looked into |
| SchemaLookup.LookupSound | frontend/scripts/gen-config-catalog.ts:317-403 | where members are transparent, and whatever the shared set already holds, "found" means the path is present and "missing" that it is absent, for recursive graphs too |
| SchemaLookup.DeclarationSound | frontend/scripts/gen-config-catalog.ts:317-361 | the same from a declaration |
| SchemaLookup.LookupExactly | frontend/scripts/gen-config-catalog.ts:317-403 | where members are transparent, an unguarded search that returns answers "found" if and only if the path is present, "missing" if and only if it is absent, and "unknown" only where the declarations decide neither |
| SchemaLookup.DeclarationExactly | frontend/scripts/gen-config-catalog.ts:317-361 | the same from a declaration |
| SchemaLookup.FreshLookup | frontend/scripts/gen-config-catalog.ts:322-327 | the guarded answer is the unguarded one unless some declaration is entered twice with as many steps left, or was so before; the set then gains exactly the declarations entered |
| SchemaLookup.FreshDeclaration | frontend/scripts/gen-config-catalog.ts:322-327 | the same from a declaration |
| SchemaLookup.NeverWronglyMissing | frontend/scripts/gen-config-catalog.ts:335-343 | no name of a literal is wrongly called missing if and only if every name of a member, and every name an index signature admits, is also that of a property signature written with just that name |
| SchemaLookup.InterfaceNeverWronglyMissing | frontend/scripts/gen-config-catalog.ts:344-347 | the same for an interface that extends nothing |
| SchemaLookup.NeverWronglyFound | frontend/scripts/gen-config-catalog.ts:338 | no name is wrongly found if and only if the text of every property signature is a name that a member declares or admits |
| SchemaLookup.TransparentExactly | frontend/scripts/gen-config-catalog.ts:335-343 | the search meets the very member each name denotes if and only if nothing is hidden and every property signature is written with its bare name |
| SchemaLookup.MethodReportedMissing | frontend/scripts/gen-config-catalog.ts:338 | a declared method is called missing |
| SchemaLookup.IndexReportedMissing | frontend/scripts/gen-config-catalog.ts:338 | any name an index signature admits is called missing |
| SchemaLookup.QuotedReportedMissing | frontend/scripts/gen-config-catalog.ts:338 | a name declared in quotes is called missing, because the text compared keeps them |
| SchemaLookup.GuardWeakens | frontend/scripts/gen-config-catalog.ts:322-327 | the guard only ever weakens the unguarded answer to "unknown" |
| SchemaLookup.DeclWeakens | frontend/scripts/gen-config-catalog.ts:322-327 | the same from a declaration |
| SchemaLookup.LookupTerminates | frontend/scripts/gen-config-catalog.ts:317-403 | if some potential on declarations outweighs what every cycle of references adds to the path, a bounded stack suffices, on every finite graph |
| SchemaLookup.DeclTerminates | frontend/scripts/gen-config-catalog.ts:317-403 | the same from a declaration |
| SchemaLookup.PlainWorldIsLevelled | frontend/scripts/gen-config-catalog.ts:381-387 | a graph without literal indexed access is one of these, with no potential at all |
| SchemaLookup.ConfigIndexedIsLevelled | frontend/scripts/gen-config-catalog.ts:382-385 | so is `Config['x']` over a recursive `Config` |
| SchemaLookup.SelfIndexedOverflows | frontend/scripts/gen-config-catalog.ts:325-326 | the alias `T = T['x']` overflows every stack, against the comment |
| SchemaLookup.SelfIndexedIsNotLevelled | frontend/scripts/gen-config-catalog.ts:382-385 | no potential fits the alias `T = T['x']` |
| PackageGraph.LessIsStrictOrder | frontend/scripts/package-graph.ts:77-83 | comparing by group rank, group and name is a strict order, total on packages of different names |
| PackageGraph.LessExactly | frontend/scripts/package-graph.ts:77-83 | one package sorts before another if and only if its group is listed earlier or alone is listed, or neither is and its group comes first by name, or the groups are the same and its name comes first |
| PackageGraph.LayeredIsRanked | frontend/scripts/package-graph.ts:64-66 | so of two packages on one level the earlier one in the order precedes in just that sense |
| PackageGraph.SortKeeps | frontend/scripts/package-graph.ts:64-66 | sorting a round permutes it into that order |
| PackageGraph.BelowMeansShortChains | frontend/scripts/package-graph.ts:63-72 | a package is placed within k rounds exactly when no dependency chain of k + 1 packages starts at it |
| PackageGraph.RoundIsLevel | frontend/scripts/package-graph.ts:63-72 | round k places exactly the packages whose longest dependency chain has k packages below |
| PackageGraph.StuckMeansCycle | frontend/scripts/package-graph.ts:67 | a round that finds nothing ready has met an unknown dependency or a cycle |
| PackageGraph.PlacedMeansAcyclic | frontend/scripts/package-graph.ts:63-74 | placing everything proves that every dependency is known and nothing is circular |
| PackageGraph.TopoSort | frontend/scripts/package-graph.ts:59-75 | for the packages a `Map` by name keeps, an order is returned if and only if every dependency is known and the graph is acyclic; it is a permutation of them, round by round, each package in the round of its longest chain, and within a round by listed group, then group name, then package name; a refusal names exactly the packages that can never be placed |
| PackageGraph.MappedKeepsLast | frontend/scripts/package-graph.ts:60 | of packages with one name the last is kept, and nothing else is lost or repeated |
| PackageGraph.MappedDistinct | frontend/scripts/package-graph.ts:60 | packages of distinct names are all kept, in their order |
| PackageGraph.DependenciesComeFirst | frontend/scripts/package-graph.ts:32-33 | each package comes after all of its dependencies |
| PackageGraph.OrderIsCanonical | frontend/scripts/package-graph.ts:59-83 | the order does not depend on the order of the input |
| PackageGraph.LevelUnique | frontend/scripts/package-graph.ts:63-72 | a package has one level only |
| ArchivePublication.SlotHistory | frontend/scripts/build-investment-python-sidecar.ts:366-408 | in every interleaving the slot holds its first content, nothing, or verified content, and its first content never returns; a directory is never replaced |
| ArchivePublication.TemporariesAreChecked | frontend/scripts/build-investment-python-sidecar.ts:389-391 | only content with the locked hash reaches the publishing loop |
| ArchivePublication.ReturnedSawVerified | frontend/scripts/build-investment-python-sidecar.ts:381-398 | a call that returned put or read verified content in the slot while it was under way |
| ArchivePublication.AllReturnedLeavesVerified | frontend/scripts/build-investment-python-sidecar.ts:366-408 | when all calls have returned, the slot holds verified content |
| ArchivePublication.VerifiedStays | frontend/scripts/build-investment-python-sidecar.ts:392-401 | unless the slot began corrupt or a read failed, verified content is never removed |
| ArchivePublication.LossNeedsCorruption | frontend/scripts/build-investment-python-sidecar.ts:392-401 | without failing reads, some run loses a verified file if and only if the slot began with a corrupt one |
| ArchivePublication.MisreadLoses | frontend/scripts/build-investment-python-sidecar.ts:398-400 | a lone call whose reads fail removes a verified file |
| ArchivePublication.RunsAreBounded | frontend/scripts/build-investment-python-sidecar.ts:392-403 | n calls take at most 16 n steps together, however they interfere |
| ArchivePublication.DownloadFileWithRetry | frontend/scripts/build-investment-python-sidecar.ts:229-284 | succeeds exactly when an attempt within the limit delivers after retryable failures only; the destination holds just what was delivered, else nothing; it waits once before each further attempt, and gives up only on a failure that may not be retried or after the last attempt |
| ArchivePublication.DelaysDouble | frontend/scripts/build-investment-python-sidecar.ts:274 | the first wait is two seconds and each further one twice the one before, up to sixteen |
| ArchivePublication.CachePath.Publish | frontend/scripts/build-investment-python-sidecar.ts:392-403 | undisturbed, the publishing loop leaves verified content unless a directory is in the way, and is a run of the machine |
| ArchivePublication.CachePath.PrepareArchive | frontend/scripts/build-investment-python-sidecar.ts:366-408 | undisturbed, exactly when a call succeeds and what it leaves; a failing call changes nothing; the code is a run of the machine |
| NpmPublication.RegistryPublication.NpmPublish | frontend/scripts/publish-npm-baseline.ts:643-648 | one write publishes the integrity and sets the given tag |
| NpmPublication.RegistryPublication.EnsureDistTag | frontend/scripts/publish-npm-baseline.ts:765-774 | sets a tag only where it is not set; tagging an unpublished package fails |
| NpmPublication.RegistryPublication.Verify | frontend/scripts/publish-npm-baseline.ts:666-708 | accepts exactly the registries that hold every package with its integrity, its tag, and the entry's `latest` |
| NpmPublication.RegistryPublication.Publish | frontend/scripts/publish-npm-baseline.ts:635-664 | the loop, cut short after any number of writes, is the run the theorems are about |
| NpmPublication.HistoryExtends | frontend/scripts/publish-npm-baseline.ts:640-661 | over any interrupted and restarted runs no integrity is replaced and nothing outside the bundle is touched |
| NpmPublication.HistorySafe | frontend/scripts/publish-npm-baseline.ts:635-664 | over any such runs `latest` names this version only when every package is published as recorded and tagged, if the bundle commits last |
| NpmPublication.SafeExactlyWhenCommittingLast | frontend/scripts/publish-npm-baseline.ts:643-661 | that holds for all histories if and only if the bundle's tag is not `latest` or the entry is the last package |
| NpmPublication.LatestTooEarly | frontend/scripts/publish-npm-baseline.ts:643-648 | otherwise stopping after the entry leaves `latest` on an incomplete release |
| NpmPublication.RunCompletes | frontend/scripts/publish-npm-baseline.ts:640-664 | an uninterrupted run completes exactly when nothing conflicts and the entry can be tagged, and a completed run satisfies verify |
| NpmPublication.RefusedExactly | frontend/scripts/publish-npm-baseline.ts:640-664 | an uninterrupted run refuses with a conflict if and only if something of the bundle is published with another integrity, and for want of the entry package if and only if only that is missing |
| NpmPublication.RestartsConverge | frontend/scripts/publish-npm-baseline.ts:635-664 | restarting after any interruptions ends in the very registry an uninterrupted run gives |
| ShellQuoting.SplitFormatted | frontend/scripts/publish-npm-baseline.ts:1004-1013 | reading a printed command by sections 2.2 and 2.3 of the POSIX Shell Command Language gives back exactly its words, empty ones and quotes included |
| ShellQuoting.ReadArgument | frontend/scripts/publish-npm-baseline.ts:1008-1013 | a printed argument is read as one word, that argument |
| ShellQuoting.FormattingIsInjective | frontend/scripts/publish-npm-baseline.ts:1004-1006 | different commands are never printed alike |
| ShellQuoting.QuotedExactly | frontend/scripts/publish-npm-baseline.ts:1008-1013 | a word is printed bare if and only if it is not empty and all its characters are plain, and otherwise between single quotes |
| SidecarCache.InvariantHolds | frontend/scripts/investment-desktop-sidecar-cache.ts:238-268 | at every step of every run, metadata in place repeats the last completed build |
| SidecarCache.HitIsLastBuild | frontend/scripts/investment-desktop-sidecar-cache.ts:172-186 | over all runs from any directory, restored ones included, with crashes, partial deletion, tampering and changing inputs, a hit is on a directory that holds a payload that passes the check, the metadata of the last completed build, which records just that payload for these inputs in at most 16 MiB, and nothing else |
| SidecarCache.BuiltThenValid | frontend/scripts/investment-desktop-sidecar-cache.ts:255-267 | a completed build leaves exactly a checked payload and its record, which validates if and only if the inputs are the same and the metadata is within its limit |
| SidecarCache.OversizedIsRebuilt | frontend/scripts/investment-desktop-sidecar-cache.ts:178 | a build whose metadata is larger is built again by the next preparation |
| SidecarCache.UnfinishedIsRebuilt | frontend/scripts/investment-desktop-sidecar-cache.ts:246-253 | a directory in which no build has finished is wiped, whatever is left in it |
| SidecarCache.CacheDirectory.Wipe | frontend/scripts/investment-desktop-sidecar-cache.ts:253 | the directory is emptied name by name |
| SidecarCache.CacheDirectory.Rebuild | frontend/scripts/investment-desktop-sidecar-cache.ts:254-267 | builds in the emptied directory exactly what passes the check, and records it; a failure leaves no metadata |
| SidecarCache.CacheDirectory.PrepareDesktopSidecar | frontend/scripts/investment-desktop-sidecar-cache.ts:238-268 | undisturbed, exactly when it hits, builds or fails and what it leaves; the code is a run of the steps |
| LinkRewrite.BalancedIsText | frontend/scripts/project-doc-site.ts:81-97 | a scan accepts exactly the text whose delimiters are escaped or paired |
| LinkRewrite.SkipWhitespace | frontend/scripts/project-doc-site.ts:75-79 | finds the first character that is not white space |
| LinkRewrite.LabelEnd | frontend/scripts/project-doc-site.ts:81-97 | the loop finds the bracket that closes the first one, or -1 |
| LinkRewrite.DestinationRange | frontend/scripts/project-doc-site.ts:99-142 | the range or error the scanners specify, for links, images and definitions |
| LinkRewrite.LabelFoundExactly | frontend/scripts/project-doc-site.ts:81-97 | a node's label end is found if and only if brackets balance in the label as printed |
| LinkRewrite.RangeFoundExactly | frontend/scripts/project-doc-site.ts:99-142 | for every printed link, image or definition, block quote marks before its destination included: the range is exactly the span of the destination if and only if the label leads to the printed separator, only white space stands before the destination, and it is delimited |
| LinkRewrite.LoneBracketMissed | frontend/scripts/project-doc-site.ts:81-97 | a lone bracket in a code span of the label leaves no label end |
| LinkRewrite.EscapedSpaceSwallowed | frontend/scripts/project-doc-site.ts:128-139 | a backslash before a space makes the range take in the title |
| LinkRewrite.QuotedGapMissed | frontend/scripts/project-doc-site.ts:75-79 | in a block quote the mark of the next line is taken for the destination and overwritten, which destroys the link |
| LinkRewrite.NoBreakSpaceSkipped | frontend/scripts/project-doc-site.ts:75-79 | a bare destination that begins with a no-break space is entered too late |
| LinkRewrite.RangeIsDelimited | frontend/scripts/project-doc-site.ts:118-141 | a range that ends inside any text is balanced and followed by what ends a destination |
| LinkRewrite.SpansApart | frontend/scripts/project-doc-site.ts:263-279 | spans of nodes, nested in labels or not, never overlap |
| LinkRewrite.SortIsUnique | frontend/scripts/project-doc-site.ts:283 | sorting the replacements by descending start has one possible result |
| LinkRewrite.BackToFrontRetargets | frontend/scripts/project-doc-site.ts:282-286 | splicing back to front is replacing every destination at once, all other text kept |
| LinkRewrite.Rewriter.Visit | frontend/scripts/project-doc-site.ts:241-279 | fails exactly where some destination cannot be located; otherwise pushes one replacement per node to rewrite, as located in the source |
| LinkRewrite.Rewriter.Rewrite | frontend/scripts/project-doc-site.ts:241-270 | one node: its range in the source, with its target, or the failure to locate it |
| LinkRewrite.Rewriter.RewriteMarkdown | frontend/scripts/project-doc-site.ts:235-287 | fails exactly where some destination cannot be located, else splices in what was found; in a well-formed document the result is the document printed with its destinations replaced |
| LinkRewrite.FoundRightExactly | frontend/scripts/project-doc-site.ts:99-142 | exactly the well-formed documents have all their destinations found, and found right |
| LinkRewrite.RescanExactly | frontend/scripts/project-doc-site.ts:282-286 | scanning the projected text of a well-formed document finds every target again if and only if each is delimited where it is put and leaves the captions around it leading to theirs |
| LinkRewrite.SpacedTargetLost | frontend/scripts/project-doc-site.ts:156-162 | a target with a space in a bare destination is not found again |
| Prose.CommentsAreComments | frontend/scripts/markdown.ts:112-119 | the ranges found in a node are comments, from an opening to the first close or the end, in order and apart |
| Prose.OpeningsCovered | frontend/scripts/markdown.ts:112-119 | no opening of a comment is left outside them |
| Prose.CommentsOfSource | frontend/scripts/markdown.ts:108-119 | for nodes that stand in the source at their offsets, every range of the whole file begins with an opening in the source and ends behind the first close or at its node's end, and every opening inside a node lies in some range |
| Prose.CommentsOf | frontend/scripts/markdown.ts:111-119 | the cursor loop collects those ranges |
| Prose.LineIsSlice | frontend/scripts/markdown.ts:123-138 | column c of a line is the source's character at the running line offset plus c |
| Prose.LinesAreSource | frontend/scripts/markdown.ts:160 | the lines hold no line feed and joined by line feeds they are the source |
| Prose.ProjectionExact | frontend/scripts/markdown.ts:124-138 | a column is covered if and only if its offset lies in a comment; a line is listed if and only if a comment touches it, empty lines included |
| Prose.HtmlCommentRanges | frontend/scripts/markdown.ts:108-140 | the map lists exactly the touched lines, each with its projected columns |
| Prose.VisibleExact | frontend/scripts/markdown.ts:143-153 | cutting sorted ranges leaves text exactly when a character that is not white space stands outside all of them, overlaps included |
| Prose.HasRenderedTextOutsideComments | frontend/scripts/markdown.ts:143-153 | so the check answers for any list of ranges in any order |
| Prose.MarkdownProseLines | frontend/scripts/markdown.ts:160-176 | a line survives if and only if it is outside code blocks and no comment touches it or it has a visible character outside all comments; in order and verbatim |
| ProjectFaces.FaceIsFirstNamed | frontend/scripts/project-reference-faces.ts:88-103 | the face is that of the first config up the extends chain that has one by name, cycles included |
| ProjectFaces.ContainingIsInnermost | frontend/scripts/project-reference-faces.ts:116-121 | trying split roots longest first finds the innermost one that contains the target |
| ProjectFaces.ConfigStandsFor | frontend/scripts/project-reference-faces.ts:111-114 | a reference stands for its own path if that is named `*.json`, and otherwise for `tsconfig.json` in that directory |
| ProjectFaces.NamedExactly | frontend/scripts/project-reference-faces.ts:94-97 | by name the host and client leaves of any directory have a face, and the two base configs of the root; no other config does |
| ProjectFaces.ReportedExactly | frontend/scripts/project-reference-faces.ts:41-57 | a visited config is reported for exactly its references to a config inside a split project, named with the innermost one, other than that project's leaf for the config's face |
| ProjectFaces.JudgeReferences | frontend/scripts/project-reference-faces.ts:41-60 | a reference is followed unless it enters a split project from no face or at another leaf than its face's |
| ProjectFaces.CollectViolations | frontend/scripts/project-reference-faces.ts:30-63 | fails only on a file that a config in the graph needs and cannot be read; otherwise visits exactly the existing configs reachable through references it follows, each once, and reports exactly their wrong references |
| ProjectFaces.ReportIsClean | frontend/scripts/project-reference-faces.ts:35-62 | the report is empty exactly when no visited config has a wrong reference |
| ProjectFaces.CleanReportExactly | frontend/scripts/project-reference-faces.ts:23-25 | a clean report means that every reachable reference names the leaf of its aggregate if and only if every config that enters a split project has the face of the aggregates that reach it |
| ProjectFaces.BridgedIsCleanNotIsolated | frontend/scripts/project-reference-faces.ts:40-57 | a neutral config that extends the client base lets the host aggregate reach a client leaf with a clean report |
| ProjectFaces.ProjectReferencesInvariants | frontend/scripts/package-invariants.ts:138-161 | true exactly when a config reachable inside the owner directory references the target; fails only on a reachable config that cannot be read |
| ProjectFaces.ReachesByChain | frontend/scripts/package-invariants.ts:144-159 | that is so if and only if a chain of references from the entry, each to a path strictly below the owner and to an existing config, ends in a config that refers to the target; all of the chain but the entry lies below the owner |
| LintPool.RunAll | frontend/scripts/publint-all.ts:127-145 | for every order in which workers resume, each target is linted once, at most `concurrency` at a time, with its own result; only an empty pool misses one |
| LintPool.Gather | frontend/scripts/publint-all.ts:141-145 | the results in the order of their targets, or a failure exactly when one is missing |
| PairedMarkdown.GroupByDoc | frontend/scripts/paired-markdown-derivatives.ts:35-41 | the map holds each document's blocks in order |
| PairedMarkdown.Partition | frontend/scripts/paired-markdown-derivatives.ts:30-63 | derivatives are exactly the blocks of documents that repeat their sibling block by block |
| PairedMarkdown.DerivativesExactly | frontend/scripts/paired-markdown-derivatives.ts:17-63 | a block goes to the derivatives if and only if its document is `stem.zh.md` and carries, place by place, the same fingerprints as the blocks of `stem.md`, and else stays primary |
| PairedMarkdown.PartsInterleave | frontend/scripts/paired-markdown-derivatives.ts:57-61 | the two parts interleave back to the input |
| PairedMarkdown.NoCheckLost | frontend/scripts/paired-markdown-derivatives.ts:43-55 | every document's whole sequence of blocks is checked in some primary document, through chains of siblings too |

## Left out

- Png: deflate and inflate are parameters, one the inverse of the other; their bytes are not modelled.
- ResizeSquare: weights are exact rationals, scaled to integers; floating-point rounding of sums and quotients is not modelled.
- applyRoundedPlate, alphaAt and assertMaskableSafeZone: one-branch pixel arithmetic.
- SchemaLookup: declarations, imports and names arrive resolved; parsePath, findExportedTypeDecl and declForTypeName, `keyof` and merged interface declarations are not modelled; of several index signatures that admit a name the first counts.
- LookupExactly: for transparent members and searches that return; where the stack overflows there is no answer.
- LookupTerminates: one direction only; a graph can return although a cycle lengthens the path, when an early answer cuts the cycle short.
- LookupSound: requires transparent members throughout; exactly which members break it is stated for one literal or interface, not for whole graphs.
- TopoSort: `localeCompare` is a total order that tells different names apart.
- LessExactly: for group lists no longer than 2^53 - 1; no array is longer.
- OrderIsCanonical: under the same condition, for packages of distinct names; canonically equivalent Unicode names could compare equal.
- ArchivePublication: hashes are an arbitrary function, a temporary path is private to its call, and a hard link appears at once with its full content; removal of the temporary file at the end is not a step.
- DownloadFileWithRetry: how each attempt ends is a parameter, and the limit allows at least one; the clock, proxies and HTTP are not modelled.
- NpmPublication: there is no other writer, a publish sets just its own tag, and any failing read or write is an interruption; packing, tarball checks and prompts are not modelled.
- SidecarCache: one preparation runs at a time and others disturb the payload only between preparations; the inventory check and the size of metadata are parameters, metadata found at first is the record of some earlier build, and JSON is read back as written.
- SplitFormatted: word recognition only; reserved words, aliases and assignments before a command are later stages of a shell.
- RewriteMarkdown: the parser's tree and offsets are the input, and what a destination is replaced by is a field of the node; strings are sequences of code units.
- MarkdownProseLines: HTML nodes and code blocks arrive with their positions, and a node's value is its slice of the source.
- CollectViolations: paths are resolved segment lists, the split roots are given (longest first, where that matters), and violations are records in order of discovery, not sorted text.
- LintPool: a lint is a function of its target, and a worker runs undisturbed between two awaits.
- The file system, git, npm, tar and HTTP appear only as the states above; catalog rendering, curated page maps, configuration files and the Python scripts are not modelled.
