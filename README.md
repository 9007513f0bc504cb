# EntityFinder core in Dafny

EntityFinder lists the named entities of a Minecraft world. For each dimension it
lists the `region` directory. It keeps the entries named `r.<x>.<z>.mca`. In each
such region file it visits the 32×32 chunk grid. For every chunk sector that
exists, it reads the payload, picks gzip or zlib from the payload's first byte,
and decodes the NBT `Chunk`. It then prints every entity of `Level.Entities` that
has a non-empty `CustomName`. Any error, including a Go runtime panic on a bad
slice or index, ends the whole run.

The model covers the logic in `find.go`. Each module matches one part:

- `Common`: bytes, `Option`, `Result`, the `Failure` that ends a run, and `Trace`.
  A `Trace` is the list of records printed so far plus the failure that stopped
  the run, if any. `Then` runs a second step only if the first did not fail.
  This is how `checkErr` and runtime panics are modelled: lines already printed
  stay printed, and nothing after the failure runs.
- `RegionFiles`: the pattern `^r\.(-?[0-9]+)\.(-?[0-9]+)\.mca$` as a hand-written
  matcher. It is proved equal to its meaning (`r.` + signed int + `.` + signed
  int + `.mca`, nothing around it). Also the loop that collects the matching
  entries in listing order.
- `Compression`: `read`. The scheme byte selects gzip (1) or zlib (2); any other
  byte gives the "unknown compression" error. The stream is the payload without
  its first byte. A decoder is returned in every case.
- `Entities`: the selection and projection of named entities. An entity with a
  non-empty name and a `Pos` shorter than three elements makes `Pos[k]` panic.
- `SectorScan`: the nested `for i` / `for j` loop over one region file. It is
  proved against `ScanPrefix`, the trace after the first n cells in row-major
  order.
- `Search`: `searchRegion` after the directory listing: filter, then scan each
  region file in order.

The library calls are function-typed fields of the datatypes `Region`, `Library`
and `Environment`: `region.Open`, `ExistSector`, `ReadSector`, `gzip.NewReader`,
`zlib.NewReader` and NBT `Decode`.

Three behaviours of the code are worth stating, because a more defensive reader
would not have them. The model keeps them as the code has them:
- There is no recovery from a bad sector. Every error panics through `checkErr`
  and ends the run.
- A named entity whose `Pos` is missing is not skipped. A named entity with fewer
  than three `Pos` elements panics.
- Integer positions are not widened. The library decodes `Pos` as `[]float64`.

## Model

| member | source | states |
|---|---|---|
| Common.Then | find.go:128-132 | `checkErr`'s panic: a failed trace is returned unchanged and the later step does not run; otherwise the outputs are concatenated and the later step's failure is kept; `ThenDone` (the empty trace is a unit) and `ThenAssociative` are its laws |
| RegionFiles.MatchesRegionFileName | find.go:78-82 | the regex test on each entry name; an accepted name has at least nine characters (`r.0.0.mca`); `MatchesIffRegionFileName` proves it accepts exactly the names the pattern describes |
| RegionFiles.MatchesIffRegionFileName | find.go:78 | the matcher accepts a name iff it is exactly `r.` signed-int `.` signed-int `.mca`, with nothing before or after |
| RegionFiles.RegionFileNameMatches | find.go:78 | every `r.<x>.<z>.mca` with signed integers x, z is accepted, and its first dot after `r.` separates exactly x from z |
| RegionFiles.AcceptsNegativeCoordinate | find.go:78 | `r.-3.12.mca` is accepted |
| RegionFiles.RejectsOtherExtensions | find.go:78 | `r.1.2.mcr` and `r.1.2.mca.bak` are rejected: the name must end in `.mca` |
| RegionFiles.RejectsEmptyCoordinate | find.go:78 | `r..1.mca` is rejected: each coordinate needs at least one digit |
| RegionFiles.RejectsDoubleMinus | find.go:78 | `r.--1.2.mca` is rejected: at most one minus sign |
| RegionFiles.Accepted | find.go:80-85 | the region list is never longer than the directory listing |
| RegionFiles.AcceptedAppend | find.go:80-85 | filtering a concatenated listing is concatenating the filtered parts, so listing order is kept |
| RegionFiles.AcceptedMembers | find.go:81-84 | a name is in the region list iff it was listed and matches the pattern |
| RegionFiles.AcceptedCounts | find.go:80-85 | each matching name occurs in the region list as often as in the listing, and a rejected name never occurs (nothing added or duplicated) |
| RegionFiles.AcceptedAllMatching | find.go:80-85 | a listing made only of region files is kept whole and unchanged |
| RegionFiles.FilterRegionFiles | find.go:80-85 | the append loop builds exactly the accepted entries in listing order |
| Compression.SchemeOf | find.go:136-143 | tag 1 selects gzip and tag 2 selects zlib, and no other tag selects either |
| Compression.TagRoundTrip | find.go:139-142 | the scheme tags and the schemes are in one-to-one correspondence |
| Compression.Read | find.go:134-146 | the error is "unknown compression" iff the tag is neither 1 nor 2; there is no error iff the tag is known and the reader constructor succeeds; a failing constructor's own error is passed on; the decoder wraps a nil reader exactly when a known tag's constructor fails, and otherwise reads `data[1:]` (through the scheme's decompressor when there is no error); the payload must be non-empty |
| Compression.ReadKnownScheme | find.go:139-144 | a payload tagged 1 or 2 gives a decoder over that scheme's decompressor of the remaining bytes and no error when the constructor succeeds, and a decoder over a nil reader with the constructor's error when it fails |
| Compression.ReadUnknownScheme | find.go:137-144 | any other tag gives the "unknown compression" error, together with a decoder over the bare remaining bytes |
| Compression.ReadSplitsPayload | find.go:135-136 | unless a constructor failed, the tag byte followed by the stream's bytes is the whole payload |
| Entities.Project | find.go:113-119 | the printed values of one entity: name, id and `Pos[0..2]`, defined only when `Pos` has at least three elements; a longer `Pos` prints its first three; `SelectPrintable` proves record k is the projection of the k-th named entity |
| Entities.Select | find.go:111-121 | the report has at most one record per entity, and its only possible failure is the out-of-range `Pos` index |
| Entities.Named | find.go:112 | the filtered list holds only entities with a non-empty `CustomName` |
| Entities.NamedMembers | find.go:111-112 | an entity is kept iff it is in the list and its `CustomName` is non-empty |
| Entities.NamedAppend | find.go:111-112 | filtering a concatenated list is concatenating the filtered parts, so list order is kept |
| Entities.NamedCounts | find.go:111-112 | each named entity is kept as often as it occurs and an unnamed one never (nothing added or duplicated) |
| Entities.SelectIgnoresUnnamed | find.go:111-112 | entities with an empty `CustomName` have no effect on the report, whatever their `Pos` |
| Entities.SelectPrintable | find.go:111-121 | when every named entity has at least three `Pos` elements, the report completes with record k equal to `(CustomName, ID, Pos[0], Pos[1], Pos[2])` of the k-th named entity |
| Entities.SelectFailsIff | find.go:113-119 | the report aborts iff some named entity has fewer than three `Pos` elements |
| Entities.SelectAppend | find.go:111-121 | reporting a concatenated list is reporting its parts in order, and an abort stops everything after it |
| Entities.VillagerExample | find.go:111-121 | one villager named "Bob" yields exactly one record with its name, id and position |
| SectorScan.ScanOrderIsRowMajor | find.go:95-96 | the 1024 visited cells are (i, j) for 0 ≤ i, j < 32 at position 32·i + j: i outer, j inner, nothing outside the grid |
| SectorScan.ScanAbortIsFinal | find.go:95-109 | after the first failing sector, later cells change nothing |
| SectorScan.ScanOutputGrows | find.go:95-121 | the lines printed after n cells are a prefix of those printed after any later cell |
| SectorScan.ScanEmptyRegion | find.go:97-99 | a region with no existing sector in the 32×32 grid prints nothing and does not fail |
| SectorScan.PresentMembers | find.go:97-101 | a cell's sector is read iff the cell was visited and its sector exists |
| SectorScan.ProcessSector | find.go:97-121 | one cell of the loop body; only a cell whose sector exists and reads without error prints anything; `ProcessSectorSteps` and `ProcessSectorFailsIff` state its outcome step by step and when it fails |
| SectorScan.ScanPrefix | find.go:95-123 | the trace after the first n cells in row-major order; when it has not failed, none of those n cells failed; `ScanAbortIsFinal` and `ScanOutputGrows` prove that a failure ends the scan and printed lines stay printed |
| SectorScan.ProcessSectorSteps | find.go:97-121 | an absent cell contributes nothing; for an existing cell a `ReadSector` error, an empty payload, an unknown tag, a failing reader constructor or a `Decode` error ends the run with that error, and otherwise the cell reports `Select` of the entities decoded from the payload without its tag byte behind the scheme's decompressor |
| SectorScan.ProcessSectorFailsIff | find.go:97-121 | a cell does not end the run iff its sector is absent, or it is read non-empty with a known tag, the constructor and the decoder succeed, and every named entity has at least three `Pos` elements |
| SectorScan.VisitSector | find.go:101-121 | the loop body for an existing sector is proved to give that cell's `ProcessSector` trace, whose steps the two lemmas above state |
| SectorScan.ScanRegion | find.go:95-123 | the loop's trace is the row-major trace of all 1024 cells; it queries existence for a prefix of the row-major order that is all of it unless a failure stops it at the failing cell; it reads exactly the queried cells whose sector exists |
| Search.RegionReport | find.go:92-124 | one region file: an `Open` error ends the run, otherwise the full 1024-cell scan; `SearchRegion` proves the loop uses it per file |
| Search.SearchFiles | find.go:90-125 | the trace after scanning the region files in order; `SearchFilesAppend` and `SearchAbortIsFinal` prove it stops at the first failure |
| Search.SearchFilesAppend | find.go:90-125 | scanning two lists of region files in sequence is scanning their concatenation; a failure in the first means the second contributes nothing to the run |
| Search.SearchIgnoresOtherEntries | find.go:81-84 | inserting a non-region entry anywhere in the listing does not change the run |
| Search.SearchAbortIsFinal | find.go:90-93 | a failure after the first k region files is the outcome of the whole run |
| Search.SearchRegion | find.go:78-125 | the region list is the accepted entries; the files it opens are a prefix of that list, so only region files are opened and in listing order; the trace is that of scanning the opened files; without a failure every region file is opened, and with one the last opened file is the one that failed, so nothing is opened after a failure |

## Left out

- NBT decoding (`nbt.NewDecoder`, `Decode`) is library code. `Library.decode` is an abstract function from the decoder's stream to the entity list or an error message. It also covers how missing fields get their zero values.
- The region container (`region.Open`, `ExistSector`, `ReadSector`) is library code. These are abstract functions in `Region` and `Environment.open`.
- `r.Close()` (find.go:124) is not modelled. The model has no file handles.
- gzip and zlib decompression are library code. The constructors' header checks are the abstract `Library.readerError`, which gives the error a constructor fails with, or None when it succeeds.
- The directory listing is taken as given: `os.Stat`, the missing-directory soft skip, the not-a-directory panic, `ioutil.ReadDir` and its error. `ReadDir` lists entries sorted by name; the model keeps whatever order it is given.
- `filepath.Join(regionDir, name)` is not modelled. The region list holds entry names, and `Environment.open` receives the name.
- `main` is not modelled: argument and prompt handling, the world-root checks, and the three dimension roots (`.`, `DIM-1`, `DIM1`).
- Console output is not modelled: the header lines, the region-file count, and the `%.2f` formatting. A printed line is a `Record`, and position components are opaque 64-bit patterns.
- There is no concurrency in the source, so none in the model.
