# FCI chunk selection and archive download planning

A model of two scripts that fetch Meteosat Third Generation FCI products
from the EUMETSAT archive.

- `scripts/get_fci_chunks_for_area.py` works out which of the 40
  horizontal strips ("chunks") of the 1 km full-disc grid cover a
  longitude/latitude box. The four corners are mapped to grid rows. Each
  row is inverted against the grid height of 11136 rows. A linear search
  over a fixed table of 40 chunk end rows turns the inverted row into a
  chunk number. The four corner chunks are then widened into the gap-free
  range from their minimum to their maximum. Without a box, all chunks 1
  to 40 are chosen.
- `scripts/download_fci_from_archive.py` searches a collection over a time
  window. The window is narrowed by one second at each end for Level-2
  products. The run stops early when nothing is found. Otherwise it
  builds one download task per selected file and dispatches the tasks in
  reverse order. For Level-1 products a file is selected when it matches
  one of the glob patterns `*_????_00NN.nc`, where NN is
  `str(chunk).zfill(2)` of a chosen chunk. For Level-2 products every
  file is selected.

The model has three modules:

- `ChunkLocator` (`chunk_locator.dfy`) holds the table, the search, the
  chunk of a row or point and the chunk range of a box.
- `Glob` (`glob.dfy`) holds the subset of `fnmatch` matching that the
  chunk patterns use: `*`, `?` and literal characters, case-sensitive as
  on POSIX.
- `ArchiveDownloader` (`archive_downloader.dfy`) holds the chunk patterns,
  `get_coverage`, `filter_chunks`, the task lists and the download run.

Some parts of the scripts are turned into parameters:

- The geolocation of a point, `get_array_indices_from_lonlat`, is the
  parameter `rowOf`.
- The archive search is the parameter `search`.
- The collection's product type is the parameter `productType`.
- Times are whole seconds.

The loops of the scripts are methods proved equal to specification
functions: the search with early return (`FirstIndexBiggerThan`) to
`FirstNotBelow`, and the nested loops of `get_coverage`, `filter_chunks`
and the task building to `Coverage`, `Filtered` and `Tasks`. The
straight-line construction of the chunk list (`ChunksForBBox`) is proved
equal to `BBoxChunks`. The lemmas state what those functions guarantee.

Two behaviours of the chunk locator are worth knowing:

- The search's "not found" result -1 is not rejected. A row below 0 (a
  point north of the grid) gives -1 (`ChunkLocator.ChunkForRow`). A box with
  such a corner then gets a range that starts at -1
  (`ChunkLocator.BBoxChunksSentinelStart`). That range yields the pattern
  `*_????_00-1.nc` and, when some corner has a non-negative row, also
  `*_????_0000.nc`.
- Any row is accepted, not only rows in [0, 11136). Rows of
  11136 − 278 = 10858 and above, including rows beyond the grid, all fall
  in chunk 1.

## Model

| member | source | states |
|---|---|---|
| ChunkLocator.EndPositionRows | scripts/get_fci_chunks_for_area.py:16-55 | 40 end rows, strictly ascending, from 278 up to the grid height 11136 |
| ChunkLocator.FirstNotBelow | scripts/get_fci_chunks_for_area.py:58-62 | the result is -1 exactly when every element is below the value. Otherwise it is the 1-based position of an element not below the value, and every earlier element is below it |
| ChunkLocator.FirstIndexBiggerThan | scripts/get_fci_chunks_for_area.py:58-62 | the loop with early return yields the first position whose element is at least the value, or -1 exactly when none is |
| ChunkLocator.FirstNotBelowMonotone | scripts/get_fci_chunks_for_area.py:58-62 | a larger searched value never gives an earlier position, and once the search fails it fails for every larger value |
| ChunkLocator.ThresholdFoundAtItself | scripts/get_fci_chunks_for_area.py:58-62 | in an ascending list, a value equal to an element is found at that element, because the comparison is `>=` and not `>` |
| ChunkLocator.TableSentinelExactlyBeyondLastRow | scripts/get_fci_chunks_for_area.py:16-62 | on the chunk table the search fails exactly for values above 11136 |
| ChunkLocator.TableSmallValuesInFirstChunk | scripts/get_fci_chunks_for_area.py:16-62 | every value up to 278, negative ones included, is found in chunk 1 |
| ChunkLocator.ChunkForRow | scripts/get_fci_chunks_for_area.py:65-69 | the chunk of a row is -1 exactly when the row is negative. Otherwise it lies in 1..40, and rows from 10858 on are chunk 1 |
| ChunkLocator.ChunkForRowAtBoundary | scripts/get_fci_chunks_for_area.py:65-69 | the row 11136 minus the k-th end row belongs to chunk k |
| ChunkLocator.ChunkForRowAntitone | scripts/get_fci_chunks_for_area.py:65-69 | for non-negative rows, a larger row never has a larger chunk number |
| ChunkLocator.ChunkForLonLat | scripts/get_fci_chunks_for_area.py:65-69 | the point's chunk is the search result on its inverted row: -1 exactly when its row is negative, otherwise in 1..40 |
| ChunkLocator.CornerRows | scripts/get_fci_chunks_for_area.py:79-82 | the four corners are looked up in the order west-south, west-north, east-south, east-north; `CornerChunks` maps each of these rows to its chunk in the same order |
| ChunkLocator.CornerChunks | scripts/get_fci_chunks_for_area.py:79-82 | the list holds four chunk numbers, one per corner in the corner order of CornerRows |
| ChunkLocator.CornerChunkOfRowSign | scripts/get_fci_chunks_for_area.py:79-82 | each corner's chunk is -1 exactly when that corner's row is negative, and otherwise lies in 1..40 |
| ChunkLocator.SeqMin | scripts/get_fci_chunks_for_area.py:83 | `min` returns an element of the list that is not above any element |
| ChunkLocator.SeqMax | scripts/get_fci_chunks_for_area.py:83 | `max` returns an element of the list that is not below any element |
| ChunkLocator.Range | scripts/get_fci_chunks_for_area.py:75 | `list(range(lo, hi))` has hi − lo elements (none when hi <= lo), and element i is lo + i |
| ChunkLocator.ChunkRange | scripts/get_fci_chunks_for_area.py:83 | the widened list is gap-free and non-empty, starts and ends at corner chunks, and contains every corner chunk |
| ChunkLocator.RangeSpansBounds | scripts/get_fci_chunks_for_area.py:83 | the range from the least to the greatest element starts at the least, ends at the greatest and contains every element |
| ChunkLocator.ChunkRangeWithin | scripts/get_fci_chunks_for_area.py:83 | bounds that hold for all corner chunks hold for every chunk of the range |
| ChunkLocator.ChunkRangeSentinelStart | scripts/get_fci_chunks_for_area.py:83 | a -1 among chunk numbers that are all at least -1 makes the range start at -1 |
| ChunkLocator.BBoxChunks | scripts/get_fci_chunks_for_area.py:72-85 | without a box the chunks are 1, 2, …, 40 |
| ChunkLocator.BBoxChunksRowsNonNegative | scripts/get_fci_chunks_for_area.py:72-85 | a box whose four corner rows are non-negative gives only chunks in 1..40 |
| ChunkLocator.BBoxChunksSentinelStart | scripts/get_fci_chunks_for_area.py:72-85 | a corner with a negative row is not rejected, and the chunk list then starts at -1 |
| ChunkLocator.BBoxChunksAscending | scripts/get_fci_chunks_for_area.py:72-85 | for any box or none, the chunk list is strictly ascending (so it has no repeats) and lies within -1..40 |
| ChunkLocator.ChunkRangeSameElements | scripts/get_fci_chunks_for_area.py:83 | the range depends only on which chunk numbers occur, not on their order or repetition |
| ChunkLocator.BBoxChunksCornerOrder | scripts/get_fci_chunks_for_area.py:79-83 | a box given with its corners the other way round (east/north as minimum, west/south as maximum) yields the same chunks |
| ChunkLocator.ChunksForBBox | scripts/get_fci_chunks_for_area.py:72-85 | the script's construction (four corner lookups, then min-to-max range, or 1..40 without a box) yields BBoxChunks |
| Glob.Match | scripts/download_fci_from_archive.py:34-44 | `fnmatch` matching for `*`, `?` and literal characters over the whole name; what it accepts is stated for patterns without `*` (MatchStarFree), patterns starting with `*` (MatchLeadingStar), and `*` followed by a star-free tail (MatchStarThenFixed), which covers every pattern the scripts build |
| Glob.FnMatch | scripts/download_fci_from_archive.py:34-44 | `fnmatch.fnmatch(name, pattern)` with the library's argument order: Match on the pattern and the name |
| Glob.MatchStarFree | scripts/download_fci_from_archive.py:44 | a pattern without `*` matches exactly the names of its length that agree with it wherever it has no `?` |
| Glob.MatchLeadingStar | scripts/download_fci_from_archive.py:44 | a leading `*` matches when the rest of the pattern matches some suffix of the name |
| Glob.MatchStarThenFixed | scripts/download_fci_from_archive.py:44 | `*` followed by a star-free tail matches exactly the names whose last characters match the tail position by position |
| ArchiveDownloader.Digit | scripts/download_fci_from_archive.py:41 | the digit character of d is `0`..`9` and its code is that of `0` plus d |
| ArchiveDownloader.NatToDecimal | scripts/download_fci_from_archive.py:41 | `str` of a natural number is non-empty, and one character long exactly below 10; its value is stated by NatToDecimalValue |
| ArchiveDownloader.NatToDecimalValue | scripts/download_fci_from_archive.py:41 | `str` of a natural number is all digits, its decimal value is the number, it has no leading zero unless it is the text `0`, and it is at most two characters exactly below 100 |
| ArchiveDownloader.IntToDecimal | scripts/download_fci_from_archive.py:41 | `str` of an integer is non-empty; its exact text is fixed by IntToDecimalValue |
| ArchiveDownloader.IntToDecimalValue | scripts/download_fci_from_archive.py:41 | `str` of an integer starts with `-` exactly for negative numbers, is digits after that sign with no leading zero unless that text is `0`, has the number as its signed decimal value, and is at most two characters exactly for -9..99 |
| ArchiveDownloader.ZFill2 | scripts/download_fci_from_archive.py:41 | `zfill(2)` gives a text of length max(2, original length); the contents are stated by ZFill2Pads |
| ArchiveDownloader.ZFill2Pads | scripts/download_fci_from_archive.py:41 | texts of two or more characters are left alone; shorter ones keep a leading sign in front, then `0` padding, then the rest of the text |
| ArchiveDownloader.ChunkNumberText | scripts/download_fci_from_archive.py:41 | `str(chunk).zfill(2)` is at least two characters of digits and `-`; its exact text is fixed by ChunkNumberTextValue and ChunkNumberTextTwoCharacters |
| ArchiveDownloader.ChunkNumberTextValue | scripts/download_fci_from_archive.py:41 | the chunk text has the chunk as its signed decimal value, starts with `-` exactly for negative chunks, and is two characters long exactly for -9..99; outside that range it is `str(chunk)` unchanged, with no leading zero |
| ArchiveDownloader.ChunkNumberTextTwoCharacters | scripts/download_fci_from_archive.py:41 | for chunks -9..99 the text is exactly a sign and a digit, or the tens and units digits |
| ArchiveDownloader.ChunkNumberTextInjective | scripts/download_fci_from_archive.py:41 | two chunks with the same text are the same chunk |
| ArchiveDownloader.ChunkPattern | scripts/download_fci_from_archive.py:41 | the f-string `*_????_00{text}.nc` of one chunk; what it accepts is stated by ChunkPatternMatch |
| ArchiveDownloader.ChunkPatterns | scripts/download_fci_from_archive.py:41 | one pattern per chunk of the list |
| ArchiveDownloader.ChunkPatternsAt | scripts/download_fci_from_archive.py:41 | the i-th pattern is the pattern of the i-th chunk |
| ArchiveDownloader.StarUnderscoreTail | scripts/download_fci_from_archive.py:41-44 | a pattern `*_????` followed by a wildcard-free tail matches exactly the names ending in an underscore, four characters and that tail |
| ArchiveDownloader.ChunkPatternMatch | scripts/download_fci_from_archive.py:41-44 | a chunk's pattern accepts a name exactly when the name ends with `_`, four characters, `_00`, the chunk text and `.nc` |
| ArchiveDownloader.ChunkSuffixesExclusive | scripts/download_fci_from_archive.py:41 | no name ends like a file of two different chunks in -9..99 |
| ArchiveDownloader.ChunkFileNameSelectsOwnChunk | scripts/download_fci_from_archive.py:41-45 | a chunk file name `<prefix>_<4 chars>_00NN.nc` is accepted by the pattern of chunk NN and by no other chunk's pattern |
| ArchiveDownloader.MatchingMembership | scripts/download_fci_from_archive.py:33-35 | the files kept for one pattern are exactly the listed files that the pattern accepts |
| ArchiveDownloader.CoverageMembership | scripts/download_fci_from_archive.py:30-36 | `get_coverage` keeps a file exactly when it is listed and some pattern accepts it |
| ArchiveDownloader.CoverageMultiplicity | scripts/download_fci_from_archive.py:30-36 | a file appears in the coverage (number of times listed) × (number of patterns accepting it) times |
| ArchiveDownloader.CoverageAppendPatterns | scripts/download_fci_from_archive.py:32-35 | the result is grouped by pattern: the coverage of two pattern lists in turn is the first coverage followed by the second |
| ArchiveDownloader.MatchingAppend | scripts/download_fci_from_archive.py:33-35 | for one pattern, the files kept from two lists in turn are those kept from the first, then those kept from the second |
| ArchiveDownloader.CoverageAppendFiles | scripts/download_fci_from_archive.py:30-36 | splitting the file list splits the coverage, up to order |
| ArchiveDownloader.GetCoverage | scripts/download_fci_from_archive.py:30-36 | the nested pattern-then-file loops build exactly Coverage |
| ArchiveDownloader.CopiesMembership | scripts/download_fci_from_archive.py:43-45 | the copies made of one entry are that entry, and there are some exactly when a pattern accepts it |
| ArchiveDownloader.FilteredMembership | scripts/download_fci_from_archive.py:39-46 | an entry is kept exactly when it is listed and some pattern accepts it |
| ArchiveDownloader.FilterChunks | scripts/download_fci_from_archive.py:39-46 | `filter_chunks` is the entry-by-entry selection over the chunk patterns of the list |
| ArchiveDownloader.KeepMatching | scripts/download_fci_from_archive.py:40-46 | the entry-then-pattern loops build exactly Filtered |
| ArchiveDownloader.ChunkPatternsAccept | scripts/download_fci_from_archive.py:41-44 | some chunk pattern accepts a name exactly when the name ends like a file of a listed chunk |
| ArchiveDownloader.FilterChunksMembership | scripts/download_fci_from_archive.py:39-46 | an entry is kept exactly when it ends like a file of one of the listed chunks |
| ArchiveDownloader.FilterChunksEmpty | scripts/download_fci_from_archive.py:39-46 | when no entry ends like a file of a listed chunk, nothing is kept |
| ArchiveDownloader.CopiesOnlyAt | scripts/download_fci_from_archive.py:43-45 | when at most the k-th pattern accepts an entry, the entry is copied once if that pattern accepts it, and not at all otherwise |
| ArchiveDownloader.ChunkPatternAt | scripts/download_fci_from_archive.py:41-44 | the i-th chunk pattern accepts a name exactly when the name ends like a file of the i-th chunk |
| ArchiveDownloader.ChunkPatternOnlyAt | scripts/download_fci_from_archive.py:41-44 | with distinct chunks in -9..99, only the pattern of the chunk a name ends with accepts it |
| ArchiveDownloader.ChunkCopies | scripts/download_fci_from_archive.py:43-45 | with distinct chunks in -9..99, an entry is copied once if it ends like a file of a listed chunk, and not at all otherwise |
| ArchiveDownloader.FilterChunksKeepsOrder | scripts/download_fci_from_archive.py:39-46 | with distinct chunks in -9..99, the filter equals the reference selection: the matching entries, each once, in input order |
| ArchiveDownloader.Level1SelectionKeepsOrder | scripts/download_fci_from_archive.py:102-109 | for any box, the Level-1 selection of a product's entries is the reference selection over the box's chunks, each entry once and in order |
| ArchiveDownloader.CopiesIsCoverageOfOne | scripts/download_fci_from_archive.py:30-46 | the copies of one entry are what `get_coverage` selects from that entry alone |
| ArchiveDownloader.CoverageOfNothing | scripts/download_fci_from_archive.py:30-36 | no files give an empty coverage |
| ArchiveDownloader.FilteredIsCoverageReordered | scripts/download_fci_from_archive.py:30-46 | `filter_chunks` and `get_coverage` select the same files the same number of times. They differ only in order: entry by entry against pattern by pattern |
| ArchiveDownloader.ProductTasks | scripts/download_fci_from_archive.py:107-109 | one task per selected file, in order, each holding the product, the file and the output folder |
| ArchiveDownloader.TasksAppend | scripts/download_fci_from_archive.py:106-115 | the tasks of consecutive product lists are concatenated, so all tasks of one product come before those of the next |
| ArchiveDownloader.SingleProductTasks | scripts/download_fci_from_archive.py:106-115 | one product's tasks are its selected files in selection order |
| ArchiveDownloader.TasksMembership | scripts/download_fci_from_archive.py:106-115 | a task is built exactly for a searched product, one of its selected files and the run's folder |
| ArchiveDownloader.Level2TasksAreAllEntries | scripts/download_fci_from_archive.py:111-115 | Level 2 builds a task for every entry of every product, and no other task |
| ArchiveDownloader.Level2TaskCount | scripts/download_fci_from_archive.py:111-115 | Level 2 builds as many tasks as there are entries in all products together |
| ArchiveDownloader.Level1TasksAreChunkEntries | scripts/download_fci_from_archive.py:102-109 | Level 1 builds a task exactly for the entries that end like a file of one of the chunks |
| ArchiveDownloader.Level1Tasks | scripts/download_fci_from_archive.py:106-109 | the Level-1 product and file loops build exactly Tasks over the chunk-filtered entries |
| ArchiveDownloader.Level2Tasks | scripts/download_fci_from_archive.py:112-115 | the Level-2 product and entry loops build exactly Tasks over all entries |
| ArchiveDownloader.Reverse | scripts/download_fci_from_archive.py:117-118 | the reversed task list has the same length, and element i is element n−1−i of the original |
| ArchiveDownloader.IsLevel2 | scripts/download_fci_from_archive.py:76 | the product type is Level 2 exactly when `L2` occurs in it |
| ArchiveDownloader.JoinPath | scripts/download_fci_from_archive.py:99 | the joined path ends with the second component. An absolute second component replaces the first; otherwise the first component comes first, with `/` between the two exactly when the first is non-empty and does not end in `/` |
| ArchiveDownloader.InputDataFolder | scripts/download_fci_from_archive.py:99 | the destination folder is the two-step join `<output>/<run>/fci_l1c_input_data`; stated by InputDataFolderInsideRunFolder |
| ArchiveDownloader.InputDataFolderInsideRunFolder | scripts/download_fci_from_archive.py:99 | the destination starts with the run folder `<output>/<run>`, then a separator unless that folder already ends in `/`, and ends with `fci_l1c_input_data`, with nothing else in between |
| ArchiveDownloader.MainDownloadFciFromArchive | scripts/download_fci_from_archive.py:76-118 | for Level 2 the window is (start+1, end−1), otherwise it is unchanged. The run stops exactly when the search of that window finds nothing. Otherwise it dispatches the reverse of the tasks for all entries (Level 2) or for the chunk-filtered entries of the box's chunks (Level 1), in `<output>/<run>/fci_l1c_input_data` |

## Left out

- Geolocation (`get_area_def` and `get_array_indices_from_lonlat` of satpy) is the parameter `rowOf`. The pixel grid is therefore not modelled, and the example box in the scripts' `__main__` blocks cannot be evaluated.
- The eumdac access token, data store and collection lookup are left out. Their only results used here, the product type and the search, are parameters.
- `datetime.strptime` parsing is left out. Times are whole seconds, so the one-second narrowing is exact integer arithmetic.
- `download_file` is left out: opening a product entry, copying it to disk, and catching product, connection and request errors are I/O.
- The `multiprocessing.Pool` of 4 workers is left out. The model stops at the ordered task list handed to `pool.map`. Download concurrency and completion order are not modelled.
- `os.makedirs` and all printing are left out.
- `scripts/animate_L1_fci.py` is not part of this model.
- Glob.Match: `fnmatch` bracket classes (`[...]`) are not modelled; `Match` reads `[` as an ordinary character. No chunk pattern contains one. The case normalisation of `fnmatch` on Windows is not modelled either.
- ArchiveDownloader.GetCoverage: its patterns come from the caller, and a caller's pattern holding `[...]` is matched by the model literally, where `fnmatch` would read a character class. The model agrees with `fnmatch` only for patterns without brackets.
- ArchiveDownloader.JoinPath: follows POSIX `os.path.join` only.
- ArchiveDownloader.FilterChunksKeepsOrder: order preservation and single copies are proved only for distinct chunk numbers from -9 to 99, whose texts are all two characters long. The locator only yields -1..40. Chunk numbers outside -9..99 are not covered.
- ArchiveDownloader.FilterChunks: the loops themselves sit in `KeepMatching`, which is stated for any name test, and `FilterChunks` passes it `fnmatch`. Likewise the two task loops of the main function sit in `Level1Tasks` and `Level2Tasks`.
