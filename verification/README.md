# line-server: offset index and random-access line lookup

The line server returns one line of a large text file, by zero-based line index.
It avoids re-reading the whole file for each request. At start-up it scans the file
once and records the byte position of every `'\n'` in a list (the *offset table*).
A lookup then takes the start position of the wanted line from the table, seeks
there and reads one line. A second implementation of the same service interface
streams the file's lines and skips `index` of them. That simpler one serves here as
the reference the indexed one is proved against.

The file is an immutable `seq<byte>`. The service decodes it as ISO-8859-1, so one
byte is one character and byte offsets are character offsets. A lookup result is
`Option<seq<byte>>`: `None` is Java's empty `Optional`, and `Some([])` is an
existing empty line.

Modules:

- `Bytes` (`bytes.dfy`): the byte type, LF and CR, and `LineLength`, the length of
  the terminator-free prefix. `CrOnlyInCrLf` says every CR stands in a CR LF pair.
  `Optional` holds the `Option` datatype.
- `LineSplitting` (`lines.dfy`): how Java's buffered readers split text into lines
  (LF, CR or CR LF; no empty line after a final terminator). It has one lemma per
  terminator kind, `Unlines`, and the two round-trip lemmas.
- `LinesService` (`lines_service.dfy`): the streaming lookup (`skip(index).findFirst()`).
- `LineIndex` (`line_index.dfy`): the offset table. It has a characterisation
  (`IsLineEndingTable`), a recursive functional definition (`LineEndings`), a
  uniqueness proof, and the start-up scan as a loop (`LoadFileLineEndings`).
- `RandomAccessService` (`random_access.dfy`): `RandomAccessFile.readLine` after a
  seek (`ReadLineFrom`), the start position, the guarded lookup, and its edge cases.
- `Agreement` (`agreement.dfy`): on files whose CRs all stand in CR LF pairs
  (CR-free files among them), the indexed lookup equals the streaming lookup at
  every integer index. A CR followed by a byte other than LF makes them differ, shown
  on a concrete file; a CR as the last byte does not. Also
  the line count and the scenarios of the service test.
- `ResultCache` (`result_cache.dfy`): the memoising layer, reduced to the property
  the service relies on. A cache holding only lookup results is transparent.

Behaviour of the indexed service that follows from its code:

- The start-up scan records only LF positions. `RandomAccessFile.readLine` stops at
  LF and also at CR. A CR LF pair is therefore harmless: the line ends at the CR,
  and the next recorded LF still starts the next line. A CR followed by a byte other
  than LF ends the line early. The rest of that LF-delimited segment is reachable by
  no index. The streaming service treats such a CR as a line break, so on `"a\rb\n"`
  index 1 is `"b"` there and absent in the indexed service
  (`Agreement.LoneCarriageReturnDisagrees`). A CR as the last byte of the file is
  harmless: both services end the last line there and have no line after it
  (`Agreement.FinalCarriageReturnAgrees`). The agreement lemmas require that every
  CR is followed by LF, which excludes that harmless final CR as well.
- The guard rejects `index > size`, not `index >= size`. So index `size` is admitted,
  and a final line without a terminator is served (`LastIndexTrailingFragment`).
- Index 0 needs no table entry. So with an empty table, as a failed scan leaves it,
  the first line of a non-empty file is still read (`GetLineAtIndex` with `ends = []`).

## Model

| member | source | states |
|---|---|---|
| Bytes.LineLength | src/main/java/com/bjohnson/lineserver/service/RandomAccessLinesServiceImpl.java:79 | `readLine` stops at the first LF or CR: no terminator before the returned length, a terminator (or the end) at it |
| LineSplitting.Lines | src/main/java/com/bjohnson/lineserver/service/LinesServiceImpl.java:42-46 | the lines the stream yields contain no terminator; a file has no lines exactly when it is empty; never more lines than bytes |
| LineSplitting.LinesSplitAtLf | src/main/java/com/bjohnson/lineserver/service/LinesServiceImpl.java:42-46 | a line followed by LF is one element of the stream, and the stream goes on with the lines of what follows the LF |
| LineSplitting.LinesSplitAtCrLf | src/main/java/com/bjohnson/lineserver/service/LinesServiceImpl.java:42-46 | CR LF ends a line as a single terminator: no empty line between CR and LF |
| LineSplitting.LinesSplitAtCr | src/main/java/com/bjohnson/lineserver/service/LinesServiceImpl.java:42-46 | a CR not followed by LF ends a line on its own |
| LineSplitting.LinesOfUnlines | src/main/java/com/bjohnson/lineserver/service/LinesServiceImpl.java:42-46 | splitting LF-joined terminator-free lines returns exactly those lines |
| LineSplitting.UnlinesOfLines | src/main/java/com/bjohnson/lineserver/service/LinesServiceImpl.java:42-46 | on a file without CR, re-joining its lines restores the file; a final LF is added only when the file lacked one |
| LinesService.Skip | src/main/java/com/bjohnson/lineserver/service/LinesServiceImpl.java:45 | `skip(n)` leaves the elements from position n on, or nothing when fewer than n exist |
| LinesService.FindFirst | src/main/java/com/bjohnson/lineserver/service/LinesServiceImpl.java:46 | `findFirst` is absent exactly on an empty stream and otherwise its first element |
| LinesService.GetLineAtIndex | src/main/java/com/bjohnson/lineserver/service/LinesServiceImpl.java:34-52 | present exactly when 0 <= index < number of lines, and then it is line `index`, free of terminators; any negative index is absent |
| LineIndex.LineEndingsUpToIsTable | src/main/java/com/bjohnson/lineserver/service/RandomAccessLinesServiceImpl.java:48-57 | the functional scan of the first n bytes yields exactly the LF positions below n, strictly increasing |
| LineIndex.TableIsLineEndings | src/main/java/com/bjohnson/lineserver/service/RandomAccessLinesServiceImpl.java:48-57 | any strictly increasing list holding exactly the file's LF positions is the functional scan's result: the table is unique |
| LineIndex.LoadFileLineEndings | src/main/java/com/bjohnson/lineserver/service/RandomAccessLinesServiceImpl.java:41-62 | the start-up loop records exactly the LF positions of the file, in increasing order, equal to the functional scan |
| RandomAccessService.ReadLineFrom | src/main/java/com/bjohnson/lineserver/service/RandomAccessLinesServiceImpl.java:76-82 | reading after a seek is absent exactly at or past the end of file; otherwise it is the file's bytes from the seek position up to the next LF or CR or the end, terminator excluded |
| RandomAccessService.GetLineAtIndex | src/main/java/com/bjohnson/lineserver/service/RandomAccessLinesServiceImpl.java:65-88 | any index below 0 or above the table size is absent; otherwise present exactly when the start position is inside the file; a present line contains no terminator |
| RandomAccessService.StartIsLineStart | src/main/java/com/bjohnson/lineserver/service/RandomAccessLinesServiceImpl.java:70-77 | with a correct table the start position is at most the file length, right after an LF (or at 0), after exactly `index` recorded LFs |
| RandomAccessService.PresentBelowTableSize | src/main/java/com/bjohnson/lineserver/service/RandomAccessLinesServiceImpl.java:70-82 | every index below the table size is present; without CR it is exactly the bytes between the preceding LF and the recorded LF |
| RandomAccessService.EmptyLineIsPresent | src/main/java/com/bjohnson/lineserver/service/RandomAccessLinesServiceImpl.java:79-82 | a line whose start holds an LF is present as the empty text, not absent |
| RandomAccessService.LastIndexAfterFinalNewline | src/main/java/com/bjohnson/lineserver/service/RandomAccessLinesServiceImpl.java:66-87 | when the file ends with LF, index = table size is absent |
| RandomAccessService.LastIndexTrailingFragment | src/main/java/com/bjohnson/lineserver/service/RandomAccessLinesServiceImpl.java:66-82 | when a non-empty file does not end with LF, index = table size is present and, without CR, is the whole trailing fragment |
| RandomAccessService.EmptyFileAbsent | src/main/java/com/bjohnson/lineserver/service/RandomAccessLinesServiceImpl.java:48-87 | an empty file has an empty table and every index is absent |
| Agreement.AgreesForTable | src/main/java/com/bjohnson/lineserver/service/RandomAccessLinesServiceImpl.java:65-88 | on a file whose CRs all stand in CR LF pairs, the indexed lookup with any correct table equals the streaming lookup at every integer index |
| Agreement.AgreesWithReference | src/main/java/com/bjohnson/lineserver/service/LinesServiceImpl.java:34-52 | on a file whose CRs all stand in CR LF pairs, the indexed lookup over the start-up table equals the streaming lookup at every integer index |
| Agreement.AbsentExactlyWhenNoLine | src/main/java/com/bjohnson/lineserver/service/LinesService.java:12-20 | the interface promise for the indexed service, on a file whose CRs all stand in CR LF pairs: absent exactly when the file has no line at that index |
| Agreement.LineCount | src/main/java/com/bjohnson/lineserver/service/RandomAccessLinesServiceImpl.java:48-57 | a file whose CRs all stand in CR LF pairs has one line per LF, plus one when it is non-empty and does not end with LF |
| Agreement.FourLineFile | src/test/java/com/bjohnson/lineserver/service/LinesServiceTest.java:42-75 | for any four LF-terminated lines: lines 0, 2, 3 come back verbatim; 4, -1, 2147483647 and -2147483648 are absent |
| Agreement.UnterminatedSingleLine | src/main/java/com/bjohnson/lineserver/service/RandomAccessLinesServiceImpl.java:66-82 | a single line without terminator has an empty table, is served at index 0, and index 1 is absent |
| Agreement.LoneCarriageReturnDisagrees | src/main/java/com/bjohnson/lineserver/service/RandomAccessLinesServiceImpl.java:66-82 | on `a CR b LF` the only recorded LF is the last byte, so index 1 seeks to the end of the file and is absent, while the streaming service returns `b` |
| Agreement.FinalCarriageReturnAgrees | src/main/java/com/bjohnson/lineserver/service/RandomAccessLinesServiceImpl.java:66-82 | on `a CR`, where the CR is the last byte, the indexed and the streaming service agree at every integer index, and both have a line only at index 0 |
| ResultCache.Get | src/main/java/com/bjohnson/lineserver/service/LinesService.java:19-20 | a cached get from a faithful cache returns what the lookup returns, hit or miss; the cache stays faithful, gains the key and keeps old entries |
| ResultCache.Evict | src/main/java/com/bjohnson/lineserver/configuration/CacheConfiguration.java:35 | dropping entries for the size bound removes exactly the victims and leaves the cache faithful |
| ResultCache.GetTwice | src/main/java/com/bjohnson/lineserver/service/LinesService.java:19-20 | a second get of the same index is a hit, changes nothing and returns the first result |
| ResultCache.CachedLookupAgrees | src/main/java/com/bjohnson/lineserver/service/LinesService.java:19-20 | on a file whose CRs all stand in CR LF pairs, the cached indexed service answers like the streaming service from any faithful cache |

## Left out

- File I/O is replaced by a `seq<byte>` argument: opening, seeking and reading the file, `Files.lines`, and the `IOException` branches. Failing to open the file gives an absent result in both services (`LinesServiceImpl.java:42`, `RandomAccessLinesServiceImpl.java:83-85`), and so does a failed seek or read in the indexed one. A read error while the stream is skipped or searched is different: `Files.lines` raises it as `UncheckedIOException`, which the `catch (IOException e)` at `LinesServiceImpl.java:48` does not catch, so it escapes the streaming service. A failure during the scan would leave a partial table. None of these is modelled.
- The Guava LRU cache (`CacheConfiguration.java`, `@Cacheable`) is a library whose code is not part of this model. Its recency order and its size bound are not modelled. Eviction is any set of victims (`ResultCache.Evict`), and only transparency is proved.
- `ResultCache.Evict`: does not state which entry goes, because the least-recently-used choice belongs to the caching library.
- The HTTP controller (`LinesController.java`: present gives the line, absent gives status 413), application start-up, and logging are not part of this model.
- The Spring lifecycle (`@PostConstruct`, injection) is not modelled. The table is built by an explicit call before any lookup.
- Java `int` and `long` widths are not modelled: indexes and positions are unbounded integers. The 32-bit extreme indexes of the tests are absent anyway, by the guard.
- Agreement.AgreesWithReference: holds for files whose every CR is followed by LF. A CR followed by a byte other than LF makes the two services disagree (`Agreement.LoneCarriageReturnDisagrees`). A CR as the last byte of the file does not (`Agreement.FinalCarriageReturnAgrees`), but the general lemma excludes it too.
- Concurrency: lookups are pure functions of the file and the table, so concurrent lookups need no separate model.
