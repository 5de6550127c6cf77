# micro:bit storage: a verified model

Two storage stacks of the micro:bit runtime, modelled in Dafny and proved correct over all their runs.

**The typed ring buffer and FastLog** (`RingLayout`, `Regions`, `SmallRings`, `Promotion`, `SegmentedBytes`,
`CircularBuffer`, `FastLog`, `FastRuns`). Values of one, two or four bytes share one growing byte ring, with a descriptor
(`start`/`last`/`next`/`bytes`) for each type. `RingLayout` is the reference: slots in the order in which they were
written, and an append that clears the arc it needs. It shows that an append drops exactly a prefix of the oldest
values. `Regions` shows that the descriptors of the code realise that append, although each type wraps on its own and
leaves gaps. The class `MicroBitCircularBuffer` carries both through every push, pop, `get` and `count`: what it holds
is always a suffix of what was pushed (the ghost field `pushed`), and all of it exactly as long as it fits within the
limit that was asked for. `FastLog` builds rows on that property, `FastRuns` follows a whole table of values through a
log and out again, and `SaveRuns` follows the rows into the text log.

**The NOR-flash stack** (`NorFlash`, `Blocks`, `UsbFlash`, `RecentlyUsed`, `FsCache`, `LogText`, `LogRows`, `LogImage`,
`LogFile`, `MicroBitLog`, `LogRuns`). Flash is a sequence of bytes in which a write stores `old & new` and an erase sets
whole pages to 0xFF. Partial erase, the write-through cache and the log are classes over it. `LogImage` says what the
log keeps on flash, and that this determines what a restart finds.

**The on-chip variant** (`OnChipFlash`, `FileTable`, `FileSystem`, `FileRuns`). Byte-granular writes through a device of
words and pages, and files as chains of blocks in a table.

Classes, their fields and loops follow the source; a method's `ensures` ties the new state to a function of the old
one. `dafny verify dfyconfig.toml` checks everything.

## What the proofs turned up

Each of these is a property of the code as it stands.

- The ring is sound from a capacity of 7 bytes on, and from no smaller one (`RingLayout.CapacityThreshold`): below, a
  write that wraps clears too little and lands on a value that is still held. The descriptors do the same
  (`SmallRings.SmallRingClearsNothing`).
- Promotion picks the least sufficient type except for two boundary values: 32767 entering at INT16, and 2147483647
  entering at INT32, which is then stored as a float (`Promotion.PromotionIsLeast`). In a fast log this is the only
  integer that turns a ring of integers into one of floats (`FastLog.TurnsToFloat`).
- A restart recovers the end of the log exactly when the last block of text holds no byte 0xFF
  (`LogImage.EndIsFound`).
- `getRow(i)` returns row `i - n` for `n <= i < 2n`, where n is the number of rows, and the empty string for `i = -n`
  (`LogRows.RowFor`).
- A string refused as too long loads the last block of the flash into the cache, whether or not "FUL" can be stored in
  it: after a full erase it can, while a clear without one has left zeros there, and the write is refused
  (`LogRuns.RefuseAfterClear`). As long as the cache has counted fewer than 65536 accesses, erasing the last page for
  text later makes that block stale in the cache if and only if fewer than four other blocks have been accessed in
  between (`Log.StaleAfter`, which the contract of `Log.MicroBitLog.LogString` states). For text logged right after a
  refusal in an empty log that is so with two pages of data, and not with more (`LogRuns.RefuseAndGoOn`);
  `LogRuns.GoStale` is a run after which the cache differs from the flash. The text takes no harm: with pages of at
  least four blocks, text that reaches the last block has dropped it from the cache before (`Log.EnoughBlocks`).
- A new directory entry has flags 0xFFFF until it is flushed. These include the bit for a free entry
  (`FileTable.NewEntryIsFirstFree`). The search for an entry therefore returns one of no file if and only if the files
  up to it have been flushed (`FileTable.FirstFreeIsNoFile`), and of two files created without a flush in between the
  first is lost (`FileRuns.CreateTwice`).
- On a device erased page by page, `erase` erases exactly the range it is given, unless the range is empty and starts at
  0: then the end address wraps below zero, and every page is erased until the device refuses one
  (`UsbFlash.ErasesExactly`).
- Saving a fast log of rows that only hold a time divides by its number of columns, zero
  (`FastLog.MicroBitFastLog.SaveLog`, `FastLog.LogEmptyRow`).
- A write that needs an erase stores only what lies in its page: all the data are stored if and only if they can be
  written in place, end in the page, or go on with what is there already (`OnChipFlash.StoredWhole`,
  `OnChipFlash.NotStoredWhole`).
- The comment at source/MicroBitFlash.cpp:101-102 gives the test for an erase as `O & ~N`; the code tests `~O & N`, as
  the header comment says, and the model follows the code. inc/MicroBitLog.h:39-40 counts 40 bytes of metadata; there
  are 45.

## Model

| member | source | states |
|---|---|---|
| RingLayout.Evicted | source/MicroBitCircularBuffer.cpp:370-470 | the values in the way of an append are exactly the first k held, for some k |
| RingLayout.SurvivorsAreSuffix | source/MicroBitCircularBuffer.cpp:417-470 | clearing the arc of an append, in one piece or round the end of the ring, leaves exactly the newest values |
| RingLayout.AppendKeepsLaid | source/MicroBitCircularBuffer.cpp:370-415 | an append keeps the ring well laid out: in bounds, in order, without overlap or gaps other than at the end of the ring |
| RingLayout.EvictionMeansFull | source/MicroBitCircularBuffer.cpp:370-415 | an append that evicts anything leaves at least capacity - 6 bytes in use |
| RingLayout.LayoutIsSuffix | source/MicroBitCircularBuffer.cpp:370-470 | after any sequence of pushes of rising types the ring is well laid out and holds a suffix of them |
| RingLayout.LayoutStaysFull | source/MicroBitCircularBuffer.cpp:370-470 | in any run, once a value has been lost the ring stays full but for at most six bytes |
| RingLayout.CapacityThreshold | source/MicroBitCircularBuffer.cpp:370-470 | appends keep every ring well laid out if and only if the capacity is at least 7 |
| Regions.OwnRegionAdvances | source/MicroBitCircularBuffer.cpp:388-401 | making room in the region that is written amounts to clearing the arc of the append and adding the new slot, wrapped or not |
| Regions.PreparedIsPlaced | source/MicroBitCircularBuffer.cpp:372-401 | the positions taken from the descriptors are those of the reference append: the head of the whole ring, or its start |
| Regions.AppendByRegions | source/MicroBitCircularBuffer.cpp:370-415 | clearing the older regions and advancing the newest one is one append on all the slots in type order |
| Regions.AppendSettles | source/MicroBitCircularBuffer.cpp:408-415 | after the write, also when the ring has grown meanwhile, the descriptors are consistent again |
| Regions.LinearEvictsNone | source/MicroBitCircularBuffer.cpp:323-347 | while nothing has wrapped and there is room for four bytes, an append evicts nothing |
| Regions.AppendFromStart | source/MicroBitCircularBuffer.cpp:370-415 | a ring whose values start at its start loses something to an append if and only if the new value does not fit behind the newest one; if not, they still do |
| Regions.KeptWhole | source/MicroBitCircularBuffer.cpp:370-415 | everything pushed is held after an append if and only if it was before and the ring could grow or had the room |
| Regions.OldestLeaves | source/MicroBitCircularBuffer.cpp:194-224 | shortening the oldest region removes exactly the oldest slot and keeps the ring consistent |
| Regions.AlignedStart | source/MicroBitCircularBuffer.cpp:206-218 | the start that a pop computes never lies within the last value: the branch for that is never taken |
| SmallRings.SmallRingClearsNothing | source/MicroBitCircularBuffer.cpp:370-470 | in a ring of four to six bytes the descriptors send a wide value to the start, where the oldest byte is still held, and clear none |
| Promotion.LeastFrom | source/MicroBitCircularBuffer.cpp:71-180 | the chain of pushes ends at the first type from the current one upwards that keeps the value, and rises until then |
| Promotion.PromotionIsLeast | source/MicroBitCircularBuffer.cpp:119-180 | that type is the least one that can represent the value, if and only if the value is not one of two boundary cases |
| Promotion.DecodeInvertsEncode | source/MicroBitCircularBuffer.cpp:290-321 | a stored integer decodes to itself, or to its float when stored as one |
| Promotion.WidthIsExact | source/MicroBitCircularBuffer.cpp:71-192 | the integers of a type are exactly those that its number of bytes can tell apart |
| SegmentedBytes.SegmentedBytes.InsertElement | source/MicroBitCircularBuffer.cpp:323-362 | segments of 2000 bytes refine one flat array; growth comes first, only when the end is near, keeps what is there, and stops for good when it fails |
| SegmentedBytes.SegmentedBytes.Grow | source/MicroBitCircularBuffer.cpp:323-347 | if the heap grants a segment, the ring grows by 2000 bytes or by what is left up to the limit, and the limit stays until there are 50 segments; if not, the limit becomes the present size |
| SegmentedBytes.SegmentedBytes.StopsAtLimit | source/MicroBitCircularBuffer.cpp:323-347 | a ring that does not grow any more has got to the size asked for, or to 50 segments, unless the heap has refused one |
| SegmentedBytes.SegmentedBytes.WriteBytes | source/MicroBitCircularBuffer.cpp:350-361 | a value that straddles two segments is stored as on the flat array |
| SegmentedBytes.SegmentedBytes.Read | source/MicroBitCircularBuffer.cpp:293-298 | bytes read one by one from their segments are those of the flat array |
| SegmentedBytes.SegmentedBytes.Init | source/MicroBitCircularBuffer.cpp:45-61 | the first segment is as large as the limit allows |
| CircularBuffer.ValuesAfterAppend | source/MicroBitCircularBuffer.cpp:370-415 | after an append the ring reads back as the surviving values followed by the new one |
| CircularBuffer.MicroBitCircularBuffer.constructor | source/MicroBitCircularBuffer.cpp:16-26 | an empty ring of the size asked for, with room for all of it if the heap lasts |
| CircularBuffer.MicroBitCircularBuffer.RoomLeft | source/MicroBitCircularBuffer.cpp:323-347 | while nothing has been lost, a value finds room, grown or not, if and only if it does within the limit |
| CircularBuffer.MicroBitCircularBuffer.ClearRegion | source/MicroBitCircularBuffer.cpp:417-470 | a region loses exactly the values that start in the arc, in any of its wrapped forms, and is freed when none is left |
| CircularBuffer.MicroBitCircularBuffer.Prepare | source/MicroBitCircularBuffer.cpp:371-401 | a new region is placed behind the newest older one; an old one makes room in itself |
| CircularBuffer.MicroBitCircularBuffer.LogData | source/MicroBitCircularBuffer.cpp:370-415 | the contents become the old ones without the evicted prefix, with the new value at the end; nothing is lost while the ring can grow |
| CircularBuffer.MicroBitCircularBuffer.StoreAs | source/MicroBitCircularBuffer.cpp:71-192 | what is held stays a suffix of everything pushed; all of it is held if and only if it was before and there was room, and the room left is exact |
| CircularBuffer.MicroBitCircularBuffer.PushUInt8 | source/MicroBitCircularBuffer.cpp:71-82 | the value is stored under the type that the chain of promotions ends at |
| CircularBuffer.MicroBitCircularBuffer.PushUInt16 | source/MicroBitCircularBuffer.cpp:119-134 | the value is stored under the type that the chain of promotions ends at |
| CircularBuffer.MicroBitCircularBuffer.PushInt16 | source/MicroBitCircularBuffer.cpp:136-151 | the value is stored under the type that the chain of promotions ends at |
| CircularBuffer.MicroBitCircularBuffer.PushUInt32 | source/MicroBitCircularBuffer.cpp:153-167 | the value is stored under the type that the chain of promotions ends at |
| CircularBuffer.MicroBitCircularBuffer.PushInt32 | source/MicroBitCircularBuffer.cpp:169-180 | the value is stored under the type that the chain of promotions ends at |
| CircularBuffer.MicroBitCircularBuffer.PushFloat | source/MicroBitCircularBuffer.cpp:182-192 | the float is stored and its type is final |
| CircularBuffer.MicroBitCircularBuffer.PushUInt | source/MicroBitCircularBuffer.cpp:84-94 | an unsigned integer is stored under the least type from the current one on that keeps it |
| CircularBuffer.MicroBitCircularBuffer.PushInt | source/MicroBitCircularBuffer.cpp:96-117 | a signed integer is stored under the least type from the current one on that keeps it |
| CircularBuffer.MicroBitCircularBuffer.Pop | source/MicroBitCircularBuffer.cpp:194-224 | the oldest value is removed and returned |
| CircularBuffer.MicroBitCircularBuffer.Get | source/MicroBitCircularBuffer.cpp:226-258 | the value at an index of the queue, or none for an index outside it |
| CircularBuffer.MicroBitCircularBuffer.Count | source/MicroBitCircularBuffer.cpp:260-285 | the length of the queue |
| FastLog.WholeRowsRemain | source/MicroBitFastLog.cpp:389-432 | dropping `count % width` oldest cells of a suffix of the cells leaves a suffix of the rows |
| FastLog.TurnsToFloat | source/MicroBitFastLog.cpp:163-178 | logging an integer makes the ring one of floats if and only if it is one, or holds INT32 and the integer is 2147483647 or more |
| FastLog.IntegersReadBack | source/MicroBitFastLog.cpp:163-178 | as long as no float and no integer from 2147483647 on has been logged, every integer reads back as itself |
| FastLog.EachReadsBack | source/MicroBitFastLog.cpp:163-178 | every cell of a row reads back as its integer, or as the float of it exactly once the ring holds floats; a float as its bits, an unset cell as zero |
| FastLog.MicroBitFastLog.WithBuffer | source/MicroBitFastLog.cpp:41-54 | a log over a ring of the size asked for, with the columns asked for or the default number |
| FastLog.MicroBitFastLog.NothingLost | source/MicroBitFastLog.cpp:389-395 | as long as nothing has been lost, the ring holds all the rows logged |
| FastLog.MicroBitFastLog.Init | source/MicroBitFastLog.cpp:55-81 | columns and ring are set up once; rows and settings are kept |
| FastLog.MicroBitFastLog.BeginRow | source/MicroBitFastLog.cpp:109-122 | an open row is logged first; then every column is unset |
| FastLog.MicroBitFastLog.StoreValue | source/MicroBitFastLog.cpp:224-279 | the value goes to the column of its key, to the first unnamed one, or to a new one unless the columns are fixed |
| FastLog.MicroBitFastLog.EndRow | source/MicroBitFastLog.cpp:124-181 | one row of the fixed width is logged: a time if kept, then each column in order, zero where unset, each with the type that promotion from the type of the ring requires; the first row fixes the width |
| FastLog.MicroBitFastLog.SetTimeStamp | source/MicroBitFastLog.cpp:84-107 | whether a row holds a time cannot change after the first row; the format can, unless no time is kept |
| FastLog.MicroBitFastLog.SaveLog | source/MicroBitFastLog.cpp:381-432 | the rows saved are exactly the newest rows logged, whole, in order and under their headings, as many as the ring holds whole; the count can be divided if and only if there are columns or nothing is held |
| FastLog.LogEmptyRow | source/MicroBitFastLog.cpp:396 | a run in which a save divides by zero: a row ended before any column exists |
| FastRuns.PushAll | source/MicroBitCircularBuffer.cpp:16-192 | values pushed into a new ring of any size read back as the promotion of each requires; all of them are held if and only if they fit within that size, or within 50 segments of 2000 bytes |
| FastRuns.SaveTable | source/MicroBitFastLog.cpp:41-432 | a table of integers logged value by value under its keys, and small enough for the buffer, is saved row by row with every value under its key, in order |
| FastRuns.SaveStamped | source/MicroBitFastLog.cpp:15-432 | the first row of a log by default is saved with the time since its start and with its values under their keys |
| SaveRuns.HeadingsSettle | source/MicroBitLog.cpp:511-530 | a second row with the same keys brings no new headings |
| SaveRuns.SaveRow | source/MicroBitFastLog.cpp:405-431 | a row begun, filled and ended adds its new headings and its line to the text |
| SaveRuns.SaveRows | source/MicroBitFastLog.cpp:405-431 | rows with the same keys add the headings once, if they are new, and line after line |
| SaveRuns.TableOfRows | source/MicroBitFastLog.cpp:405-431 | into a log without columns, that is the line of the keys and a line of the values of each row |
| SaveRuns.PrintedFields | source/MicroBitFastLog.cpp:405-431 | in the lines of a saved row, field by field, the printed headings stand over the printed values, the time first |
| SaveRuns.SaveToLog | source/MicroBitFastLog.cpp:381-432 | a save adds to the text exactly the lines, under their headings, of the newest rows that the ring holds whole |
| NorFlash.BurnStores | source/FSCache.cpp:138-141 | a write stores its data if and only if no bit has to go from 0 to 1 |
| NorFlash.BurnOverSelf | source/FSCache.cpp:155-170 | burning a range with what it is to become, neighbours included, makes it so |
| UsbFlash.MicroBitUSBFlashManager.constructor | source/MicroBitUSBFlashManager.cpp:189-250 | all blocks that are reported are used, or as many as at most 0x1F000 bytes hold |
| UsbFlash.Capped | source/MicroBitUSBFlashManager.cpp:189-250 | so many blocks fit, and one more would not, unless there is none |
| UsbFlash.MicroBitUSBFlashManager.Write | source/MicroBitUSBFlashManager.cpp:345-380 | a write in chunks equals one write |
| UsbFlash.MicroBitUSBFlashManager.EraseRange | source/MicroBitUSBFlashManager.cpp:409-484 | the device and the result for every word-aligned address and every length, with an end address computed in 32 bits: exactly the range becomes 0xFF, wherever it starts and ends within its pages, but for an empty range at 0 |
| UsbFlash.ErasesExactly | source/MicroBitUSBFlashManager.cpp:428-461 | erasing page by page erases exactly the range on every content if and only if the range is not empty or does not start at 0 |
| UsbFlash.MicroBitUSBFlashManager.ErasePages | source/MicroBitUSBFlashManager.cpp:447-470 | page by page or at once, the same pages are erased |
| UsbFlash.EraseBounds | source/MicroBitUSBFlashManager.cpp:416-436 | the pages touched enclose the range, and what is to be restored is whole words |
| UsbFlash.RestoreAfterErase | source/MicroBitUSBFlashManager.cpp:438-482 | erasing whole pages and writing back the edges is a partial erase |
| RecentlyUsed.LastUseTells | source/FSCache.cpp:229-240 | two blocks with the same last use are one |
| FsCache.HitKeepsOrder | source/FSCache.cpp:254-266 | after a hit the entries are still the most recently used blocks, and their counts in the order of use |
| FsCache.MissKeepsOrder | source/FSCache.cpp:221-247 | loading over the smallest count, or into an empty entry, keeps exactly the most recently used blocks |
| FsCache.HeldIfRecent | source/FSCache.cpp:211-248 | a block is held if and only if it has been used, and fewer other blocks since than there are entries |
| FsCache.ChunkStored | source/FSCache.cpp:150-173 | storing a chunk in a page and burning the whole words around it keeps page and flash alike and changes no other byte |
| FsCache.FSCache.GetCacheEntry | source/FSCache.cpp:254-266 | the entry of a block that is held, which becomes the most recently used; none otherwise |
| FsCache.FSCache.CachePage | source/FSCache.cpp:211-248 | the block is held afterwards, as a copy of the flash, and no block is held twice; a stale block may be loaded again once it is no longer held |
| FsCache.FSCache.Read | source/FSCache.cpp:82-109 | the bytes of the flash, or an error outside it; the accesses made are the blocks of the range in order |
| FsCache.FSCache.Write | source/FSCache.cpp:114-176 | all or nothing: exactly the given bytes change, or none if some bit would go from 0 to 1; blocks are loaded even if the write is refused, and stale ones among them must have been dropped by then and are stale no more |
| FsCache.FSCache.Erase | source/FSCache.cpp:64-76 | the cache then copies the flash as it will be once the block is erased there |
| FsCache.FSCache.Clear | source/FSCache.cpp:45-59 | nothing is held, whatever the flash holds by now |
| FsCache.FSCache.ChangedElsewhere | source/MicroBitLog.cpp:763-776 | flash may change where nothing has been accessed without a cached block going stale |
| FsCache.ErasedBehind | source/MicroBitLog.cpp:757-782 | a page erased behind the back of the cache makes stale exactly the loaded blocks of that page that are not blank |
| LogText.WriteNum | source/MicroBitLog.cpp:43-54 | eight hexadecimal digits, most significant first |
| LogText.HexRoundTrip | source/MicroBitLog.cpp:43-54 | a printed number is parsed back, bare or behind "0x" |
| LogText.DigitsOfAscii | source/MicroBitLog.cpp:43-54 | the digits are those of ASCII, capitals when printed and of either case when read |
| LogText.NumberIsRead | source/MicroBitLog.cpp:974-975 | a number is read behind white space, a sign and "0x", up to the first character that is no digit; one beyond 32 bits as the largest, one behind a minus as its negative in 32 bits |
| LogText.CleanBuffer | source/MicroBitLog.cpp:682-705 | the cleaned string, or nothing if the string is clean already |
| LogText.CleanedIsClean | source/MicroBitLog.cpp:682-705 | no end of a comment, no tab and no separator is left |
| LogText.CleanedExactly | source/MicroBitLog.cpp:682-705 | a character is replaced if and only if it ends a comment, is a tab or, where asked, is a comma or a newline |
| LogText.CleaningIsIdempotent | source/MicroBitLog.cpp:682-705 | cleaning twice is cleaning once |
| LogRows.LineReadsBack | source/MicroBitLog.cpp:155-175 | clean cells are read back from their line, in order |
| LogRows.LineIsClean | source/MicroBitLog.cpp:650-664 | a line of clean cells is stored as it is and has one newline, at its end |
| LogRows.WriteLine | source/MicroBitLog.cpp:632-638 | the cells separated by commas and ended by a newline |
| LogRows.ParseHeadings | source/MicroBitLog.cpp:155-176 | the pieces of a line between its separators |
| LogRows.RowPlace | source/MicroBitLog.cpp:1204-1247 | where each row and its newline lie in the text |
| LogRows.RowForNearer | source/MicroBitLog.cpp:1183-1190 | the index that is scanned for, from either end, names the row that is returned |
| LogRows.RowForInRange | source/MicroBitLog.cpp:1183-1190 | an index within the rows names that row, and a negative one the row counted from the end |
| LogImage.JournalHasRoom | source/MicroBitLog.cpp:789-806 | with at most 0x1F000 bytes there always is a next journal entry: the journal never wraps |
| LogImage.JournalPageBlank | source/MicroBitLog.cpp:795-811 | the journal page that is entered is blank already, so erasing it loses nothing |
| LogImage.JournalMoves | source/MicroBitLog.cpp:786-822 | the next entry and the clearing of the last one need no erase, and leave a journal that gives the new block |
| LogImage.JournalStays | source/MicroBitLog.cpp:786 | within a block the journal stays true |
| LogImage.HeadingsMove | source/MicroBitLog.cpp:639-642 | headings are replaced without an erase: zeros over the old ones, the new line behind them |
| LogImage.FormattedIsImage | source/MicroBitLog.cpp:281-306 | header, metadata and first journal entry written to erased pages are the image of an empty log |
| LogImage.MetadataAccepted | source/MicroBitLog.cpp:966-986 | the metadata that a clear writes are accepted by a start, with the same addresses |
| LogImage.Slots | source/MicroBitLog.cpp:95-118 | what each journal slot reads as: spent, live with the block of the end of the data, or unused |
| LogImage.EndIsFound | source/MicroBitLog.cpp:120-130 | the scan finds the end of the data if and only if no byte 0xFF precedes it in its block, and moves less than 256 bytes |
| LogFile.WindowOfParts | source/MicroBitLog.cpp:1122-1147 | a window on two parts is one on the first, continued on the second |
| LogFile.ReadsOn | source/MicroBitLog.cpp:1122-1147 | what is taken from the next part extends the window read so far |
| LogFile.TextInPlace | source/MicroBitLog.cpp:1075-1107 | the page starts with the header and the version; the data start that its metadata name is where the text is, their end of the log is as far behind as on flash, and one unused byte follows the text |
| Log.WithEntrySets | source/MicroBitLog.cpp:511-527 | setting a cell keeps the columns in place and the other cells |
| Log.RowTells | source/MicroBitLog.cpp:645-664 | the line of a row has as fields the values of the columns, in order; there is none if and only if no cell is set |
| Log.HeadingsTell | source/MicroBitLog.cpp:632-638 | the line of headings has as fields the keys of the columns, in order |
| Log.PageWritten | source/MicroBitLog.cpp:757-782 | filling a page, with the next one erased when it gets full, leaves the rest of the page erased |
| Log.MicroBitLog.constructor | source/MicroBitLog.cpp:59-76 | a new object has nothing cached and nothing loaded |
| Log.MicroBitLog.Clear | source/MicroBitLog.cpp:252-317 | an empty valid log; everything behind its first page is erased, or left alone, as asked |
| Log.MicroBitLog.IsPresent | source/MicroBitLog.cpp:954-987 | whether the metadata have the signature and name a log that fits, numbers being read with white space, sign and prefix, and its addresses |
| Log.MicroBitLog.LoadJournal | source/MicroBitLog.cpp:88-118 | the live entry is found and parsed |
| Log.MicroBitLog.FindEnd | source/MicroBitLog.cpp:120-130 | the first unused byte from the journaled block on |
| Log.MicroBitLog.LoadHeadings | source/MicroBitLog.cpp:132-178 | cleared headings are skipped and the live ones rebuilt in order |
| Log.MicroBitLog.Init | source/MicroBitLog.cpp:81-199 | a log on flash is loaded: same journal entry and headings, same end exactly if its last block holds no 0xFF; otherwise a log is created |
| Log.MicroBitLog.AppendToPage | source/MicroBitLog.cpp:757-782 | the bytes are stored behind the data, no write is refused, and the rest of the page is erased again; the last block becomes stale exactly if it is held when its page is erased, and is not any more once the text reaches it |
| Log.MicroBitLog.EraseAhead | source/MicroBitLog.cpp:757-768 | the next page is erased; the cache stays a copy of the flash, except for the last block exactly if that is held |
| Log.EnoughBlocks | source/MicroBitLog.cpp:757-776 | text that goes on through four blocks up to the last one leaves at least as many accessed since that one as the cache has entries |
| Log.PageStep | source/MicroBitLog.cpp:757-782 | from round to round: the blocks accessed since the last one was, and, once the last page is entered, whether it is stale |
| Log.MicroBitLog.AppendText | source/MicroBitLog.cpp:757-782 | a text that fits is appended whole, over any number of pages, also one that enters the last page while the cache holds its last block; whether that block is stale afterwards |
| Log.MicroBitLog.UpdateJournal | source/MicroBitLog.cpp:785-823 | the journal gives the block of the new end; the text is not touched |
| Log.MicroBitLog.MarkFull | source/MicroBitLog.cpp:743-751 | the flash is marked if the bits allow it, the last block is held in any case as the one accessed last, and the log goes on |
| Log.MicroBitLog.CopyOfFlash | source/MicroBitLog.cpp:743-782 | the cache is a copy of the flash if and only if it does not hold the last block as a stale one |
| Log.MicroBitLog.StoreLine | source/MicroBitLog.cpp:757-823 | text that fits is appended and journaled |
| Log.MicroBitLog.LogString | source/MicroBitLog.cpp:726-837 | the cleaned string is appended and the log stays recoverable; one that does not fit is refused and changes no text, and the strings that follow are stored as before; when the last block becomes stale, and which blocks are accessed |
| Log.MicroBitLog.AddHeading | source/MicroBitLog.cpp:867-896 | a new column in front or at the end, unless the key exists |
| Log.MicroBitLog.BeginRow | source/MicroBitLog.cpp:440-456 | an open row is logged first, as far as it fits; the new one has the same columns, all empty |
| Log.MicroBitLog.LogData | source/MicroBitLog.cpp:495-530 | the cleaned value is set in the column of the cleaned key, in a row that is opened if necessary |
| Log.MicroBitLog.SaveHeadings | source/MicroBitLog.cpp:622-642 | the headings on flash become the present ones; journal and text are untouched |
| Log.MicroBitLog.EndRow | source/MicroBitLog.cpp:551-673 | new headings, then the row if it has a value, are appended as lines, each if it fits, whose fields are the keys and the values of the columns in order; the log is full if one did not, and goes on in any case |
| Log.MicroBitLog.GetRow | source/MicroBitLog.cpp:1183-1248 | the i-th line for every index in range, and exactly what is returned for any other |
| Log.MicroBitLog.GetDataLength | source/MicroBitLog.cpp:1007-1029 | the length of the file that the host sees |
| Log.MicroBitLog.HostRead | source/MicroBitLog.cpp:1052-1109 | a window of that file, with as much text as there was when its length was asked for |
| Log.MicroBitLog.LengthShows | source/MicroBitLog.cpp:1062-1075 | the length asked for just before shows all of the text; a shorter one does less, as long as it has room for what surrounds it |
| Log.MicroBitLog.ReadSource | source/MicroBitLog.cpp:1122-1147 | a window read part by part is a window of the parts joined |
| LogRuns.LogAll | source/MicroBitLog.cpp:726-837 | any rows that fit are the text, in order |
| LogRuns.Restart | source/MicroBitLog.cpp:81-199 | a new object on the same flash finds the same text end, journal head and headings, and a log that can go on |
| LogRuns.LogAndRestart | source/MicroBitLog.cpp:252-317 | rows logged since a clear are the text that the next start finds |
| LogRuns.ReadFile | source/MicroBitLog.cpp:1007-1109 | asking for the length and reading that much gives the whole file, in each format |
| LogRuns.ReadPage | source/MicroBitLog.cpp:1007-1109 | in the page that is read, the whole text is where the metadata in it say |
| LogRuns.RefuseAfterClear | source/MicroBitLog.cpp:743-751 | a string too long for an empty log of several pages: the log stays in order, the mark is stored only after a full erase, and the last block is the one accessed last |
| LogRuns.RefuseAndGoOn | source/MicroBitLog.cpp:743-782 | text logged after that, into the last page, is stored as it is; the last block becomes stale if and only if there are two pages of data |
| LogRuns.EnterStale | source/MicroBitLog.cpp:743-823 | a short text that enters the last page right after a refusal is stored, and leaves the cache different from the flash |
| LogRuns.GoStale | source/MicroBitLog.cpp:743-823 | a run from a clear on that ends like that |
| OnChipFlash.UnpackPack | source/MicroBitFlash.cpp:254-274 | bytes put together in a word come apart again |
| OnChipFlash.InPlace | source/MicroBitFlash.cpp:230-235 | burning the words around the data, and the one behind, changes exactly the data |
| OnChipFlash.Rewritten | source/MicroBitFlash.cpp:237-252 | rewriting an erased page from its copy sets exactly the data |
| OnChipFlash.MicroBitFlash.NeedErase | source/MicroBitFlash.cpp:99-110 | some bit would go from 0 to 1 |
| OnChipFlash.MicroBitFlash.BurnWords | source/MicroBitFlash.cpp:254-274 | the loop over bytes burns the chosen bytes word by word |
| OnChipFlash.MicroBitFlash.FlashWrite | source/MicroBitFlash.cpp:214-277 | the whole flash afterwards: in place only the data change; with an erase also the scratch page, which holds the old page |
| OnChipFlash.FlashedElsewhere | source/MicroBitFlash.cpp:214-277 | apart from the data, nothing changes but the scratch page, and that only with an erase |
| OnChipFlash.StoredWhole | source/MicroBitFlash.cpp:230-277 | all the data are stored if and only if no bit has to rise, or they end in the page, or the rest of them is there already |
| OnChipFlash.NotStoredWhole | source/MicroBitFlash.cpp:237-277 | an input for which they are not: two bytes across the end of a page |
| FileTable.LinkNeedsNoErase | source/MicroBitFileSystem.cpp:1199-1200 | a link can be written over the end mark without an erase if and only if bit 12 of the block number is clear |
| FileTable.EntryTakes | source/MicroBitFileSystem.cpp:403-407 | any value can be written over an unused entry of the table without an erase, and over an end mark exactly if its bit 12 is clear |
| FileTable.EntrySet | source/MicroBitFileSystem.cpp:403-407 | writing an entry changes that entry and no block behind the table |
| FileTable.BlockSet | source/MicroBitFileSystem.cpp:1189-1190 | writing into a block changes no entry and no other block |
| FileTable.ChainUnique | source/MicroBitFileSystem.cpp:379-382 | the first block and the table determine the chain of a file |
| FileTable.ChainExtended | source/MicroBitFileSystem.cpp:1195-1202 | marking a new block as the end and linking it makes the chain one block longer, still ended and without repetition |
| FileTable.FilesAfterExtend | source/MicroBitFileSystem.cpp:1195-1202 | all chains stay ended, apart from one another and named by their entries when one is extended |
| FileTable.FilesAfterRemove | source/MicroBitFileSystem.cpp:1338-1351 | freeing one chain and invalidating its entry leaves the other files and what they hold |
| FileTable.EntryInvalidated | source/MicroBitFileSystem.cpp:1345-1347 | the entry then has flags zero; its name, block and length and all other entries are as before |
| FileTable.FilesAfterCreate | source/MicroBitFileSystem.cpp:660-703 | a new file of one block leaves the other files and what they hold |
| FileTable.EntryCreated | source/MicroBitFileSystem.cpp:680-700 | the entry has the name, the first block, all flags and no length yet; the rest of its block is as before |
| FileTable.ContentsAfterAppend | source/MicroBitFileSystem.cpp:1183-1193 | writing behind the end of the last block appends to that file only |
| FileTable.FirstFreeIsNoFile | source/MicroBitFileSystem.cpp:580-605 | the first free entry of a directory is that of no file if and only if no file up to there has a free flag |
| FileTable.NewEntryIsFirstFree | source/MicroBitFileSystem.cpp:695 | the entry just created for a file is the first free one of the directory still |
| FileTable.AllFlushedAgain | source/MicroBitFileSystem.cpp:926-930 | creating and flushing a file leaves no file with a free flag |
| FileTable.FilesAfterFlush | source/MicroBitFileSystem.cpp:926-930 | writing flags and length of an entry leaves all files and what they hold |
| FileTable.EntryFlushed | source/MicroBitFileSystem.cpp:926-930 | the entry is valid and has the length of the file; its name and block and all other entries are as before |
| FileTable.FreeBit | source/MicroBitFileSystem.cpp:595-600 | an entry is free if and only if the highest bit of its flags is set |
| FileTable.RootDescribed | source/MicroBitFileSystem.cpp:262-275 | the first entry of the root directory has the signature, its own block, the flag of a valid entry and the size |
| FileTable.FormattedIsFound | source/MicroBitFileSystem.cpp:223-245 | a formatted region is recognised, with its size |
| FileSystem.MicroBitFileSystem.WriteIn | source/MicroBitFileSystem.cpp:403-407 | a write within a block changes these bytes of the file system only, with or without an erase |
| FileSystem.MicroBitFileSystem.Format | source/MicroBitFileSystem.cpp:252-278 | an empty file system that a later start recognises, with a root directory that describes itself |
| FileSystem.Load | source/MicroBitFileSystem.cpp:223-245 | found if and only if all table entries name the root block and that has the signature; then the size stored there |
| FileSystem.MicroBitFileSystem.GetFreeBlock | source/MicroBitFileSystem.cpp:40-58 | the first unused block behind the one allocated last |
| FileSystem.MicroBitFileSystem.FindBlock | source/MicroBitFileSystem.cpp:1084-1099 | the block that holds a position or ends at it |
| FileSystem.MicroBitFileSystem.ExtendFile | source/MicroBitFileSystem.cpp:1195-1206 | the file has one block more; no file holds anything else than before; no erase is needed if bit 12 of the new block number is clear |
| FileSystem.MicroBitFileSystem.WriteBuffer | source/MicroBitFileSystem.cpp:1156-1216 | the file holds its old bytes and the new ones, in the least number of blocks; other files and the directories are unchanged |
| FileSystem.MicroBitFileSystem.Read | source/MicroBitFileSystem.cpp:1062-1128 | the bytes of the file from its position: exactly as many as are asked for, or as there are up to its end |
| FileSystem.MicroBitFileSystem.Seek | source/MicroBitFileSystem.cpp:1003-1038 | the position moves within the file, or not at all |
| FileSystem.MicroBitFileSystem.CreateFile | source/MicroBitFileSystem.cpp:660-703 | exactly the entry and one table entry change; the other files are as before |
| FileSystem.MicroBitFileSystem.FindFreeEntry | source/MicroBitFileSystem.cpp:573-600 | the first free entry over all blocks of a directory, or that there is none |
| FileSystem.MicroBitFileSystem.CreateInDirectory | source/MicroBitFileSystem.cpp:660-703 | if all files of the directory are flushed, the entry found is that of no file, and a file is created in it |
| FileSystem.MicroBitFileSystem.Flush | source/MicroBitFileSystem.cpp:898-930 | a new entry gets the length of its file and is no longer free; no file changes |
| FileSystem.MicroBitFileSystem.Remove | source/MicroBitFileSystem.cpp:1323-1353 | exactly the entries of the chain become deleted and the flags of the directory entry zero; the other files are as before |
| FileRuns.AppendAndReadBack | source/MicroBitFileSystem.cpp:1062-1216 | what is appended is read back |
| FileRuns.ReadTwice | source/MicroBitFileSystem.cpp:1062-1128 | reading n bytes and then m gives what reading n + m does |
| FileRuns.FillAndRemove | source/MicroBitFileSystem.cpp:1323-1353 | creating, filling and removing a file leaves all files and their contents as they were |
| FileRuns.CreateAndFlush | source/MicroBitFileSystem.cpp:660-703 | a directory whose files are flushed stays one when a file is created and flushed, and the other files are as before |
| FileRuns.CreateTwice | source/MicroBitFileSystem.cpp:595-703 | of two files created in a directory without a flush in between, the first loses its entry: the entry of no file names its block |

## Left out

- Hardware, I2C transactions, the SoftDevice, events, fibers, mutexes, serial mirroring, visibility of the drive: primitive reads, writes and erases are taken to succeed; clock readings and the versions of the interface chip are parameters.
- PushInt: after pops have removed the last value of the current type, pushing needs a wider type, because the source then writes through a freed descriptor (source/MicroBitCircularBuffer.cpp:199-201); the same holds for the other pushes and for FastLog after a save (`CanStore`, `Drained`).
- PushFloat: floats are opaque 32-bit patterns and the conversion of an integer to a float is an uninterpreted function, given as a parameter (`toFloat`); decimal formatting is not modelled, nor is a double.
- SegmentedBytes: the segmented store is part of the ring class in the source and a class of its own here. Which segments the heap grants is a parameter (`granted`), and the first one it does.
- ClearWrapped: region descriptors are values in a sequence, and a freed one is `Absent`; aliasing of descriptors is not modelled. The branch `ClearWrapped` is a method of its own; no other than the recursive calls of the source are needed.
- SaveLog: where the source divides by zero it says so and stops. Saved rows are a sequence of cells under headings.
- SaveToLog: printing of values, times and the heading of times is a parameter. Headings and lines have to fit, and the log has no open row. The log is the caller's own, whereas source/MicroBitFastLog.cpp:385 works on a copy of the object, whose original goes on from its old end of the data.
- StoreValue: the clock does not run backwards behind the start of the log; allocation of columns succeeds.
- EraseRange: asks for a word-aligned address and an end below 2^32. The interface chip is taken to refuse an erase of blocks it does not have; without that the loop of the source need not end on an empty range at 0.
- Victim: pinning is not modelled; the order of use is exact for fewer than 65536 operations since the last clear, after which only coherence is promised.
- Read: block addresses in the cache are multiples of the block size, as all callers keep them; cached pages are values, so aliasing of their buffers is not modelled.
- LogString: strings hold no NUL. Text that reaches the last block of the flash while the cache may hold that from a refusal before the last page needs pages of four cache blocks or more, and fewer than 65536 cache operations since the last clear (`Safe`). The lazy `init()` at the head of each operation is a call of its own, `Init`.
- LogData: keys hold no byte 0xFF. Timestamps and their columns are not modelled: the format is `None`.
- EndRow: asks that new headings end before the journal, as at its first byte they would run into it, and the same of text that reaches the last block as LogString does (`SafeToEnd`); so does BeginRow on an open row.
- LogAll: starts from a log that has not refused anything before its last page, as do the runs of `SaveRuns`.
- Init: a flash whose metadata are accepted holds the image of some log; on others the scans of the source need not end. The number of rows is not restored, as in the source.
- GetRow: for runs in which each logged string was one line, without 0xFF, since the last clear. `getRows`, `getNumberOfStoredRows`, `getHeader` and `invalidate` would add similar loops.
- HostRead: the fixed metadata fields are taken from the object rather than from the copy read at start.
- WriteBuffer: appending only, with enough unused blocks behind the one allocated last. Overwriting relinks the chain and uses `getFreePage`; both, and recycling of deleted blocks, are left out, as is the wrap of the search (source/MicroBitFileSystem.cpp:47).
- CreateFile: the directory entry is given, as one of no file; CreateInDirectory searches for it. Reusing an invalid entry and extending a full directory (source/MicroBitFileSystem.cpp:602-645), path lookup and `open` are left out.
- Flush: for a file whose entry is new or has the right length; the replacement of an entry by another is left out, as is the write-back cache.
- FlashWrite: asks for a scratch page other than the page written, and for the word behind the data to lie in the flash. The page size is 4096.
- Load: asks that the block named by the first entry lies in the flash.
