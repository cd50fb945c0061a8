# Open PS2 Loader: verified models

Dafny models of the self-contained algorithms and protocols of Open PS2 Loader, with
proofs of what they keep over whole runs. Every method of the model is proved against
a specification function, and the properties are then lemmas about that function.
`dafny verify dfyconfig.toml` checks everything.

## What is modelled

| source | files | the questions answered |
|---|---|---|
| `src/atlas.c` | `Packing`, `AtlasPixels`, `Atlas` | Does the guillotine packer always tile the atlas, which request still fits, and do bitmaps survive in the shared byte buffer? |
| `src/fntsys.c` | `GlyphCache`, `FontCache` | Does every cached glyph read back from its atlas, over any run of uses and flushes, and which character finds no place? |
| `src/ioman.c` | `RequestQueue`, `IoProtocol` | In which order are requests handled, what does blocking guarantee, can a wakeup be lost, is every request handled? |
| `src/menusys.c`, `src/gui.c` | `Titles`, `SubmenuList`, `MenuPaging` | Is the in-place list sort a stable sort in dictionary order, and which page shows which item? |
| `src/ioprp.c`, `src/system.c` | `IoprpFormat`, `IoprpPatched`, `IoprpPatcher` | What does a reader find in a patched ROMDIR image, and does it fit its buffer? |
| `pc/ziso.py`, `src/zso.c`, `modules/isofs/zso.c` | `ZisoFormat`, `ZisoRoundTrip`, `ZisoTool`, `RawReader`, `ZsoReader`, `ZisoExamples` | When is decompressing the inverse of compressing, and does the in-place sector reader deliver the same blocks? |
| `include/utf8.h` | `Utf8` | Is the table-driven decoder the grammar of section 4 of RFC 3629? |
| `src/OSDHistory.c` | `PlayHistory` | What does the 21-record table keep over any run of launches? |
| `src/sound.c` | `BgmRing` | Who owns which ring slot, and can the two threads get stuck? |
| `src/config.c`, `src/util.c` | `Config`, `ConfigStore`, `ConfigText`, `ConfigSections`, `ConfigRoundTrip`, `ConfigFile`, `TextLines`, `FileBuffer` | Is the list an insertion-ordered map, what does a text with sections set, and which sets survive writing and reading? |
| `src/system.c` | `Crc`, `CrcPolynomial` | Is the CRC with the table filled upside down the bit-serial CRC, and that a polynomial remainder? |

`Options`, `Bytes`, `Words`, `Arithmetic` and `CStrings` hold what several of them share.

Objects that the source updates in place are classes over the heap (allocation tree,
atlas, font slot, request list, submenu list, menu item, configuration list, file
buffer, decoder, sector reader) or arrays (pixel buffer, output image, history table,
CRC table, sector buffers). Threads are state machines whose events are the sections
between two points at which another thread can run.

## Where a promised property fails

Each of these is proved as the exact condition under which the code meets the promise.

* `pc/ziso.py` reads a compressed last block up to the size of the *image*, not of the
  file, and `read` refuses a size below -1. It also tests bit 31 of an index entry for
  compressed blocks only, so a plain block whose entry needs that bit is looked for 2^31
  units too early, and a compressed block before it gets a negative size. An accepted image
  comes back exactly when (`ZisoRoundTrip.RoundTripIff`)
  * its last block is plain, or ends within the size of the image, or begins exactly one
    byte behind it, where the size of -1 reads to the end of the file,
  * no compressed block stands directly before one whose entry needs bit 31, and
  * no plain block whose entry needs it differs from the bytes found there.

  Each of these fails (`ZisoExamples`): 29 sectors of ones before one of zeros have the last
  block cut (`TailIsCut`), 505 have it refused (`TailIsRefused`, while three bytes more save
  it, `TailIsReadWhole`), a sector of zeros just below 2 GiB is refused (`GapIsLost`), and of
  2^31 - 1 ones the last sector is looked for inside the index table (`WrappedIsLost`). Below
  2 GiB `PlainButLastRoundTripIff`, `PlainRunWrapsIff` and `PlainRunSmallIff` give the sizes
  in closed form. An image that does not grow always comes back (`RoundTrip`).
* `modules/isofs/zso.c` computes the size of the last block from an index entry that was
  rounded down. Above 2 GiB a compressed last block is complete exactly when the data
  ends on a multiple of the shift unit (`ZsoReader.CompleteIff`). Otherwise the decoder is
  handed a proper prefix of the compressed block (`ShortIsCut`) and behind it whatever the
  temporary buffer held before, as for 2 GiB of ones with a last sector of zeros
  (`ZisoExamples.ShortIsDelivered`).
* The same reader loses bit 31 of a plain block's index, too. A request that begins short of
  it and ends beyond it is read from before the caller's buffer exactly when the image has
  no shift (`ZsoReader.Reader.ReadSector`); with a shift the bit leaves the 32-bit size and
  the sectors are right (`CrossingSize`). A request that begins beyond it delivers a block
  exactly when the bytes 2^31 units earlier equal it (`DeliversBlockIff`). Both happen
  (`ZisoExamples.WrappedIsNotPlayed`), though never for an image that does not grow
  (`ShrunkIsDelivered`).
* After a return of `ioBlockOps(1)` the queue is and stays empty exactly when I/O is then
  blocked, the queue is empty and no other thread has passed the checks of `ioPutRequest`
  (`IoProtocol.BlockHoldsIff`). With two client threads it can fail in two ways: the second
  caller returns at once while the first one still waits (`EarlyReturnFindsRequest`), or a
  putter has passed its checks (`PassedPutterSlipsIn`). With the GUI thread as only client
  it never does (`BlockHoldsForGui`).
* Every accepted request is handled or removed, exactly unless an `ioRegisterHandler` has
  failed before: its error returns keep the proc lock (`IoProtocol.DrainsAlways`), and from
  then on nothing is handled (`LeakIsFinal`, with a run in `SecondRegistrationStalls`). It
  fails exactly for a null handler, a type that is registered already, or a 65th one
  (`RegisteredInOrder`).
* Background music hangs for ever exactly when the first batch was decoded before the
  player thread was started (`BgmRing.StuckIff`, with a run that does it).
* A launch keeps the history table in order exactly when the name has 1 to 15 characters,
  or every record is used up, or the name is longer and no record but the one replaced has
  its first 15 characters (`PlayHistory.KeepsTableIff`). A longer name is never found again
  and repeats; the empty name, which a boot path ending in a separator gives, finds every
  blank slot (`FoundAgainIff`, `LongNameDuplicates`, `EmptyNameLaunch`).
* The record that makes room in the history table is an oldest of the least used exactly when
  the first of the least used is, or one of them is dated before every record in front of the
  first that had the smallest count so far: the scan keeps the date of such a record when it
  turns to one used less often (`PlayHistory.VictimIsOldestIff`, `YoungerMakesRoom`).
* A configuration pair is found again exactly when its key has at most 31 characters
  (`Config.FoundAgainIff`); longer ones repeat.
* `readFileBuffer` moves bytes from a null pointer exactly when its window shows a comment
  without the line feed that ends it (`FileBuffer.ReadBuffer.ReadLine`,
  `TextLines.NextPieceIsFirst`); for lines that fit the window that is a comment at the very
  end of the text (`TextLines.PiecesAreLines`), as in `#x` (`UnendedCommentIsLost`).
* The CRC of a game identifier looks outside its table exactly for strings with a character
  above 127 among those it covers, a `char` being signed (`Crc.Crc32`, `HighCharLeavesTable`).
* A written configuration set is read back exactly when no written key or value has a
  line feed, no written key begins with a blank, no two written keys are equal and, for
  files, the first written key does not begin like a byte order mark
  (`ConfigRoundTrip.RoundTripIff`, `RoundTripFileIff`). Carriage returns survive, which is
  more than the format needs.

## Model

| member | source | states |
|---|---|---|
| Packing.FailsIffNoLeafFits | src/atlas.c:50-83 | a placement fails exactly when no free leaf of the tree is as wide and as high as the request, and then leaves the tree as it was |
| Packing.TakesFirstFit | src/atlas.c:50-83 | a successful placement takes the first free leaf that is large enough and puts the two pieces around the reservation in its place |
| Packing.PlaceCuts | src/atlas.c:56-68 | of the leaf that is taken the strip below keeps the whole width if less is left beside the reservation than below it, otherwise the strip beside keeps the whole height; the shortened strip comes first in the search |
| Packing.SecondFitsIff | src/atlas.c:50-83 | after one placement a second request fits exactly when another leaf held it or one of the two strips does, in terms of the sizes alone |
| Packing.SquareStillFits | src/atlas.c:56-68 | the cut wastes no square: one that fits beside or below a reservation still finds a place |
| Packing.SecondGoesBelow | src/atlas.c:56-68 | on a fresh atlas of 256 x 256 the second of two requests of 11 x 13 gets (0, 13) |
| Packing.PiecesTile | src/atlas.c:56-68 | a leaf is the disjoint union of the reservation and the two pieces, pixel by pixel and in area |
| Packing.PlaceKeepsTiling | src/atlas.c:50-83 | one placement keeps reservations and free leaves an exact tiling |
| Packing.RunTiles | src/atlas.c:50-83 | after any run of placements on a fresh atlas the reservations and free leaves cover every pixel exactly once and their areas add up to that of the atlas |
| Packing.TilingIsDisjoint | src/atlas.c:50-83 | in such a tiling no two rectangles share a pixel and none leaves the atlas |
| Atlas.Allocation.constructor | src/atlas.c:13-26 | a new node is a free leaf |
| Atlas.Allocation.Divide | src/atlas.c:56-70 | a free leaf becomes a node with the two leaves of PlaceCuts around the reservation |
| Atlas.Allocation.AllocPlace | src/atlas.c:50-83 | on the heap tree the recursion does what the placement on values says, returns the node that was taken and touches only nodes of the tree |
| Atlas.Atlas.constructor | src/atlas.c:85-111 | a new atlas is one free leaf over a zeroed buffer |
| Atlas.Atlas.CopyRows | src/atlas.c:163-167 | the copy loop, whose two pointers advance by their own row lengths, writes exactly the rows of the bitmap |
| Atlas.Atlas.CopyData | src/atlas.c:147-168 | the whole copy paints the bitmap at the corner of its leaf and never leaves the buffer |
| Atlas.Atlas.Place | src/atlas.c:170-185 | reserves one more column and row than the bitmap has, copies it, and answers null exactly when the request is null or nothing fits |
| AtlasPixels.BlitByte | src/atlas.c:163-167 | every byte of the bitmap lands at its two-dimensional position and no other byte of the picture changes |
| AtlasPixels.BlitPixel | src/atlas.c:147-168 | the same in pixels of one, two or four bytes |
| AtlasPixels.CopyFits | src/atlas.c:147-185 | the bytes of a placed bitmap lie inside the buffer |
| AtlasPixels.PlaceBitmapKeeps | src/atlas.c:147-185 | one request keeps all earlier bitmaps and their blank borders readable, and shows the new one |
| AtlasPixels.PlaceBitmapIff | src/atlas.c:170-185 | a request is refused exactly when no free leaf holds the bitmap with one more column and row, and then nothing changes; otherwise it gets the first such leaf |
| AtlasPixels.RunKeepsGlyphs | src/atlas.c:85-185 | after any run on a new atlas every placed bitmap reads back at its rectangle with its spare column and row zero |
| GlyphCache.PlaceFromKeeps | src/fntsys.c:355-386 | trying the atlases in turn, creating the missing ones, keeps all glyphs and adds the new one to the atlas that took it |
| GlyphCache.PlaceFromIff | src/fntsys.c:355-386 | a bitmap finds no place exactly when no atlas, existing or still to be made, has a leaf for it with one more column and row; otherwise it goes to the first atlas that has one, into its first such leaf, the missing atlases before are made blank, and no other atlas changes |
| GlyphCache.StaysUncachedIff | src/fntsys.c:389-436 | a rendered character with pixels stays uncached exactly when no atlas has room for it, and is otherwise placed in the first that has |
| GlyphCache.AnswerIsValidEntry | src/fntsys.c:389-436 | the answer is the entry of the character, exactly when it is valid afterwards |
| GlyphCache.UseKeepsOthers | src/fntsys.c:389-436 | no other character's entry changes |
| GlyphCache.CacheGlyphKeeps | src/fntsys.c:389-436 | one use of a character keeps every cached glyph where it was and as it was |
| GlyphCache.ValidGlyphsReadBack | src/fntsys.c:114-170 | after any run of uses and flushes every valid entry with a bitmap points into an atlas from which that bitmap reads back, with its blank border |
| GlyphCache.ValidEntriesStay | src/fntsys.c:405-408 | however often characters are used, a cached one keeps its entry and its bitmap until the next flush |
| FontCache.FontSlot.CreateAtlas | src/fntsys.c:345-374 | fills one empty atlas slot and leaves the other atlases alone |
| FontCache.FontSlot.GlyphAtlasPlace | src/fntsys.c:355-386 | the loop over the atlas slots does what the search on values says, whose outcome PlaceFromIff gives |
| FontCache.FontSlot.PrepareGlyphCachePage | src/fntsys.c:138-170 | grows the page table with null pages and allocates the wanted one |
| FontCache.FontSlot.CacheChar | src/fntsys.c:389-436 | on the heap one use of a character has the outcome and the effect of the model on values |
| FontCache.FontSlot.CacheFlush | src/fntsys.c:114-136 | leaves an empty cache without atlases |
| RequestQueue.Queue.Link | src/ioman.c:213-233 | appends one request; the end pointer is the new last node |
| RequestQueue.Queue.Pop | src/ioman.c:134-143 | drops the head; the end pointer is null exactly when the list is empty |
| RequestQueue.Queue.RemoveKind | src/ioman.c:246-276 | unlinks exactly the requests of one type, keeps the others in order with both ends right, and counts them |
| IoProtocol.WithoutKindMatchesList | src/ioman.c:250-271 | the removal step of the protocol is the removal in the linked list |
| IoProtocol.StepKeepsOrder | src/ioman.c:123-145 | every step of every thread keeps handled and queued requests the accepted ones without the removed ones, in order |
| IoProtocol.StepKeepsHead | src/ioman.c:130-143 | every step keeps the request being handled at the head of the queue |
| IoProtocol.StepKeepsLock | src/ioman.c:124-145 | every step keeps the proc lock with at most one holder |
| IoProtocol.StepKeepsKinds | src/ioman.c:86-98 | every step keeps the types of all queued requests registered |
| IoProtocol.RunKeepsInv | src/ioman.c:114-277 | all of these hold in every interleaving of any number of client threads, the worker and its handlers |
| IoProtocol.HandledInOrder | src/ioman.c:114-277 | handler calls are the accepted puts minus the removed ones, in order, each at most once, each of a registered type; no removal is under way while a handler runs |
| IoProtocol.PutAppends | src/ioman.c:204-238 | a put that nothing interrupts is refused without a trace exactly while I/O is blocked or its type has no handler, and otherwise stands at the end of the queue with a wakeup given |
| IoProtocol.HandlerPutAppends | src/ioman.c:204-238 | the same from a running handler, which gives no wakeup |
| IoProtocol.UnblockLetsPut | src/ioman.c:356-358 | after ioBlockOps(0) a put of a registered type is queued again |
| IoProtocol.OneWayOn | src/ioman.c:114-277 | no call is left half way: inside one each client, the worker and its handler have at most one way to go on |
| IoProtocol.RemovalTakesOut | src/ioman.c:246-276 | a removal takes out exactly the queued requests of its type, and has to wait while the proc lock is held |
| IoProtocol.RegisteredInOrder | src/ioman.c:60-84 | in every run the registered types are those of the calls in order, but for a last one that failed; and one has failed exactly when a handler was null, a type came twice or there were more than 64 |
| IoProtocol.NothingIsForgotten | src/ioman.c:116-146 | whenever a request is queued the worker is draining, a wakeup is counted, or a putter stands between linking and waking |
| IoProtocol.FinishingShrinks | src/ioman.c:114-361 | every step that starts no new call, of the worker, its handler or a client, lowers one bound on the steps to come |
| IoProtocol.RestsIff | src/ioman.c:114-361 | a reachable state allows no such step exactly when no call is under way, the queue is empty and the worker sleeps without a wakeup, or when a failed registration has kept the proc lock and all that can still move has ended |
| IoProtocol.DrainsAlways | src/ioman.c:114-361 | from every reachable state, whichever thread is scheduled, the steps without new calls come to an end, and there every accepted request that was not removed has been handled, exactly unless a registration has failed before and a request is queued or about to be |
| IoProtocol.CanDrain | src/ioman.c:114-238 | and such a run to the end exists |
| IoProtocol.LeakIsFinal | src/ioman.c:60-84 | after a failed registration no handler is called, no request is popped and none removed in any run; the queue only grows |
| IoProtocol.SecondRegistrationStalls | src/ioman.c:70-75 | a run in which a type is registered twice and the next request stays queued for ever |
| IoProtocol.BlockHoldsIff | src/ioman.c:336-361 | after every return of ioBlockOps(1), immediate or after its wait, nothing is queued until ioBlockOps(0) exactly when I/O is blocked, the queue is empty and no client thread has passed its checks |
| IoProtocol.EarlyReturnFindsRequest | src/ioman.c:341 | a run of two clients in which the second returns while a request is queued |
| IoProtocol.PassedPutterSlipsIn | src/ioman.c:205-211 | a run of two clients in which the first returns from its wait while the second has passed its checks |
| IoProtocol.BlockHoldsForGui | src/ioman.c:336-361 | in every run with the GUI thread as only client, I/O blocked and the call returned mean an empty queue, whatever a running handler was about to put |
| Titles.CompareFlips | src/menusys.c:584 | swapping the titles flips the sign of the comparison |
| Titles.CompareNegativeIff | src/menusys.c:584 | the comparison is negative exactly when, behind letters that agree but for their case, the first title ends first or has the smaller letter |
| Titles.AlphaBeforeBeta | src/menusys.c:584 | "alpha" stands before "Beta", "Alpha" before "beta" and "Al" before "alpha" |
| Titles.LowerIs | src/menusys.c:584 | what differs in case only are the 26 letters |
| Titles.CompareEqualIff | src/menusys.c:584 | titles compare as equal exactly when they differ in case only |
| Titles.CompareTransitive | src/menusys.c:584 | the comparison is a preorder whose ties are a congruence |
| SubmenuList.AppendItem | src/menusys.c:424-445 | appends one new node at the end of the doubly linked list |
| SubmenuList.Swap | src/menusys.c:542-559 | relinking two neighbours exchanges them and keeps every prev and next right |
| SubmenuList.InversionsDrop | src/menusys.c:586-593 | every exchange the sort makes removes exactly one inversion, so the sort ends |
| SubmenuList.Pass | src/menusys.c:570-597 | one pass keeps the nodes, their links and the order of equal titles, and either finds the list sorted or reduces its inversions |
| SubmenuList.Sort | src/menusys.c:561-600 | the same nodes, well linked, in dictionary order of their titles without regard to case (CompareNegativeIff), equal titles in their original order |
| SubmenuList.StableSortUnique | src/menusys.c:561-600 | there is only one such order, so the sort is determined |
| MenuPaging.RunKeepsWindow | src/menusys.c:629-738 | after any run of appends, clears, sorts and moves the current item is in the list and on the page of D items that starts at pagestart |
| MenuPaging.UpUndoesDown | src/menusys.c:662-702 | down then up, and up then down, come back to the same item, also across the ends |
| MenuPaging.DownsGoRound | src/menusys.c:662-683 | any number of moves down goes round the list |
| MenuPaging.DownsShowPages | src/menusys.c:662-683 | moving down, the page stays while the item is on it and then starts at the item: pages of D items follow from where the first one began |
| MenuPaging.DownsFromFirst | src/menusys.c:662-683 | k moves down from the first page show item k on the page that starts at k / D * D |
| MenuPaging.UpsShowPages | src/menusys.c:685-702 | moving up, the page stays until its top item is left and then goes back D items, or to the first item |
| MenuPaging.PagesFollow | src/menusys.c:704-720 | from the first page full pages follow one another |
| MenuPaging.PagesShowEveryItem | src/menusys.c:704-720 | on the way down from the first page item i is shown on page i divided by D and on no other |
| MenuPaging.PagesGoRound | src/menusys.c:704-720 | behind the last full step comes the last item and then the first page |
| MenuPaging.PageUpUndoesPageDown | src/menusys.c:704-738 | a page up undoes a page down while whole pages follow |
| MenuPaging.PagesUpGoBack | src/menusys.c:722-738 | pages up go back D items each, the last of them to the first item, and behind that comes the last page |
| MenuPaging.LastPageIsFull | src/menusys.c:642-660 | the last page ends with the last item and is as full as possible |
| MenuPaging.AppendsSelect | src/gui.c:1019-1038 | filling an empty menu selects the last item marked as last played, or else the first, and starts the page there |
| MenuPaging.MenuItem.MenuFirstPage | src/menusys.c:629-640 | goes to the first item |
| MenuPaging.MenuItem.MenuLastPage | src/menusys.c:642-660 | goes to the last item with a full page before it |
| MenuPaging.MenuItem.MenuNextV | src/menusys.c:662-683 | one item down, turning the page exactly at its end, as DownsShowPages says |
| MenuPaging.MenuItem.MenuPrevV | src/menusys.c:685-702 | one item up, turning the page at its start, as UpsShowPages says |
| MenuPaging.MenuItem.MenuNextPage | src/menusys.c:704-720 | one page down, or round to the first |
| MenuPaging.MenuItem.MenuPrevPage | src/menusys.c:722-738 | one page up, or round to the last |
| MenuPaging.MenuItem.HandleAppend | src/gui.c:1019-1038 | appends an item and moves the selection to it when it is the first or the last played one |
| MenuPaging.MenuItem.HandleClear | src/gui.c:1045-1050 | empties the menu |
| MenuPaging.MenuItem.HandleSort | src/gui.c:1052-1060 | sorts the menu stably, keeps the selection when it is reminded, and starts the page there |
| IoprpFormat.DirectorySlots | src/ioprp.c:43 | what a reader of a ROMDIR image finds in each slot |
| IoprpFormat.EntryFields | src/ioprp.c:43 | a slot is a name of up to 10 bytes and two numbers, least significant byte first |
| IoprpFormat.DirectoryStops | src/ioprp.c:43 | a reader stops at the first empty name |
| IoprpFormat.DirectoryIs | src/ioprp.c:43-64 | slots that read as given entries before an empty name are that directory |
| IoprpPatched.PatchedDirectory | src/ioprp.c:43-64 | re-parsing the patched image gives the same names and EXTINFO sizes in order; only sizes of replaced members differ |
| IoprpPatched.PatchedDirectoryTail | src/ioprp.c:52-55 | the rest of the directory's own member, with its end mark, is unchanged |
| IoprpPatched.PatchedContents | src/ioprp.c:46-60 | extracting any member but the directory gives the module of its name for CDVDMAN, CDVDFSV and EESYNC and its old contents otherwise |
| IoprpPatched.PatchedMembers | src/ioprp.c:43-64 | member by member, with the three names written out: CDVDMAN, CDVDFSV and EESYNC hold their modules, all others their old contents, names and EXTINFO sizes stay |
| IoprpPatched.PatchedGaps | src/ioprp.c:99-118 | the members tile the patched image from multiples of 16 to multiples of 16, and every gap between them is zero |
| IoprpPatched.PatchedFits | src/system.c:485-488 | with each replaced name at most once the result fits the allocated size and is a multiple of 16 long |
| IoprpPatcher.AlignOffsets | src/ioprp.c:99-118 | both offsets move to the next multiple of 16 and the gap in the output is cleared |
| IoprpPatcher.PatchModule | src/ioprp.c:72-94 | copies a module and records its size |
| IoprpPatcher.PatchEntry | src/ioprp.c:44-60 | one round of the loop in place |
| IoprpPatcher.PatchImage | src/ioprp.c:32-67 | the loop, which copies over the directory it is rewriting, leaves exactly the patched image, returns its size and writes nothing behind it |
| IoprpPatcher.BuildImage | src/system.c:485-488 | in a buffer of the computed size the patcher always has room |
| ZisoRoundTrip.StoredAt | pc/ziso.py:248-308 | every block stands at its position in the file, behind its padding |
| ZisoRoundTrip.WordsReadBack | pc/ziso.py:310-317 | the index table reads back |
| ZisoRoundTrip.HeaderReadsBack | pc/ziso.py:107-118 | the header reads back |
| ZisoRoundTrip.FileLayout | pc/ziso.py:107-118 | the first four bytes are the text ZISO; sizes, block size and index entries stand least significant byte first, then version 1 and the shift |
| ZisoRoundTrip.HeaderOkIff | pc/ziso.py:135 | which headers are accepted, byte by byte: the text ZISO, 24, sizes that are not zero, a signed version of at most 1 |
| ZisoRoundTrip.OnlyZisoIsRead | pc/ziso.py:130-150 | whatever file is decompressed begins like that, with sizes that are not zero, and gives whole blocks |
| ZisoRoundTrip.LongestIs | pc/ziso.py:62-71 | the answer for a block is that for the longest prefix the codec accepts, and there is none exactly when it accepts no prefix |
| ZisoRoundTrip.IndexKeepsPosition | pc/ziso.py:295-304 | a position survives the index exactly when it is aligned and leaves bit 31 to the plain mark |
| ZisoRoundTrip.ReadsAtPosition | pc/ziso.py:159-162 | for every accepted image (index & 0x7fffffff) << align is the position of a block, or 2^31 units less when its index needs bit 31, which only plain blocks do |
| ZisoRoundTrip.TrimsPadding | pc/ziso.py:62-71 | dropping bytes until the codec accepts removes exactly the padding |
| ZisoRoundTrip.CutStaysLost | pc/ziso.py:62-71 | compressed bytes that were cut short never decode to their block |
| ZisoRoundTrip.PlainBlockDecodes | pc/ziso.py:164-165 | a plain block comes back exactly when its index leaves bit 31 free or the bytes 2^31 units earlier equal it |
| ZisoRoundTrip.BlockBeforeWrapFails | pc/ziso.py:168-173 | a compressed block before one whose index needs bit 31 gets a size below -1 and is always lost |
| ZisoRoundTrip.LastBlockBytes | pc/ziso.py:170-173 | what is read for a compressed last block: all of it, a proper prefix, or nothing because the size is refused |
| ZisoRoundTrip.LastBlockDecodes | pc/ziso.py:170-190 | a compressed last block comes back exactly when it ends within the size of the image or begins one byte behind it |
| ZisoRoundTrip.BlockDecodesIff | pc/ziso.py:159-190 | a single block comes back exactly when it is not misread, not refused and not a lost tail |
| ZisoRoundTrip.BlocksDecode | pc/ziso.py:152-192 | blocks come back together exactly when each of them does |
| ZisoRoundTrip.RoundTripCore | pc/ziso.py:152-192 | an image comes back exactly when none of its blocks is lost |
| ZisoRoundTrip.RoundTripIff | pc/ziso.py:130-196 | decompressing any accepted image gives its whole blocks exactly when its tail is not lost, no compressed block stands directly before one whose index needs bit 31, and no plain block whose index needs it differs from the bytes 2^31 units before it; thresholds are at most 100, as line 349 sees to |
| ZisoRoundTrip.SmallRoundTripIff | pc/ziso.py:130-196 | where every index leaves bit 31 free only the tail can be lost |
| ZisoRoundTrip.ShrunkIsSmall | pc/ziso.py:227-229 | every index of an image that does not grow leaves bit 31 free, so the shift does what its comment promises |
| ZisoRoundTrip.RoundTrip | pc/ziso.py:130-323 | an image that does not grow comes back as its whole blocks |
| ZisoRoundTrip.PlainRunWrapsIff | pc/ziso.py:277-304 | below 2 GiB a block after plain ones needs bit 31 exactly when header, index and these blocks take 2 GiB, and is then looked for inside header and index |
| ZisoRoundTrip.PlainRunSmallIff | pc/ziso.py:277-304 | every index of such an image leaves bit 31 free exactly when its last block begins below 2 GiB |
| ZisoRoundTrip.TailLostAfterPlainRun | pc/ziso.py:168-173 | the images with a lost tail in closed form when all blocks but the last are stored plain |
| ZisoRoundTrip.PlainButLastRoundTripIff | pc/ziso.py:130-323 | which of these images come back, by the number of blocks, the size of the rest and that of the packed last block |
| ZisoExamples.CodecIsSound | pc/ziso.py:62-71 | a codec that meets every assumption made of one |
| ZisoExamples.ZerosAfterOnesIff | pc/ziso.py:130-323 | which images of k sectors of ones, one of zeros and some bytes more come back |
| ZisoExamples.TailIsCut | pc/ziso.py:170-173 | an image of 30 sectors whose last block is read in part |
| ZisoExamples.TailIsRefused | pc/ziso.py:170-173 | an image of 506 sectors whose last block is read with a size of -4 |
| ZisoExamples.TailIsReadWhole | pc/ziso.py:170-173 | the same with three bytes more, read with a size of -1, comes back |
| ZisoExamples.GapIsLost | pc/ziso.py:166-173 | an accepted image whose one compressed block stands directly before an index that needs bit 31, and is lost |
| ZisoExamples.WrappedIsMisread | pc/ziso.py:275-303 | an accepted image of 2^31 - 1 bytes whose last block is looked for on the index table and not found |
| ZisoExamples.WrappedIsLost | pc/ziso.py:130-196 | that image is not given back, though no block is cut or refused |
| ZisoExamples.WrappedIsNotPlayed | modules/isofs/zso.c:63-70 | of that image a request for the block at 2 GiB is lost and the last sector is not delivered |
| ZisoExamples.ShortIsDelivered | modules/isofs/zso.c:73-84 | a playable image of 2 GiB whose last block is delimited short, with stale bytes that make the decoder deliver another sector |
| ZisoTool.SetAlign | pc/ziso.py:210-216 | pads the output to the next multiple of the unit |
| ZisoTool.PackIndex | pc/ziso.py:313-317 | packs the table, and fails exactly when a word does not fit 32 bits |
| ZisoTool.WriteBlock | pc/ziso.py:295-308 | writes one block plain or compressed with its index word, and gives up exactly when a compressed block would need bit 31 |
| ZisoTool.Compress | pc/ziso.py:219-323 | the loop writes the file of the specification, or fails where it has none |
| ZisoTool.CompressPooled | pc/ziso.py:265-285 | the process pool writes the same file |
| ZisoTool.Lz4Decompress | pc/ziso.py:62-71 | finds the longest prefix the codec accepts |
| ZisoTool.Decompress | pc/ziso.py:130-196 | reads what the specification says, or fails where it has no answer |
| RawReader.SectorAndPos | src/zso.c:43-44 | sector number and position in the sector name the byte offset << shift although the shifted word may wrap round |
| RawReader.LongLseek | src/zso.c:23-39 | seeking in signed 32-bit steps ends at the sector |
| RawReader.ReadHDDSectors | src/zso.c:14-21 | four disk sectors for one image sector, in order |
| RawReader.ReadSectors | src/zso.c:49-83 | the hard disk path fills exactly the requested bytes from whole sectors |
| RawReader.ReadRawData | src/zso.c:41-84 | through either path exactly size bytes from offset << shift arrive and no other byte of the buffer changes |
| ZsoReader.RestFits | modules/isofs/zso.c:67-70 | the packed rest of the sectors always fits above the sectors still to be unpacked |
| ZsoReader.CompleteIff | modules/isofs/zso.c:73-84 | the index entries delimit a block completely unless it is a compressed last block whose end is not aligned; below 2 GiB always |
| ZsoReader.ShortIsCut | modules/isofs/zso.c:73-91 | a block that is not complete is the compressed last one, and in a request that begins short of bit 31 the bytes its entries delimit are a proper prefix of it |
| ZsoReader.EntriesSpan | modules/isofs/zso.c:63-65 | two index entries give the position of the first, 2^31 units early if it needs bit 31, and in 32 bits the bytes between them, unless the second alone needs bit 31 and there is no shift |
| ZsoReader.CrossingSize | modules/isofs/zso.c:65 | the 32-bit size of a request across bit 31 is right with a shift, and 2^31 too large without one |
| ZsoReader.DeliversBlockIff | modules/isofs/zso.c:44-100 | a complete block is delivered exactly unless its request begins where positions need bit 31 and the bytes 2^31 units earlier differ from it |
| ZsoReader.ShrunkIsDelivered | modules/isofs/zso.c:44-100 | no request for an image that does not grow crosses bit 31 or begins beyond it |
| ZsoReader.RoundRoom | modules/isofs/zso.c:75-97 | the bytes of the next block lie inside the buffer and none of the later ones is overwritten |
| ZsoReader.RoundUnpacks | modules/isofs/zso.c:73-98 | one round unpacks one sector and keeps the packed bytes of the rest |
| ZsoReader.MoveDown | modules/isofs/zso.c:92 | the overlapping copy towards lower addresses |
| ZsoReader.Reader.RefreshIndex | modules/isofs/zso.c:57-61 | the cache holds the index entries from the first sector on |
| ZsoReader.Reader.ReadPacked | modules/isofs/zso.c:63-70 | all packed bytes stand at the end of the caller's buffer |
| ZsoReader.Reader.UnpackNext | modules/isofs/zso.c:73-98 | one round of the unpacking loop in place |
| ZsoReader.Reader.ReadSector | modules/isofs/zso.c:44-100 | for every sector image that pc/ziso.py accepts, below 24 GiB, the buffer ends up with the blocks of the original image, a block delimited short with what the decoder makes of its prefix and stale bytes, and behind bit 31 with the bytes found 2^31 units early; the answer is their number, and it is lost exactly when the request crosses bit 31 without a shift |
| Utf8.TableIs | include/utf8.h:21-36 | the 400 numbers of the table are the byte classes and the successor function |
| Utf8.BitsAre | include/utf8.h:42-45 | the bits a byte contributes are those the shift and the masks of the source leave |
| Utf8.RejectStays | include/utf8.h:47 | REJECT is absorbing and nothing is decoded after it |
| Utf8.Decoder.Utf8Decode | include/utf8.h:38-49 | one byte, with the 32-bit shift of the code point |
| Utf8.FeedChar | include/utf8.h:38-49 | a whole UTF8-char of RFC 3629 leads from ACCEPT to ACCEPT with its character number |
| Utf8.FeedNoChar | include/utf8.h:38-49 | a string that begins with no UTF8-char never reaches ACCEPT |
| Utf8.DecodesTheGrammar | include/utf8.h:21-49 | for every byte string the decoder yields the numbers of the leading UTF8-chars, and it ends in ACCEPT exactly for the strings of the grammar |
| Utf8.CharIsEncoded | include/utf8.h:21-49 | every UTF8-char is the encoding of its number, a scalar value |
| Utf8.DecodesEncodings | include/utf8.h:21-49 | feeding the encodings of any scalar values yields these values |
| Utf8.DecodeString | src/fntsys.c:547-549 | the rendering loop draws the code points of the grammar |
| PlayHistory.RelaunchKeepsEntry | src/OSDHistory.c:189-214 | one more launch keeps the count within 1..63, below the clamp, and the mask on its schedule |
| PlayHistory.GainedBit | src/OSDHistory.c:196-202 | launches 14, 24, 34, 44 and 54 add one free bit to the mask and leave its number in ShiftAmount; no other launch changes the mask |
| PlayHistory.UsedUpIff | src/OSDHistory.c:205-213 | a record is used up exactly by a launch that finds it at 63 |
| PlayHistory.FreeBitExists | src/OSDHistory.c:198-199 | the rejection loop always has a free bit to end on |
| PlayHistory.AddKeepsTable | src/OSDHistory.c:168-259 | one launch keeps names unique and every record in order |
| PlayHistory.LaunchIsCounted | src/OSDHistory.c:186-259 | the record of the game just launched is dated and counts one launch more, up to 63 |
| PlayHistory.RunCountsLaunches | src/OSDHistory.c:186-214 | while only games of the table are launched each record counts the launches of its game, up to 63 |
| PlayHistory.VictimIsLeastUsed | src/OSDHistory.c:173-183 | the record that makes room has the smallest launch count |
| PlayHistory.VictimIs | src/OSDHistory.c:173-183 | the victim is the last record the scan turns to: one launched less often than all before it, or as seldom as the least so far and dated before every earlier record that was |
| PlayHistory.VictimIsOldestIff | src/OSDHistory.c:173-183 | the victim is an oldest of the least used exactly when the first of these is, or one of them is dated before every candidate in front of the first |
| PlayHistory.YoungerMakesRoom | src/OSDHistory.c:173-183 | a full table in order in which a younger record makes room |
| PlayHistory.EveryBlankIsDrawn | src/OSDHistory.c:237-243 | every blank slot is the choice of some draw |
| PlayHistory.RecordedUnlessSaturated | src/OSDHistory.c:224-259 | after a launch the game is in the table exactly when it was before or not every record is used up |
| PlayHistory.OnlyOneRecordChanges | src/OSDHistory.c:168-259 | a launch changes the game's own record or, for a new game, a blank slot or else a least used record |
| PlayHistory.RunKeepsTable | src/OSDHistory.c:168-259 | after any run of launches names are unique, counts within 1..63 and masks on their schedule |
| PlayHistory.EmptyTableOk | src/OSDHistory.c:165 | the all-zero table is in order |
| PlayHistory.SaturationIsFinal | src/OSDHistory.c:240 | a table whose records are all used up never takes another game |
| PlayHistory.KeepsTableIff | src/OSDHistory.c:168-259 | which launches keep the table in order, for every name: short ones, any on a used-up table, and longer ones whose first 15 characters no other record has |
| PlayHistory.EmptyNameLaunch | src/OSDHistory.c:186-254 | the empty name counts a launch for every blank slot, and keeps the table in order only when all records are used up |
| PlayHistory.FoundAgainIff | src/OSDHistory.c:186 | a record is found again under the name it was made for exactly when that has at most 15 characters |
| PlayHistory.LongNameDuplicates | src/OSDHistory.c:186-254 | a longer name leaves two records of one name |
| PlayHistory.RelaunchEntry | src/OSDHistory.c:189-214 | the update of one record, with the random draws as a choice among free bits |
| PlayHistory.AddHistoryRecord | src/OSDHistory.c:168-259 | the scan and the insertion in place do what the table function says |
| BgmRing.SlotsAreConserved | src/sound.c:263-324 | in every interleaving semaphore counts and held tokens make 16, and wrPtr runs ahead of rdPtr by the slots that hold sound |
| BgmRing.TokensAreCounted | src/sound.c:270-314 | the semaphores are 16 less the slots taken plus those given back, and the slots signalled less those polled |
| BgmRing.PointersAreCounted | src/sound.c:274-312 | slots are filled and played in turn: wrPtr and rdPtr are the slots filled and played so far, modulo 16 |
| BgmRing.WakeupsAreCounted | src/sound.c:267-315 | every batch ends with one wakeup, and every wakeup is slept off once, but for the one a dormant player loses |
| BgmRing.FillingIsNotFull | src/sound.c:293-318 | no slot being filled is being played or waits to be played |
| BgmRing.DecodingIsNotPlaying | src/sound.c:270-303 | the slot being decoded is never the slot being played |
| BgmRing.StuckIff | src/sound.c:267-318 | the threads are stuck exactly when the first batch was finished before the player was started |
| BgmRing.ThreadsGoOn | src/sound.c:263-318 | each thread has exactly one way to go on, but for the I/O thread without a free slot and the player asleep without a wakeup, which have none |
| BgmRing.EarlyFirstBatchIsStuck | src/sound.c:293-318 | such a run exists |
| Crc.TableIsBitSerial | src/system.c:319-322 | the table-driven CRC is the bit-serial CRC with polynomial 0x04C11DB7, most significant bit first, for byte strings of any length |
| CrcPolynomial.BitStepReduces | src/system.c:307-322 | one bit multiplies the register by x, adds the bit as x^32 and reduces by the generator of CRC-32, its 15 terms written out |
| CrcPolynomial.CrcIsRemainder | src/system.c:307-322 | from 0 the bit-serial CRC of any message is the remainder of its polynomial times x^32 under division by the generator |
| CrcPolynomial.FeedbackIsGenerator | src/system.c:312 | 0x04C11DB7 is the generator without its first term |
| CrcPolynomial.ByteBitsAre | src/system.c:321 | the bits of a byte go in with the highest first |
| Crc.CoveredAgreeIff | src/system.c:318-322 | what the CRC covers tells two strings apart exactly when they differ within their first 33 bytes |
| Crc.TableStepIsEightBits | src/system.c:321 | one table look-up is eight bit steps |
| Crc.FilledRightSideUp | src/system.c:307-317 | the loop with the test the wrong way round computes the entry of the complement, which is where it is stored |
| Crc.FillTable | src/system.c:307-317 | fills all 256 entries and leaves 0 as the start of the CRC |
| Crc.Crc32 | src/system.c:303-325 | the CRC of the string with its NUL, of at most 33 bytes, from initial value 0; exactly for a character above 127 among them the look-up leaves the table |
| Crc.HighCharLeavesTable | src/system.c:320-321 | a string whose first look-up is outside the table |
| Crc.IndexInTableIff | src/system.c:320-321 | the table index of a character is inside the table exactly when the character is below 128 |
| Config.NamedIsKey | src/config.c:154-166 | a name of at most 31 characters finds exactly its own key, a longer one finds nothing |
| Config.FoundAgainIff | src/config.c:285-306 | a pair just appended is found again exactly when its key has at most 31 characters |
| Config.LongKeyRepeats | src/config.c:285-306 | a longer key gets one more pair every time it is set |
| Config.SetRefines | src/config.c:285-306 | setting a short key replaces its value in place or appends it: Put on an insertion-ordered map |
| Config.SetMarksIff | src/config.c:285-306 | setting marks the set exactly for a pair that is no comment and changes, or exists and is given a value that is cut to its field |
| Config.RemoveRefines | src/config.c:372-403 | removing deletes exactly that key |
| Config.RemoveMarksIff | src/config.c:372-403 | removing marks the set exactly when it removes a pair under a key that is no comment |
| Config.MergeRefines | src/config.c:405-412 | merging is a right-biased override that keeps the order of the destination, then that of the source |
| Config.RunRefines | src/config.c:285-412 | after any run with keys of at most 31 characters the list is the insertion-ordered map with unique keys |
| Config.LookupIs | src/config.c:309-321 | a look-up answers what the map holds |
| ConfigStore.ConfigSet.AddValue | src/config.c:143-152 | appends one pair; the tail is the last node |
| ConfigStore.ConfigSet.GetItemForName | src/config.c:154-166 | finds the first node of that name |
| ConfigStore.ConfigSet.SetStr | src/config.c:285-306 | does what the set on values says, and sets the modified flag exactly for a change of a pair that is no comment |
| ConfigStore.ConfigSet.GetStr | src/config.c:309-321 | answers the value on values |
| ConfigStore.ConfigSet.RemoveKey | src/config.c:372-403 | unlinks every pair of that name, repairing head and tail |
| ConfigStore.ConfigSet.MergeFrom | src/config.c:405-412 | merges another list, which stays as it was, or the list itself |
| ConfigStore.ConfigSet.Clear | src/config.c:580-592 | empties the list and marks it modified |
| ConfigText.ReadBare | src/config.c:70-102 | a written line sets its pair, short of leading blanks, and leaves no section in force |
| ConfigText.TextReads | src/config.c:473-513 | reading the text of pairs without line feeds is merging the pairs; no section prefix is ever applied |
| ConfigSections.IndentedReads | src/config.c:481-504 | an indented pair is set under the section in force, an underscore and its key, cut to 31 characters, or under its own key when there is none |
| ConfigSections.PlainEndsSection | src/config.c:486-490 | a pair without a leading blank ends the section in force |
| ConfigSections.SectionLineReads | src/config.c:104-121 | a line without an equals sign puts the section in force whose name stands before its first colon |
| ConfigSections.OtherLinesAreIgnored | src/config.c:505-509 | without a colon, or with nothing before it, such a line changes nothing |
| ConfigSections.PartReads | src/config.c:473-513 | a section or a plain pair with the indented pairs below it sets its pairs, whatever section was in force before |
| ConfigSections.DocReads | src/config.c:473-513 | reading a text of sections and plain pairs sets every pair of a section under name, underscore and key, cut to 31 characters, and every other under its own key, in order |
| ConfigSections.ThemeReads | misc/conf_theme_OPL.cfg:1-2 | the first two lines of the built-in theme set main0_type to Background |
| ConfigRoundTrip.RoundTripIff | src/config.c:473-573 | exactly which sets come back from their text with the same pairs in the same order, comments and empty keys left out |
| ConfigRoundTrip.RoundTripFileIff | src/config.c:530-573 | the same through a file, where a byte order mark is skipped |
| ConfigRoundTrip.MarkIsLost | src/util.c:247-253 | a key that begins like a byte order mark is damaged or lost |
| ConfigRoundTrip.UnmarkedKeepsText | src/config.c:285-412 | while no operation sets the modified flag the text stays the same, so the file configWrite skips is up to date |
| ConfigFile.WriteConfig | src/config.c:546-573 | writes the text of the set exactly when it is modified, through the write buffer |
| ConfigFile.TextReadable | src/config.c:560 | every written text comes back line by line through the read buffer |
| ConfigFile.SplitAssignment | src/config.c:70-102 | key and value of a line, cut to their fields |
| ConfigFile.ReadOne | src/config.c:481-509 | one line, with the section prefix it sets, resets or applies |
| ConfigFile.ReadFileBuffer | src/config.c:473-513 | for every text the reading loop does what the fold over its lines in the window says and clears the modified flag, or ends on the null pointer exactly when a comment lacks its line feed in the window |
| ConfigFile.ReadConfigBuffer | src/config.c:515-528 | reads any text in memory whole, unless it ends in a comment without a line feed |
| ConfigFile.ReadConfig | src/config.c:530-544 | reads any file behind its byte order mark through a window of 4095 characters, or leaves the set as it was |
| TextLines.NextPieceIsFirst | src/util.c:285-374 | asking for the next line until there is none yields the lines the window makes of the text, or ends on the null pointer exactly for a text with an unended comment |
| TextLines.UnendedCommentIsLost | src/util.c:303-306 | the text of one comment without its line feed ends on the null pointer |
| TextLines.PiecesAreLines | src/util.c:285-374 | when every line fits the window its lines are those of the text, and only a comment at the very end can be unended |
| FileBuffer.ReadBuffer.Refill | src/util.c:303-333 | shifting and refilling the window loses nothing of what remains |
| FileBuffer.ReadBuffer.ReadLine | src/util.c:285-374 | through a window over any file the next line is the one the text determines, a line longer than the window coming in pieces |
| FileBuffer.WriteBuffer.Write | src/util.c:377-397 | file and buffer together are everything written so far |
| FileBuffer.WriteBuffer.Close | src/util.c:399-410 | at the end everything is in the file |

## Left out

Behaviour that the models do not contain:

* Allocation failures: every malloc, realloc and CreateSema succeeds.
* Machine words, unless a row says otherwise: sizes, counts and offsets do not wrap.
  `atlasPlace` with a width or height of SIZE_MAX, where the extra column wraps to 0, is not
  modelled; IOPRP sizes are assumed to add up to less than 2^32.
* What gsKit answers for the size of a texture, what FreeType renders, what LZ4 computes and
  what the random generator draws are parameters. The codec assumptions are
  `ZisoRoundTrip.Sound`, `RejectsCuts` and `ZsoReader.FastSound`.
* Timestamps, file systems, RPC, threads' priorities and stacks. A read delivers all that is
  asked for, up to the end of the file, and file offsets and sizes stay below 2^63.
* C strings and texts hold no NUL.
- GlyphCache.CacheGlyphKeeps: an entry names its atlas by number instead of by pointer; the colour table and the texture upload are not modelled.
- FontCache.FontSlot.CacheFlush: freeing is not modelled, unreachable nodes stay allocated.
- RequestQueue.Queue.RemoveKind: freed requests stay allocated; reading a freed request is therefore not excluded by this model.
- IoProtocol.RunKeepsInv: the termination flag, ioEnd and ioGetPendingRequestCount (which reads the head before locking) are not steps of the protocol; the section under the end lock is one step. The worker reads the head without that lock while ioPutRequest publishes a node before filling it, so that one step relies on the priorities of the threads.
- IoProtocol.DrainsAlways: bounds the steps between new calls; that a thread with an enabled step is scheduled at some time, and that new calls stop coming, is not part of the model.
- MenuPaging.MenuItem.HandleAppend: the list head in the support module and the one in the menu item are one field; the deferred queue that delivers the operations is sequential.
- MenuPaging.RunKeepsWindow: the page size D stays the same during a run and is at least 1; a theme that changes it is not modelled.
- SubmenuList.AppendItem: submenuRemoveItem, which does not repair prev, is not an operation of the model; the per-item cache ids are left out.
- IoprpPatched.PatchedDirectory: images whose directory is not the first member with contents, or whose names fill all ten characters, are not well-formed here.
- ZisoRoundTrip.RoundTripIff: a trailing partial block is dropped by both directions, so what comes back is the whole blocks; the empty image, which the decompressor refuses, is excluded.
- ZisoTool.CompressPooled: thresholds above 100 are excluded, as the option parser does; a batch size of 1 or more stands for the number of processors.
- ZisoTool.Compress: progress output, the unused `-a` option and padding that is more than one byte long are not modelled.
- ZsoReader.Reader.ReadSector: what a lost request reads and overwrites before the buffer is not modelled; requests of more than 256 sectors are excluded, because the index cache has 257 entries; memcpy with overlapping areas is the forward copy of MoveDown.
- RawReader.ReadRawData: the hard disk path needs the whole last sector to exist on the disk.
- BgmRing.SlotsAreConserved: shutdown, decoding errors and the decoder's own position are not modelled; one buffer is decoded for a batch of slots, and nothing is claimed about what the other slots of the batch hold.
- Crc.Crc32: what a look-up outside the table answers is not modelled.
- ConfigFile.WriteConfig: a file that cannot be opened for writing is not modelled.
- ConfigFile.ReadOne: lines whose key, value or prefix overflow its field write one or more bytes past it in the source; the model cuts the key and value and leaves the prefix whole.
- ConfigFile.ReadFileBuffer: what a set holds after bytes were moved from the null pointer is not modelled.
- ConfigText.TextReads: numbers and colours in values, and the legacy network file, are not modelled.

Not modelled because no property of it would be more than a restatement, or because its
invariant does not hold in the code: the texture cache lists of `src/texcache.c`, the colour
conversion of `src/config.c`, `fntFitString`, ISO scanning, dialogs, themes, pads, and the
deferred queue of `src/gui.c` under concurrency.
