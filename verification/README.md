# A verified model of the bstring library, the header map and the header text

This project models the data-handling core of a small HTTP server written in C and proves what it does:

* the mutable byte strings of `src/bstrlib.c`: their memory policy, substring search, in-place replacement,
  character sets, case-insensitive order, splitting and joining, and the buffered stream;
* the multimap of `src/hashmap.c` on the growing arrays of `src/darray.c`, which holds the HTTP headers;
* the printer of that map in `src/response.c` and its parser in `src/request.c`.

Everything that C changes in place is changed in place here: `BString`, `BStream`, `CharField`, `BstrList`,
`DArray`, `Hashmap` and `HeaderBuffer` are classes over arrays, their methods follow the C functions branch
by branch, and each method is proved against a function or predicate on values. The laws the library is for
are then lemmas about those functions, for all inputs. Each function that gives an answer has a law that says
what the answer is without the function's own body: `Replace.OutcomeIsLeftmost`, `Split.SepCallsCut`,
`Search.FirstMatchIsLeast`, `Hashmaps.DeletedPlace`, `Headers.ParsedIsRead` and others like them.

| file | contents |
|---|---|
| `Bytes.dfy`, `SnapUp.dfy`, `BString.dfy` | bytes, block moves, the power-of-two size policy, the string class |
| `Search.dfy`, `Replace.dfy` | `binstr`, `binstrcaseless`, and the three replacement algorithms |
| `CharField.dfy`, `Compare.dfy` | 256-bit character sets and their searches; `bstrcmp` and `bstricmp` as orders |
| `Split.dfy` | splitting, the callback and list machinery, joining |
| `Stream.dfy`, `StreamRuns.dfy`, `StreamSplit.dfy` | the buffered stream, whole runs of it, splitting while reading |
| `DArray.dfy`, `Hashmap.dfy`, `Headers.dfy` | the array, the multimap, header text |

## Results to look at first

* **`binstr` finds the least match.** Its scan goes on past a mismatch and looks for the pattern as a
  subsequence, two text bytes at a time. What makes it right is one invariant: wherever the pattern occurs,
  its character `j` is not before `i`. It covers the skips, the restart at `i - j` and the jump back into the
  loop (`Search.Scan`, `Search.ScanCheck`, `Search.ScanFails`).
* **Three in-place algorithms, one replacement.** Overwriting, shrinking and expanding (with a match table and
  backward moves) all leave `Replaced(...)`, for both searches and any other notion of sameness, and `Replaced` is shown to be the replacement
  of the unique leftmost disjoint choice of occurrences. The error result is exact.
* **The stream is one byte sequence.** Every read and push-back is specified on "buffered bytes, then unread
  bytes", for every chunking the core stream may choose. Over whole runs nothing is lost, duplicated or
  reordered, and line reads deliver the lines of the text whatever the chunks.
* **Splitting while reading equals splitting in memory**, call for call, for every callback result, although
  the stream version over-reads and pushes back.
* **The map refines a multiset** of bindings for every hash function and comparison: deletion removes exactly
  what a lookup would have found, in spite of swap-with-last; with sets alone the first value set wins.
* **Headers survive printing and parsing**, down to the order in each bucket, and a field is read back as
  itself exactly when it is `Printable`.

Some promises do not hold of the code on all inputs. Each is settled by the exact condition under which it
does, and by an input on which it fails:

* `bsplitstr` cuts at the leftmost occurrences of a separator of two bytes or more exactly when no two of them
  are adjacent (`Split.SplitStrIsBetween`; `"a,,,,b"` in `Split.AdjacentSeparators`).
* Header fields are read back from their printed lines exactly when all of them are printable
  (`Headers.ReadsBackExactly`, `Headers.PrintedReadsBackExactly`; the key `"A:"` in `Headers.ColonIsLost`).
* A header block is the printed map exactly when the map has a binding; for an empty one the C code appends to
  a block it never initialised (`Headers.BlockIsPrinted`; `Headers.LeftoversAreRead`). So a block is read back
  as the map exactly when there is a binding and all are printable (`Headers.BlockReadsBackExactly`).
* The block asked for last holds that text and its NUL exactly when some key or value holds a NUL, because the
  size kept is the length of the text without its NUL (`Headers.BlockFitsExactly`; `Headers.BlockTooSmall`).
* Appending byte by byte moves fewer than 2(n + 2) bytes exactly up to n = 2^30
  (`BStrings.AmortisedExactly`; `BStrings.BoundFailsFirst`).
* `bassign`, and with it `bspeek`, has room for the NUL exactly when the source is shorter than the capacity or
  than 2^30 bytes (`BStrings.AssignFits`; `BStrings.AssignLeavesNoRoom`).
* `bsreada` and `bsread` deliver as many bytes as were asked for, or all there are, for every chunking exactly
  when the read is not direct or at most one byte is to be had (`Streams.DeliversAllExactly`;
  `Streams.DirectReadFallsShort`).
* A repl that shares the block of the string and ends before `pos` is not copied, and is still there when the
  string is expanded exactly when the block need not grow (`Replace.Stays`; `Replace.SharedReplMoves`).
* `bconcat` has room for its copy exactly when the new length is not `INT_MAX` (`BStrings.ConcatFits`;
  `BStrings.ConcatWraps`).
* `bdelete` and `bmidstr` work on the clamped section exactly when their sums do not wrap, or only harmlessly
  (`BStrings.DeleteOutcomeExactly`, `BStrings.MidLengthExactly`; `BStrings.DeleteOverflows`,
  `BStrings.MidWraps`).

Signed sums that leave the range of `int` are taken to wrap round.

Where code and comments differ, the code is followed: `bninchr` and `bninchrr` with an empty set return
`BSTR_ERR` although every byte is outside that set; `bsplitscb` with no split characters shows the whole
string even when `pos` is not 0; `bsplitstrcb` with an empty separator shows each byte by itself and not the
whole string once; `bstrcmp` returns 0 for different strings that agree up to a NUL
(`Compare.StrCmpStopsAtNul`); `DArray_set` past the end moves the end to the slot and not past it; the end of
a string ranks just before NUL and after the negative `char` values in `bstricmp`.

## Model

| member | source | states |
|---|---|---|
| SnapUp.SnapUpIsLeastPow2 | src/bstrlib.c:84-107 | for 8 <= i < 2^30 the five smearing lines and the increment give the least power of two strictly above i |
| SnapUp.SnapUpKeepsLarge | src/bstrlib.c:84-107 | from 2^30 on the next power is negative as an int, and the request is returned unchanged |
| SnapUp.SmearAll | src/bstrlib.c:91-96 | the five lines copy every set bit to the 31 places below it, for every word |
| BStrings.BString.FromBlk | src/bstrlib.c:300-327 | a new string holds the block, is NUL-terminated, and has the snapped capacity |
| BStrings.BString.Balloc | src/bstrlib.c:113-177 | growing keeps the contents, yields at least the requested capacity, follows the size policy, and moves exactly the stated number of bytes; a wrapped request is refused |
| BStrings.BString.Bconcat | src/bstrlib.c:379-410 | appends the block, or fails without change exactly when the result does not fit an int; the new length INT_MAX, for which no room is made, is out |
| BStrings.ConcatFits | src/bstrlib.c:388-405 | the wrapped test leaves room for the copy and its NUL exactly when the new length is below INT_MAX |
| BStrings.ConcatWraps | src/bstrlib.c:391 | two lengths for which no capacity of the first string leaves room for the copy |
| BStrings.BString.Bconchar | src/bstrlib.c:416-428 | appends one byte, and changes the capacity and the count of bytes moved by one step of the growth policy |
| BStrings.AppendEach | src/bstrlib.c:416-428 | n one-byte appends to an empty string, for every n below INT_MAX, follow n steps of the growth policy, and move fewer than 2(n+2) bytes in all exactly when n is at most 2^30 |
| BStrings.AmortisedExactly | src/bstrlib.c:113-162 | n steps of the growth policy move fewer than 2(n+2) bytes exactly when n is at most 2^30 |
| BStrings.EveryAppendMoves | src/bstrlib.c:120-146 | from 2^30 bytes on every append moves the whole block |
| BStrings.BoundFailsFirst | src/bstrlib.c:113-162 | the bound holds at n = 2^30, and at n = 2^30 + 1 it is exceeded by 2^30 - 17 bytes |
| BStrings.BString.Bdelete | src/bstrlib.c:1126-1147 | removes the section clamped to the string, on both sides, and reports a negative length; also what a wrapped first sum makes of it |
| BStrings.DeleteOutcomeExactly | src/bstrlib.c:1126-1147 | the branches return the right code and leave the length without the clamped section exactly when the sums fit |
| BStrings.DeleteOverflows | src/bstrlib.c:1126-1147 | a section after which the length is negative, and one before the string for which everything is deleted |
| BStrings.ClampIsIntersection | src/bstrlib.c:1129-1146 | the section removed or copied is what [pos, pos+len) and the string have in common |
| BStrings.BString.Binsertblk | src/bstrlib.c:1687-1734 | inserts the block, filling a gap past the end; fails without change exactly on a negative position or an overflow |
| BStrings.InsertedByte | src/bstrlib.c:1709-1732 | every byte of the result: the text before the position, the fill in a gap, the block, and the text after it |
| BStrings.InsertThenDelete | src/bstrlib.c:1126-1147 | deleting what was inserted gives the string back |
| BStrings.Bassign | src/bstrlib.c:525-540 | the string becomes a copy of the source, NUL-terminated, under the condition of AssignFits |
| BStrings.AssignFits | src/bstrlib.c:528-538 | after balloc there is room for the NUL exactly when the source is shorter than the capacity or than 2^30 bytes |
| BStrings.AssignLeavesNoRoom | src/bstrlib.c:528-538 | 2^30 bytes get a block of 2^30 bytes |
| BStrings.Bmidstr | src/bstrlib.c:1101-1117 | a new string with the clamped section, under the condition of MidLengthExactly, and with what the wrapped sum makes of it otherwise |
| BStrings.MidLengthExactly | src/bstrlib.c:1106-1116 | the length copied is that of the clamped section exactly when the sum of the two arguments does not wrap or nothing can be copied |
| BStrings.MidWraps | src/bstrlib.c:1106-1116 | a section before the string for which the whole string is copied |
| Search.Binstr | src/bstrlib.c:1183-1271 | returns the first match at or after pos, or BSTR_ERR, including all early exits and the alias shortcut |
| Search.Scan | src/bstrlib.c:1224-1270 | the unrolled subsequence scan with its restart and jump back terminates, stays in bounds and returns the first match |
| Search.ScanOne | src/bstrlib.c:1215-1222 | the peeled-off case of a one-byte pattern |
| Search.ScanSkip | src/bstrlib.c:1231-1238 | passing a byte that is not the wanted one steps over no match |
| Search.ScanTake | src/bstrlib.c:1240-1252 | taking a wanted byte steps over no match and keeps the record of adjacency |
| Search.ScanCheck | src/bstrlib.c:1254-1263 | at N0 adjacency means the least match; otherwise no match begins before the restart point, which is further on |
| Search.ScanFails | src/bstrlib.c:1266-1270 | when the text is used up and the last-byte case does not apply, the pattern does not occur |
| Search.BinstrCaseless | src/bstrlib.c:1338-1383 | the same result as for binstr, up to case |
| Search.FirstMatchIsLeast | src/bstrlib.c:1174-1182 | the specified result is the least match at or after pos, or BSTR_ERR and there is none |
| Search.FirstMatchLocal | src/bstrlib.c:1868-1878 | a search from pos does not depend on bytes before pos, so it may run on a partly rewritten string |
| Search.ExactMatch | src/bstrlib.c:1174-1182 | an exact occurrence is a section of the text equal to the pattern |
| Search.CaselessMatch | src/bstrlib.c:1328-1337 | a caseless occurrence differs from the text at most in the case of the letters A to Z |
| Bytes.SameUpToCase | src/bstrlib.c:636-640 | two bytes are the same up to case exactly when they are equal or the two forms of one letter |
| Search.Instr | src/bstrlib.c:1814 | either search meets the contract the replacement engine needs, and so does any other that finds the first match for its own notion of sameness |
| Replace.ReplacedIsLeftmost | src/bstrlib.c:1974-1979 | the result is the text with every leftmost disjoint occurrence exchanged, for any list of places with that property |
| Replace.StitchPlaces | src/bstrlib.c:1974-1979 | where each stretch between two places and each replacement stands in the result |
| Replace.LeftmostIsUnique | src/bstrlib.c:1974-1979 | only one list of disjoint occurrences covers every occurrence from the left |
| Replace.MatchesAreLeftmost | src/bstrlib.c:1913-1942 | the places found one after the other are that list |
| Replace.ReplacedLength | src/bstrlib.c:1936-1948 | each match changes the length by the difference of the two strings |
| Replace.ReplaceBySelf | src/bstrlib.c:1974-1979 | replacing a string by itself changes nothing |
| Replace.ReplaceEqual | src/bstrlib.c:1853-1865 | overwriting in place performs the replacement |
| Replace.ReplaceShrink | src/bstrlib.c:1867-1893 | the shrinking algorithm performs the replacement and shortens the string in place |
| Replace.ShrinkStep | src/bstrlib.c:1871-1878 | after each match the rewritten prefix is final and everything from the next search position on is original |
| Replace.FindAll | src/bstrlib.c:1909-1945 | the growable table ends up holding exactly the leftmost matches; fails exactly when the table or the length overflows |
| Replace.MovePieces | src/bstrlib.c:1949-1960 | moving the pieces up from the last to the first makes the replacement without overwriting bytes still needed |
| Replace.ExpandStep | src/bstrlib.c:1949-1960 | one backward move leaves the text before the match in place and the finished tail above it |
| Replace.ReplaceExpand | src/bstrlib.c:1895-1971 | the expanding algorithm performs the replacement, or fails without change exactly when it does not fit |
| Replace.FindReplaceEngine | src/bstrlib.c:1818-1972 | result and return value for every position and every pair of strings, the string itself and parts of it included, for any search that meets the contract; a part of it put in place of something shorter must not lose its block |
| Replace.OutcomeIsLeftmost | src/bstrlib.c:1850-1965 | for every list of disjoint occurrences that covers all others from the left: all of them are replaced, unless the string grows and the list or the new length is too large |
| Replace.OutcomeElsewhere | src/bstrlib.c:1827-1832 | a position past the end changes nothing; a negative one and an empty find are errors |
| Replace.SharedReplMoves | src/bstrlib.c:1841-1849 | a replacement that shares the block of the string and ends before pos, so that it is not copied, and whose block moves |
| Replace.BfindReplace | src/bstrlib.c:1980-1982 | exact replacement from pos on |
| Replace.BfindReplaceCaseless | src/bstrlib.c:1990-1993 | caseless replacement from pos on |
| CharFields.CharField.Build | src/bstrlib.c:1506-1515 | after building, the bit test agrees with membership for all 256 bytes; an empty set is an error |
| CharFields.CharField.Invert | src/bstrlib.c:1517-1521 | after inverting, the bit test is the complement for all 256 bytes |
| CharFields.SetBit | src/bstrlib.c:1484-1492 | setting one bit changes the test of that bit and of no other |
| CharFields.FlipBit | src/bstrlib.c:1517-1521 | complementing a byte of the table flips the test of each of its bits |
| CharFields.Bstrchrp | src/bstrlib.c:1446-1456 | the least index of the byte at or after pos |
| CharFields.Bstrrchrp | src/bstrlib.c:1463-1473 | the greatest index of the byte at or before pos |
| CharFields.BinchrCF | src/bstrlib.c:1524-1533 | the least index at or after pos that passes the bit test |
| CharFields.BinchrrCF | src/bstrlib.c:1553-1562 | the greatest index at or before pos that passes the bit test |
| CharFields.Binchr | src/bstrlib.c:1541-1550 | the least index at or after pos of a byte in the set |
| CharFields.Binchrr | src/bstrlib.c:1570-1581 | the greatest index at or before pos of a byte in the set, pos one past the end included |
| CharFields.Bninchr | src/bstrlib.c:1589-1597 | the least index at or after pos of a byte outside a non-empty set |
| CharFields.Bninchrr | src/bstrlib.c:1605-1615 | the greatest index at or before pos of a byte outside a non-empty set |
| Compare.Bstricmp | src/bstrlib.c:681-710 | the loop computes the specified comparison, alias shortcut and tail rule included |
| Compare.StrICmpIsTotalOrder | src/bstrlib.c:672-680 | zero exactly on strings equal up to case, antisymmetric, transitive |
| Compare.StrICmpIsTheOrder | src/bstrlib.c:691-709 | the sign is decided at the first place where the downcased signed values differ, the end ranking just before NUL |
| Compare.StrICmpValue | src/bstrlib.c:691-709 | the value returned: the difference at the first place where the downcased bytes differ, or what the tail rule gives |
| Compare.Bstrcmp | src/bstrlib.c:1027-1052 | the loop computes the specified comparison |
| Compare.StrCmpZero | src/bstrlib.c:1013-1026 | zero exactly when the strings agree up to and including the first NUL; otherwise the sign is that of the lexicographic order there |
| Compare.StrCmpValue | src/bstrlib.c:1039-1051 | the value returned: the difference at the first place where the bytes differ or are NUL, or 1 or -1 for the longer string |
| Compare.StrCmpIsTotalOrder | src/bstrlib.c:1013-1026 | antisymmetric and transitive, and zero exactly on strings that agree up to the first NUL |
| Compare.StrCmpStopsAtNul | src/bstrlib.c:1043-1044 | two different strings that compare equal |
| Compare.StrCmpNulFree | src/hashmap.c:7-9 | against a key without NUL the comparison is zero only for the same key |
| Split.Bsplitcb | src/bstrlib.c:2928-2946 | the callback, any function of the calls it has had, sees every piece with its offset, in order, up to the first negative result, which is returned |
| Split.Bsplitscb | src/bstrlib.c:2964-2994 | the same for a set of split characters, from pos on; with none the whole string is shown once |
| Split.Bsplitstrcb | src/bstrlib.c:3012-3042 | the same for a separator string, with the extra byte skipped after each match |
| Split.SetCallsCut | src/bstrlib.c:2964-2994 | the calls of bsplitscb show the sections of the string from pos on between the bytes of the set |
| Split.CutAtCharsOnce | src/bstrlib.c:2928-2946 | and only one list of calls does |
| Split.SepCallsCut | src/bstrlib.c:3012-3042 | the calls of bsplitstrcb from pos on: one byte each without a separator, the sections between the bytes equal to a separator of one byte, and otherwise the sections between the occurrences found when the search goes on one byte after each |
| Split.MadeInOrder | src/bstrlib.c:2936-2945 | the calls are made in order up to the first negative result, which is returned |
| Split.BstrList.Bscb | src/bstrlib.c:3049-3072 | appends the section to the list, through every doubling, or fails without change exactly when a full list cannot be doubled |
| Split.MadeByList | src/bstrlib.c:3049-3072 | a list of its own takes all the calls, or stops at the first one past 2^30 |
| Split.Bsplit | src/bstrlib.c:3079-3102 | the list of pieces between the split characters; NULL exactly when there are more than 2^30 |
| Split.Bsplits | src/bstrlib.c:3140-3164 | the list of pieces between characters of the set, one piece if the set is empty; NULL exactly when there are more than 2^30 |
| Split.Bsplitstr | src/bstrlib.c:3109-3132 | the list of pieces for a separator string; NULL exactly when there are more than 2^30 |
| Split.SplitStrShows | src/bstrlib.c:3109-3132 | the pieces are those the calls of bsplitstrcb show |
| Split.SplitStrAtByte | src/bstrlib.c:3028-3029 | with one byte for a separator there is one piece more than it occurs, and none holds it |
| Split.SplitStrAtNothing | src/bstrlib.c:3020-3026 | without a separator each byte is a piece |
| Split.JoinAfterSplit | src/bstrlib.c:2663-2667 | joining what bsplitstr makes gives the string back, for every separator, the empty one included |
| Split.JoinPieces | src/bstrlib.c:2928-2946 | joining the pieces with the split character gives the string back |
| Split.SplitAfterJoin | src/bstrlib.c:2928-2946 | splitting a joined non-empty list of entries without the character gives the list back |
| Split.PiecesAreFree | src/bstrlib.c:2964-2994 | no piece holds a split character |
| Split.PieceCount | src/bstrlib.c:2964-2994 | there is one more piece than there are split characters |
| Split.SplitStrIsBetween | src/bstrlib.c:3031-3041 | bsplitstr cuts at the leftmost occurrences exactly when none of them is directly followed by another |
| Split.AdjacentSeparators | src/bstrlib.c:3031-3041 | an input on which a piece keeps a separator inside |
| Split.Bjoinblk | src/bstrlib.c:2591-2655 | the size computed in advance is filled exactly by the join; NULL exactly when it does not fit an int, wrapped products included |
| Split.WrapIsCaught | src/bstrlib.c:2627-2632 | dividing the product back detects every overflow of the separator total |
| Split.Bjoin | src/bstrlib.c:2663-2667 | joins the entries with the separator string |
| Split.ReplaceIsSplitJoin | src/bstrlib.c:1980-1982 | replacing one byte everywhere is splitting at it and joining with the replacement |
| Streams.Bsreadlna | src/bstrlib.c:2289-2352 | appends exactly the bytes up to and including the first terminator of buffer and source, or all of them; the rest stays pending; the result and isEOF are exact; for every chunking and buffer size |
| Streams.Bsreadlnsa | src/bstrlib.c:2361-2431 | the same for a set of terminators; an empty set is an error that changes nothing |
| Streams.Bsreadln | src/bstrlib.c:2514-2521 | the line replaces what the string held |
| Streams.Bsreadlns | src/bstrlib.c:2530-2542 | the same for a set of terminators |
| Streams.ScanChar | src/bstrlib.c:2303-2307 | the sentinel scan stops in bounds, at the first terminator or at the sentinel, and changes nothing before it |
| Streams.PushBack | src/bstrlib.c:2345-2351 | what was read past the terminator becomes the new buffer |
| Streams.LineAt | src/bstrlib.c:2338-2341 | chunks without terminator followed by one up to its first terminator make the line |
| Streams.Bsreada | src/bstrlib.c:2441-2505 | appends a prefix of what is pending: n bytes or all there are, and what the source offers of that if the single direct read was tried; having touched the source it leaves the buffer empty |
| Streams.DeliversAllExactly | src/bstrlib.c:2433-2440 | n bytes or all there are come for every chunking exactly when the read is not direct or at most one byte is to be had |
| Streams.DirectReadFallsShort | src/bstrlib.c:2461-2471 | a chunking for which a direct read of two bytes delivers one |
| Streams.ReadThrough | src/bstrlib.c:2473-2504 | the refilling loop never reads more from the source than is still wanted |
| Streams.Bsread | src/bstrlib.c:2552-2559 | the same, and the block replaces what the string held |
| Streams.Bsunread | src/bstrlib.c:2567-2571 | the bytes come before everything pending, or nothing changes |
| Streams.Bspeek | src/bstrlib.c:2578-2582 | shows the buffered bytes, a prefix of what is pending, and changes nothing; under the condition of bassign |
| Streams.BStream.Bseof | src/bstrlib.c:2256-2260 | when it reports the end, nothing is pending |
| Streams.BStream.Bsbufflength | src/bstrlib.c:2246-2254 | sets the read size and returns the previous one |
| StreamRuns.RunOps | src/bstrlib.c:2282-2582 | any list of operations makes a run of the abstract stream, and delivered and pending bytes are conserved |
| StreamRuns.Conserved | src/bstrlib.c:2282-2582 | over every run, delivered plus pending is the original text with pushed-back bytes put in where they were pushed back |
| StreamRuns.ReadsPartition | src/bstrlib.c:2282-2582 | without push-back, delivered plus pending is always the original text |
| StreamRuns.LineRuns | src/bstrlib.c:2507-2521 | the k-th line read delivers the k-th line of the text, whatever the chunks, and nothing after the last |
| StreamRuns.LinesAreTheText | src/bstrlib.c:2507-2521 | the lines together are the text |
| StreamRuns.LineShape | src/bstrlib.c:2507-2521 | a line has no terminator but its last byte, and only the last line may lack it |
| StreamSplit.Bssplitscb | src/bstrlib.c:2689-2743 | makes exactly the calls of bsplitscb on the whole text, up to the first negative result, and leaves the stream right after the last piece |
| StreamSplit.CutPiece | src/bstrlib.c:2720-2736 | pushing back what follows the split character and showing the piece advances the split by one call |
| StreamSplit.SplitBothWays | src/bstrlib.c:2671-2688 | the same bytes split in memory and while reading, with any buffer size, give the same calls and result |
| DArrays.Create | src/darray.c:5-24 | an empty array with room, or NULL if the capacity is not positive |
| DArrays.DArray.Push | src/darray.c:85-94 | appends and keeps room for the next push, expanding when the last slot is used |
| DArrays.DArray.Pop | src/darray.c:96-110 | removes and returns the last slot, contracting exactly when more than 300 are left and not a multiple of 300; an empty array yields NULL |
| DArrays.DArray.Expand | src/darray.c:52-63 | gains 300 slots and keeps the live ones |
| DArrays.DArray.Contract | src/darray.c:65-70 | shrinks to one slot more than needed, at least 301, and keeps the live ones |
| DArrays.DArray.Resize | src/darray.c:37-50 | a new capacity keeps every slot that fits; one that is not positive is stored and refused |
| DArrays.DArray.Set | src/darray.h:40-47 | writes one slot below the capacity and moves the end to it if it lies past the end |
| DArrays.DArray.Get | src/darray.h:49-54 | reads one slot below the capacity, NULL otherwise |
| DArrays.DArray.Remove | src/darray.h:56-60 | empties one slot and returns what it held |
| DArrays.RunOps | src/darray.c:37-110 | any history of pushes, pops and sets, at any index, goes through states that follow one from the other by the step of each operation |
| DArrays.AlwaysOpen | src/darray.c:85-110 | in every history there is always room for the next push |
| DArrays.SlotKept | src/darray.c:37-110 | a slot that stays live and is not set keeps its value through every expansion and contraction |
| DArrays.IsPlainList | src/darray.h:40-47 | as long as nothing is set strictly between the end and the capacity, the live slots are those of a plain list |
| Hashmaps.Hashmap.MakeBucket | src/hashmap.c:89-108 | the bucket of the key exists afterwards and no binding changes |
| Hashmaps.Hashmap.GetNode | src/hashmap.c:126-138 | the first node in the bucket that answers to the key |
| Hashmaps.Hashmap.Set | src/hashmap.c:110-124 | adds one binding at the end of its bucket, even for a key already there, and nothing else |
| Hashmaps.Hashmap.Get | src/hashmap.c:140-156 | the data of the binding found, or NULL |
| Hashmaps.Hashmap.Delete | src/hashmap.c:179-200 | removes exactly the binding that Get would find and returns its data; all other bindings stay |
| Hashmaps.DropNode | src/hashmap.c:189-197 | the last node takes the place of the removed one unless it is that node |
| Hashmaps.LookupFindsLive | src/hashmap.c:126-156 | a lookup finds something exactly when a live binding answers to the key, and what it finds is one |
| Hashmaps.PlacedByHash | src/hashmap.c:89-94 | every node is in the bucket hash % 100 of its key, so a traversal goes by that number |
| Hashmaps.LookupPlace | src/hashmap.c:126-156 | a lookup finds the first node that answers to the key in the bucket of the hash |
| Hashmaps.InsertedPlace | src/hashmap.c:110-124 | an insertion appends to the bucket hash % 100 and leaves the others |
| Hashmaps.DeletedPlace | src/hashmap.c:179-200 | a deletion puts the last node of the bucket in the place of the first that answers, and leaves the rest |
| Hashmaps.DeleteTakesTheFound | src/hashmap.c:179-200 | deletion takes one copy of the found binding out of the multiset and keeps every binding in its bucket |
| Hashmaps.InsertAddsOne | src/hashmap.c:110-124 | insertion adds one binding to the multiset and keeps every binding in its bucket |
| Hashmaps.FirstSetWins | src/hashmap.c:110-156 | in every history of sets alone a lookup finds the first binding set for the key |
| Hashmaps.DefaultHit | src/hashmap.c:7-28 | with the default comparison a key without NUL is answered only by itself, whatever the hash |
| Headers.HeaderBuffer.TraverseNode | src/response.c:227-260 | appends one "key: value" line; the size grows by the lengths of key and value and 4; the block asked for holds the text and its NUL |
| Headers.CStrIsPrefix | src/response.c:252 | what %s shows: the bytes before the first NUL |
| Headers.Traverse | src/hashmap.c:158-177 | prints every binding once, bucket by bucket and in bucket order; without any, the block stays as it was found |
| Headers.CountedIsLength | src/response.c:233-246 | the size kept beside the text is its length exactly when no key or value holds a NUL, and larger otherwise |
| Headers.HeaderBlock | src/response.c:295-309 | what the map printed, or the text the memory held if it printed nothing, followed by the blank line, and the size asked for it |
| Headers.BlockIsPrinted | src/response.c:297-305 | the block is the printed map and the blank line, whatever the memory held, exactly when the map has a binding |
| Headers.BlockFitsExactly | src/response.c:303-305 | the block, that of an empty map included, holds its text and NUL exactly when some key or value holds a NUL |
| Headers.BlockTooSmall | src/response.c:303-305 | a field whose block is one byte short |
| Headers.ParseHeaders | src/request.c:29-77 | inserts the fields of the text in order, returns their number and the place where parsing stopped |
| Headers.ParseLine | src/request.c:40-69 | one line gives one field, cut at the first colon, spaces skipped, truncated to 255 bytes, or none |
| Headers.LineFieldsGiven | src/request.c:47-69 | with a colon: the key is the first 255 bytes before the first one, and the value the first 255 bytes after it and the spaces that follow, up to the line end; without one, nothing |
| Headers.ParsedIsRead | src/request.c:29-77 | the fields are what the lines give one after the other, up to the blank line, the end of the text or a line that does not end |
| Headers.FieldReadsBack | src/request.c:33-72 | a printable field is read back from its printed line, wherever it stands and whatever follows |
| Headers.FieldsReadBack | src/request.c:29-77 | a printed list of printable fields and a blank line parse to the list and stop at the blank line |
| Headers.ReadsBackExactly | src/request.c:33-72 | a field is read back from its own printed line exactly when it is printable |
| Headers.ColonIsLost | src/request.c:49-60 | a key with a colon, and the different field it is read as |
| Headers.ParsedArePrintable | src/request.c:29-77 | only printable fields are ever read from a text |
| Headers.PrintedReadsBackExactly | src/request.c:29-77 | a printed list and a blank line, with anything after them, parse to the list and stop at the blank line exactly when all its fields are printable |
| Headers.Rebuild | src/hashmap.c:110-124 | inserting the bindings in traversal order rebuilds the same buckets in the same order |
| Headers.PrintThenParse | src/response.c:295-309 | printing a map with a binding and parsing the text, with anything after it, into an empty map gives the same map exactly when every field is printable, and then its number of bindings and the end of the block; an empty map gives what the leftovers parse to |
| Headers.BlockReadsBackExactly | src/response.c:297-305 | a block parses to its fields, whatever the memory held and whatever follows, exactly when there is a field and all are printable |
| Headers.LeftoversAreRead | src/response.c:297-305 | memory whose leftovers are read as a field that no map had |

## Left out

- Sizes: lengths stay below `INT_MAX`; where a C function reports an overflow the model reports it under the same condition.
- `BStrings.BString.Bconcat`: what follows when its condition fails is not modelled beyond the lemma that gives the condition.
- `BStrings.BString.Bdelete`: what follows when the sum of a position inside the string and the length wraps is not modelled beyond the lemma that gives the condition.
- `BStrings.Bassign`: what follows when its condition fails is not modelled beyond the lemma that gives the condition.
- `Streams.Bspeek`: what follows when its condition fails is not modelled beyond the lemma that gives the condition.
- `Streams.Bsreadlna`: all bytes that can still arrive, and one chunk more, fit an `int` together with what the destination holds.
- `Streams.Bsreadlnsa`: all bytes that can still arrive, and one chunk more, fit an `int` together with what the destination holds.
- `Streams.Bsreada`: all bytes that can still arrive, and one chunk more, fit an `int` together with what the destination holds.
- `Streams.Bsreadln`: all bytes that can still arrive, and one chunk more, fit an `int`.
- `Streams.Bsreadlns`: all bytes that can still arrive, and one chunk more, fit an `int`.
- `Streams.Bsread`: all bytes that can still arrive, and one chunk more, fit an `int`.
- `StreamRuns.RunOps`: all bytes a run can bring in, and one chunk more, fit an `int`; in a run that peeks they are fewer than 2^30.
- `StreamSplit.Bssplitscb`: all pending bytes and one chunk fit an `int`; callbacks leave the stream alone, because the comparison with the in-memory split is only promised then.
- `Split.Bsplitcb`: callbacks do not change the string while it is split.
- `Split.Bsplitscb`: callbacks do not change the string while it is split.
- `Split.Bsplitstrcb`: callbacks do not change the string while it is split.
- Allocation: it always succeeds, so the fall-backs to a tighter block and the NULL results for lack of memory are not modelled; `free` and ownership are not modelled.
- NULL arguments and detectably invalid headers: strings and streams are non-null and valid, so the first checks of each C function do not appear.
- `Replace.FindReplaceEngine`: what is read from the block after it has moved away from under repl is not modelled; the condition for that is `Replace.Usable`.
- `Replace.BfindReplace`: what is read from the block after it has moved away from under repl is not modelled; the condition for that is `Replace.Usable`.
- `Replace.BfindReplaceCaseless`: what is read from the block after it has moved away from under repl is not modelled; the condition for that is `Replace.Usable`.
- Aliasing: a block that a function only copies from is passed by value, which is what the copies made on overlap achieve. The shortcuts for equal data pointers in the searches and comparisons are modelled.
- `Streams.Source`: the core stream delivers any positive number of bytes up to the request, as a function of what is left, and 0 only at its end; negative and over-long results of `readFnPtr` are not modelled.
- `Split.BstrList`: the entries are held by value, so the separate memory of each entry is not modelled.
- `Replace.Grow`: the table has exactly the entries that are used; the C code asks for `sizeof(int *)` bytes each.
- `Headers.Traverse`: the callback fails only for lack of memory, so it always goes through the whole map.
- `DArrays.DArray.Resize`: slots gained by a resize hold arbitrary values, so the partial clearing in `DArray_expand` is not modelled; nothing reads those slots.
- `Hashmaps.Hashmap`: keys and data are held by value, the hash is any function (the default one is not modelled), and a key is not changed while it is in a map.
- `Headers.ParseHeaders`: works on the text before the terminating NUL.
- `bssplitstrcb`: its end-of-stream check shows the last chunk without searching it, so it refines no in-memory split.
- `bstrnicmp`: returns a raw byte difference after a downcased test, so it is no order.
- `bpattern`, `binstrr`, `binstrrcaseless`, `breplace`, `bsetstr`, trimming, case conversion and the `biseq` family: they would only add easy members.
- `bformat` and its family, the macros of `bstrlib.h`, sockets, files, compression, logging, request line parsing and the raw response buffer: outside calls or byte shuffling.
