# FRF: a verified model

FRF turns a content template and rows of field values into one file, from which a reader
renders any row again. `frf_maker.c` compiles the template into cells, and for every row
appends words to three growing streams (strings, row shapes, rows), sharing strings and
shapes. `frf.c` maps the finished file, steps from row to row or seeks, and renders.

The main result is that nothing is lost on the way, but for one bit: for every template,
every list of rows and every pattern of dropped caches, `RoundTrip.Publish` writes a file
exactly when each row meets a condition on the template and the rows alone, and then the
row read back at the offset that adding it returned, or reached by stepping, is what
replacing the tags in the template's text gives on that row, exactly when the row has no
four-byte string whose last byte is 0x80 or more (and no NUL in a short string, which a C
string cannot have). `RoundTrip.PublishAndFetch` says this as one statement, from template
and rows to rendered text. `Substitution.SourceText` says what replacing means, without cells
or items.

| file | what it holds |
|---|---|
| `Sequences`, `Bytes`, `Codec` | bytes, big-endian words, the tagged word that stands for a string |
| `Transform`, `Printer`, `Evaluator` | transform expressions: scanner, grammar, printer, evaluation |
| `Substitution` | what a template means on a row, in terms of its text alone |
| `Template`, `Program` | a loaded template, the interpreter of its items, the flat walk a worklist takes |
| `Streams`, `Cells`, `Progress`, `Maker` | the three streams and `frf_maker.c`, which appends to them |
| `Reading`, `Reader`, `RoundTrip` | what a file says, `frf.c`, and both programs end to end |
| `Arena` | the chunked allocator of `frf_malloc.c` |
| `Bits`, `Chains`, `HashTable`, `TableRuns` | the hash table of `uthash.h` |
| `Nodes`, `MergeSort`, `DList` | the lists of `utlist.h` and their merge sort |
| `Limits` | inputs on which the program does less than it promises |

Streams are sequences of bytes. `htonl` and `ntohl` are big-endian packing, and a
`uint32_t` keeps what `Bytes.Wrap` keeps; theorems about files ask that each stream stays
below 2^31 bytes and that the row stream starts below 2^32 (`Reading.Addressable`). Transform
functions are arbitrary functions on byte strings that may answer NULL; a hash function is an
arbitrary function of the key. A template comes as it is after loading, with each content
string already split at its tags. An error exit, a NULL dereference and an access outside an
array are outcomes of the model, not preconditions.

The source's README gives `3 << 30` as the word for "take the value from the row". The code
writes and tests zero (frf_maker.c:560, frf.c:103), and the model follows the code.

## Findings

Four promises fail as the code stands. Each has an input and an exact condition.

- **The last byte of an inline string.** A string of at most four bytes is kept inside its
  word, and the tag takes the top bit of the byte that holds the fourth character
  (frf_maker.c:164-167, frf.c:110-118). `Limits.FourthByteLost` is an input;
  `Codec.StoredIsExact` says exactly which strings survive, `RoundTrip.FetchedIsMeaning` which rows.
- **The larger memo is never used.** When content compiled in the middle of a row brings new
  tags, a larger copy of `results` is made but never assigned to it, and the tail is cleared
  past the end of the old one (frf_maker.c:761-765). The allocator rounds up the block that the
  old memo was given, so some new tags have room in it. As for arrays, any access past the block
  is a fault in the model, whatever the program would go on to do. `Limits.MemoTooSmall` is an
  input, a row with a value for every field; `Maker.FrfMaker.Add` accepts a row, ready in every
  other way, exactly when `MemoFits` holds. `Progress.MemoIsBlock` says what room there is, and
  `Limits.RoomForFour` that one tag before the row makes room for four and no more.
- **Quotes are lost in printing.** The printer writes a string literal without its quotes
  (frf_transform.y:132-133). `Limits.QuotesLost` is an input; `Printer.PrintThenCompile` says
  exactly which trees come back.
- **frf_next does not stop.** It answers 1 when it lands on the end of the file (frf.c:159).
  On a finished file that is every call: `RoundTrip.NextNeverStops`, which also says that the end
  is reached from the last row and from no other. The end is recognised by
  `Reader.Frf.Iovec` answering -1.

One more thing was read in the source and is not in the model: a node of dynamic content is
entered in its table under a key that belongs to the JSON tree (frf_maker.c:120), and that tree
is released when loading ends (frf_maker.c:500). Content compiled later, in the middle of a row,
looks names up in that table (frf_maker.c:256). The model takes the lookup as sound.

## Model

| member | source | states |
|---|---|---|
| RoundTrip.PublishAndFetch | frf.c:65-140 | from template and rows to rendered text: a row fetched at its offset and the row reached by stepping give the same text, and it is what the interpreter answers, and what substituting in the template's text gives, iff all the row's strings survive, if the streams are addressable and the row has at most IOV_MAX cells |
| RoundTrip.Publish | frf_maker.c:721-831 | a file is written iff the body compiles and every row is ready and fits its memo; if the streams are addressable, every row of it is faithful, stepping ends at the end of the file, and shape records are shared and counted right |
| RoundTrip.FetchedIsMeaning | frf.c:65-140 | the rendering at the offset that adding a row returned is the interpreter's answer iff all the row's strings survive; the same place is reached by that many steps |
| RoundTrip.FileIsComplete | frf_maker.c:571-604 | a file laid out as frf_maker_finish does reads back, row by row, as what its template means |
| RoundTrip.FetchAt | frf.c:189-223 | opening, seeking, sizing and rendering gives the row's text |
| RoundTrip.FetchNth | frf.c:153-169 | opening and stepping i times gives the text of row i and its offset |
| RoundTrip.NextNeverStops | frf.c:153-164 | on every row of a finished file frf_next answers 1; it lands on the end iff the row is the last |
| RoundTrip.MeaningIs | frf_maker.c:747-814 | the meaning of a row does not depend on the bound on nesting, once it suffices |
| RoundTrip.MeaningIsTexts | frf_maker.c:773-813 | the interpreter answers iff every item on the walk has a string, and then with the cells' strings in a row |
| RoundTrip.MeaningIsTemplateText | frf_maker.c:285-366 | the meaning of a row is what substituting in the text of the template's body gives |
| Substitution.InterpretSubstitutes | frf_maker.c:285-366 | a source means the text before each tag, then what the tag's key stands for, piece by piece, and then its tail; a key stands for its macro's value first, then for a field, dynamic content, an expression, or nothing |
| Substitution.ChoiceMeans | frf_maker.c:748-755 | dynamic content means the source that its map gives for the value of its field, its default iff the map has none for it |
| Substitution.KeysAre | frf_maker.c:314-351 | the tags of a source are its macro-expanded keys, less those that stand for nothing |
| RoundTrip.StoreAll | frf_maker.c:151-211 | whatever strings are stored and whenever the cache is dropped, each word returned denotes its string in the final table |
| Program.InterpretIsTrace | frf_maker.c:747-814 | direct recursion and the flat walk give the same text, or none, on every template and row |
| Program.Splice | frf_maker.c:757-771 | putting the selected cells in front of the rest keeps what is still to come |
| Program.WorklistEmptiesIffFinite | frf_maker.c:747-814 | the loop over the worklist ends iff the row's recursive substitution is finite |
| Program.RankedIsFinite | frf_maker.c:747-771 | content that refers to lower-ranked content only is finite on every row |
| Maker.FrfMaker.Add | frf_maker.c:721-831 | a row is written iff all its items are ready and its tags fit the memo; returns the old length of the row stream, which grows by one word and one for every field and expression met; all streams only grow and every invariant stays |
| Maker.FrfMaker.Expand | frf_maker.c:745-814 | cells and words laid out by the worklist denote the texts of the row's walk, in order |
| Maker.FrfMaker.CellWord | frf_maker.c:773-793 | the word taken from the memo, or made anew and put there, denotes the item's string on this row; fails iff it has none; a word in the memo is used as it is and adds nothing to the table |
| Maker.FrfMaker.ChoiceSource | frf_maker.c:749-755 | the alternative for the field's value, the default iff there is none |
| Maker.FrfMaker.EnterSource | frf_maker.c:757-765 | the cells of a selected source match its items; exits iff a key does not compile, and faults iff it is empty or its tags exceed the memo |
| Maker.FrfMaker.AddToStringTable | frf_maker.c:151-211 | the word denotes the string; what is appended and what the cache then holds, dropped or not |
| Maker.FrfMaker.Precompile | frf_maker.c:285-366 | fails iff an expression does not compile; otherwise the cells match the source's items and tags keep distinct memo slots; a source already compiled changes nothing |
| Maker.FrfMaker.CompileContent | frf_maker.c:368-391 | gives the cells of a source, compiled once |
| Maker.FrfMaker.TagCells | frf_maker.c:329-354 | a tag key has one memo slot for good, and the cell of what it stands for |
| Maker.FrfMaker.CompileFirst | frf_maker.c:496 | compiling the body when the template is loaded |
| Maker.FrfMaker.AddUniqVector | frf_maker.c:505-569 | a shape that is known keeps its record, another gets one at the end of the stream |
| Maker.FrfMaker.WriteRow | frf_maker.c:816-830 | one row more in the row stream, nothing before it changed |
| Maker.FrfMaker.Finish | frf_maker.c:571-593 | header and streams, in this order |
| Maker.FrfMaker.constructor | frf_maker.c:461-490 | a new maker satisfies every invariant |
| Progress.LeafStep | frf_maker.c:773-812 | consuming a cell keeps the worklist, the memo and what is laid out in agreement with the walk |
| Progress.ChoiceStep | frf_maker.c:748-771 | so does splicing, with tags that the content brings |
| Progress.ChoiceStuck | frf_maker.c:748-771 | a choice that fails makes the whole row one that is not accepted |
| Progress.MemoIsBlock | frf_maker.c:745 | the memo fills the block that the allocator gives for it, in any state of the arena, and that block overlaps no other |
| Progress.MemoExtend | frf_maker.c:757-765 | clearing the slots of new tags keeps every other slot's meaning |
| Progress.RowsGrow | frf_maker.c:151-211 | rows already written keep their meaning as strings and shapes are added |
| Progress.RowAdded | frf_maker.c:816-828 | writing a row keeps what holds of all streams and rows |
| Codec.PackInline | frf_maker.c:163-172 | the in-word form of a short string |
| Codec.StoredIsExact | frf_maker.c:163-172 | a string comes back iff it survives, and is never longer |
| Codec.RecordIs | frf_maker.c:196-206 | a record is its length in one byte below 128, in four bytes with the top bit from 128 on, and the string |
| Codec.DecodeInline | frf.c:110-121 | every inline word reads as what is stored for its string |
| Codec.DecodeRecord | frf.c:122-134 | every short and long record reads as its string |
| Codec.DecodeGrows | frf_maker.c:196-206 | what a word reads as stays, as the table grows |
| Streams.CacheHit | frf_maker.c:179-184 | a cached offset denotes the string it is cached for |
| Streams.CacheAdd | frf_maker.c:187-206 | every cache entry names a record that holds its key's bytes |
| Streams.ShapesAdd | frf_maker.c:537-566 | shapes and records stay in one-to-one correspondence |
| Reading.RowReads | frf.c:65-140 | a row reads as what is stored for its texts |
| Reading.WalkMeetsRows | frf.c:153-164 | i steps from the first row lead to row i |
| Reading.PositionsRise | frf.c:73-75 | the last step, and no other, leads to the end of the file |
| Reading.LaidHeader | frf.c:33-40 | the header leads to the three streams and counts the rows |
| Reading.FileIs | frf_maker.c:582-593 | the four header words, and then strings, shapes and rows one behind the other |
| Reading.SharedIffEqual | frf_maker.c:518-566 | two rows point to one record iff their shapes are equal |
| Reading.RowsShare | frf_maker.c:533-566 | the same of the shapes as they are read from the file |
| Reading.CountsInRecord | frf_maker.c:548-554 | a record's second word is the number of zeros in the shape and of the row's own words |
| Reading.RowCounts | frf.c:157-159 | that word is what leads from the row to the next |
| Reading.ExactIffSurvive | frf.c:110-134 | the text of a row comes back iff each of its strings survives |
| Reader.Frf.Iovec | frf.c:65-140 | -1 at the end, otherwise one entry for each text, all good at the same time |
| Reader.Frf.Inline | frf.c:110-121 | an unpacked string lies in a block of its own, and no entry made before changes |
| Reader.TableVecIs | frf.c:122-134 | a record's entry covers exactly the record's text in the file |
| Reader.Frf.Next | frf.c:153-164 | where the row pointer goes and what is answered |
| Reader.Frf.Seek | frf.c:189-196 | where the row pointer goes; -1 iff that is at or past the end |
| Reader.Frf.GetRenderSize | frf.c:171-187 | the length of the row's text |
| Reader.Frf.RenderToBuffer | frf.c:198-223 | copies as many texts as fit and nothing else; answers the length iff all did |
| Reader.FitsIff | frf.c:198-223 | rendering succeeds iff the row has no cells or the buffer has the size asked for |
| Transform.ParserDecidesGrammar | frf_transform.y:37-122 | the parser accepts exactly the sentences of the grammar, with the tree that the grammar gives |
| Transform.NextIsLongestEarliest | frf_transform.l:10-21 | the scanner takes the longest match of any pattern, the earliest pattern among equally long ones, with that pattern's token; where none matches it skips one byte |
| Transform.ScanIsCuts | frf_transform.l:10-21 | every text is cut to its end, in exactly one way, into longest matches and bytes that no pattern matches, and the tokens are what the patterns return, in order |
| Transform.CompileAnswers | frf_transform.y:213-230 | a tree for the sentences of the grammar, NULL exactly for a text without tokens, no answer for any other |
| Printer.PrintThenCompile | frf_transform.y:125-145 | compiling what was printed gives the same tree iff names and strings are identifiers that resolve as before |
| Printer.PrintSpells | frf_transform.y:125-145 | whatever tokens a tree was parsed from, printing it writes them all, in order, without quotes, and nothing else |
| Evaluator.ExecExpression | frf_transform.y:176-206 | the loop over the arguments computes the recursive evaluation, NULL and the hundred-slot array included |
| Evaluator.CallValue | frf_transform.y:187-199 | if at most a hundred arguments all have values, a call is the function on these values in order, NULL where that is NULL |
| Evaluator.CallStops | frf_transform.y:189-197 | the first argument that is NULL or a fault is the answer; a hundred and first is a fault |
| Evaluator.LeafValue | frf_transform.y:181-186 | a string is itself, a field the row's value |
| Arena.Allocator.constructor | frf_malloc.c:6-23 | one empty chunk of the size asked for, or of 32 bytes if that is more |
| Arena.Allocator.Malloc | frf_malloc.c:74-118 | bumps the tail or appends a chunk; the block overlaps no other in use |
| Arena.Allocator.Reset | frf_malloc.c:120-138 | only the tail chunk stays, empty |
| Arena.Allocator.Place | frf.c:113-118 | filling a new block changes no other block in use |
| Arena.BlocksAreSafe | frf_malloc.c:74-118 | whatever is asked for, blocks are aligned, large enough, inside their chunks and disjoint |
| Arena.GrowStep | frf_malloc.c:92-110 | a new chunk is at least twice the last and large enough |
| Arena.Footprint | frf_malloc.c:82-112 | chunk bytes are the head chunk's or at most four times the bytes handed out |
| Arena.SteadyState | frf_malloc.c:92-138 | replayed requests add at most one chunk in the second round and none later |
| HashTable.Table.Find | uthash.h:84-95 | finds the element of a key iff the map has one |
| HashTable.Table.Add | uthash.h:152-175 | adds to the map, last in insertion order, and keeps the table sound |
| HashTable.Table.Delete | uthash.h:194-227 | removes from the map and the order, and keeps the table sound |
| HashTable.Table.AddToBucket | uthash.h:582-593 | the buckets double iff the chain reaches its threshold and doubling has not been given up |
| HashTable.Table.Expand | uthash.h:637-683 | twice the buckets, the same items, exact ideal length, multipliers and nonideal items; when doubling is given up |
| HashTable.Table.MakeTable | uthash.h:130-150 | a new table of 32 buckets |
| HashTable.Table.Fsck | uthash.h:251-301 | every check passes on a sound table |
| HashTable.Table.UnlinkOrder | uthash.h:203-221 | the insertion order without one item, its links and ends right |
| Chains.PushFront | uthash.h:582-589 | an item hung in front of its chain, all other chains as they were |
| Chains.Unhang | uthash.h:596-606 | an item taken off its chain, all other chains as they were |
| Chains.Redistribute | uthash.h:651-673 | every item in the chain of its bucket among twice as many, counts right |
| Chains.LinkedDistinct | uthash.h:265-274 | a chain that ends meets no item twice |
| Bits.HashToBkt | uthash.h:177-180 | the masked hash is a bucket |
| Bits.Divides | uthash.h:177-180 | mask and shift by a power of two are remainder and quotient |
| Bits.CeilingIsLeast | uthash.h:648-650 | shift and mask give the least bucket length that holds all items, at least 1 |
| TableRuns.Run | uthash.h:84-227 | after any run of adds of absent and deletes of present keys the table is sound and lists the right keys in insertion order |
| TableRuns.PresentIffLastPut | uthash.h:152-227 | a key is in that list, once, iff the last operation on it put it there |
| DList.List.Append | utlist.h:412-424 | the list with one node more at the end, all links right |
| DList.List.Delete | utlist.h:441-457 | the list without one node, all links right |
| DList.List.Sort | utlist.h:158-214 | a sorted, stable rearrangement for every total preorder, all links right; it ends |
| DList.List.PassOnce | utlist.h:170-208 | one pass merges neighbouring runs and counts the merges |
| DList.List.MergeRuns | utlist.h:188-206 | relinking two runs in place gives their stable merge |
| MergeSort.MergeStable | utlist.h:188-206 | among nodes of equal rank those of the first run come first, in their order |
| MergeSort.PassDoublesRuns | utlist.h:170-212 | a pass takes sorted runs of a width to sorted runs of twice the width |
| MergeSort.OneMerge | utlist.h:209-211 | at most one merge iff the list is no longer than two runs |
| MergeSort.OnlyOne | utlist.h:158-214 | sorted and stable determine the arrangement |
| Limits.FourthByteLost | frf_maker.c:164-167 | a string whose word reads as another string |
| Limits.QuotesLost | frf_transform.y:132-133 | the tree that a quoted blank compiles to, which does not come back from its print |
| Limits.RoomForFour | frf_maker.c:745-765 | with one tag before it, a row that is ready and selects k more is accepted iff k is at most 3 |
| Limits.MemoTooSmall | frf_maker.c:761-765 | a row with a value for every field, ready in every other way, whose tags exceed its memo |

## Left out

- mmap, files, `cat` and `rm`, writev: only the bytes that they carry.
- JSON loading, dlopen, the user callbacks: a loaded template, the identity callback.
- PCRE: a content string comes split into text and tags.
- The lifetime of the keys of the dynamic-content table (frf_maker.c:120, frf_maker.c:500): see Findings.
- The bodies of the transform functions and of the hash functions: arbitrary functions.
- When the string cache is dropped: at any call, which covers every size of its arena.
- The lookup tables of the maker are maps there; the hash table that stands behind them is verified on its own, and so are the lists and the arena of the maker.
- The tables of the generated scanner and parser: longest match and recursive descent, proved against the grammar.
- frf_write, render.c, make_frf.c, stat.c, the Perl binding, utstring.h, teardown functions.
- Out of memory, host endianness, unaligned loads, overflow of `int` counters in rendering and of list lengths and bucket counts.
- Reader.Frf.Iovec: asks that the row can be read without leaving the file and has at most IOV_MAX cells, because the source writes its static array without a check.
- RoundTrip.Publish: asks that the choices of every row nest finitely, because the source does not end otherwise (Program.WorklistEmptiesIffFinite).
- RoundTrip.PublishAndFetch: asks the same, and promises the text of a row only up to IOV_MAX cells, for the reason given for Reader.Frf.Iovec.
- HashTable.Table.Add: the hash of a key is stored when the item is made, not when it is added.
- DList.List.Sort: counts run widths without a bound; the source doubles an `int`.
