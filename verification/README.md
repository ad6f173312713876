# A verified model of the OSD-2 target

This project models the core of an object-based storage target (SCSI OSD-2): the C code that executes commands over
three SQLite tables (`obj`, `attr`, `coll`) and one data file per object. Tables are maps and sets with the key
constraints of the schema, data files are byte sequences, and buffers are byte arrays.

What the files cover:

| file | source | subject |
|---|---|---|
| `Bytes.dfy`, `Pages.dfy`, `Sql.dfy` | `osd-util.c`, `osd-defs.h`, `attr.c`, `mtq.c` | fixed-width integers, big-endian fields, stores into a buffer; attribute pages; stored integers against the literals of a statement |
| `ListEntry.dfy`, `SetAttrList.dfy` | `list-entry.c`, `cdb.c` | the attribute list packer and its parser |
| `ListWithAttrs.dfy`, `ListReply.dfy`, `ListOwners.dfy`, `ListTables.dfy` | `mtq.c` | LIST with attributes: the builder that fills lengths in later, what a client decodes, and whole listings over the tables |
| `IdListing.dfy` | `db.c`, `osd.c` | LIST of ids, page by page |
| `RetrievedAttrs.dfy`, `SetThenGet.dfy` | `cdb.c`, `attr.c`, `osd.c` | retrieving attributes into an allocation; setting a list and getting it back |
| `Namespace.dfy`, `NamespaceRuns.dfy`, `NamespaceCache.dfy`, `NamespaceLinks.dfy`, `Commands.dfy`, `Device.dfy` | `osd.c`, `obj.c`, `coll.c` | commands on partitions, collections and user objects, the id cache, collection pointers; what each command answers and leaves alone |
| `QueryCriteria.dfy`, `Query.dfy`, `QueryReply.dfy` | `osd.c`, `mtq.c` | QUERY from request bytes to reply bytes |
| `FileBytes.dfy`, `FilePlaces.dfy`, `FileIo.dfy` | `io.c`, `osd.c` | contiguous, scatter/gather and strided transfers, where each byte of them lands, PUNCH |
| `Continuation.dfy` | `cdb.c` | the CDB continuation segment |
| `Offsets.dfy`, `Median.dfy` | `osd-util.c` | the offset format; randomised selection |

`Namespace` holds the commands as functions on a state value; the class `Device.OsdDevice` executes them step by step
and each method is proved to make the same step. Results over whole runs are proved about the functions and hold for
the object through `Device.OsdDevice.Execute`. Elsewhere, too, each method over an array is proved against a function
of its inputs, and the promises of the source are proved about that function.

Where the code does not do what its comments or the standard promise, the code is modelled, and a lemma says exactly
when the promise holds. The members named `When...` have that form:

- Numbers and pages from 2^31 on are stored negative and ids from 2^63 on become floating-point literals, so statements
  that name them find nothing (`Sql.WhenEquals32`, `Sql.WhenEquals64`): QUERY and LIST with attributes miss such
  attributes (`Query.WhenPartitionsDoNotMatter`, `ListTables.WhenListingIsComplete`), and clearing such a collection
  pointer leaves its row (`NamespaceLinks.WhenClearingIsExact`). Objects with ids from 2^63 on are stored with negative
  ones: a listing of ids gives them only from an initial id of 2^63 on, before all others
  (`IdListing.WhenListingIsComplete`), and a listing with attributes never (`ListTables.WhenListingIsComplete`).
- LIST with attributes passes 64-bit lengths to a packer of 32 bits (`ListReply.WhenNeverFails`), and without a
  timestamp row of its own an object's entries go to the object before it (`ListOwners.WhenEntriesAreOwned`), or in
  front of all descriptors (`ListReply.FirstRowDecides`). Its `add_len` pads each entry behind a head of 10 bytes
  instead of 16, and so is the number of bytes needed only for values of certain lengths
  (`ListOwners.WhenAddLenIsSize`).
- A list id restarts a listing instead of resuming it (`IdListing.WhenListIdResumes`).
- Offsets from 2^43 on, and one below, do not survive the offset format (`Offsets.WhenRoundTrips`).
- An attribute allocation of 0 is exceeded (`RetrievedAttrs.WhenWithinAllocation`).
- A range of objects whose end wraps past 2^64 is answered without looking at any object
  (`SetThenGet.WrappedRangeIsNotSet`, `RetrievedAttrs.WrappedRangeIsNotRead`), and a logical length keeps 16 bits
  (`NamespaceLinks.WhenLengthIsSet`).
- A value of length 0 in a set list is refused rather than deleting the attribute (`SetThenGet.LastEntryWins`).
- CREATE for the id 2^64 - 1 answers GOOD and creates nothing (`NamespaceRuns.CreateMeaning`), an assigned block that
  wraps leaves a cached id below the lower bound (`NamespaceRuns.WhenContainmentStays`), and the id cache and SQLite's
  signed maximum part at 2^63 (`NamespaceCache.WhenCreateStaysExact`).
- REMOVE, REMOVE COLLECTION and collection pointers do not check the types of their objects
  (`NamespaceLinks.WhenLinksSurvive`), and a direct caller that clears an empty collection pointer can remove another
  one (`NamespaceLinks.WhenClearingIsExact`). A partition or collection with a positive multiple of 2^32 members counts
  as empty (`NamespaceRuns.MiscountedPartitionGoes`).
- QUERY looks at attributes of other partitions (`Query.WhenPartitionsDoNotMatter`), and its space guard holds for
  some lengths only (`QueryReply.WhenReplyStaysInside`).
- Strides from 2^63 on step backwards (`FileBytes.WhenStridesDisjoint`). Strided transfers of length and stride 0, and
  continuation descriptors of size 2^32, do not end (`FileBytes.WhenLoopIsEndless`, `Continuation.WhenWalkIsEndless`).
  A descriptor of type "no more descriptors" does not end the walk either (`Continuation.NoMoreDoesNotEnd`), and
  nobody compares the length of the segment with the data that arrived (`Continuation.WhenWalkOverruns`). A PUNCH range
  that wraps repeats data instead of removing it (`FileBytes.WhenPunchRemoves`).

The sources are modelled as built by default, with `NDEBUG`. Two conventions recur: an outcome `Overrun` marks the
point at which the C code would go on reading or writing outside its buffer, where the model stops; an outcome
`Endless` marks a loop that would not end.

## Model

| member | source | states |
|---|---|---|
| Bytes.FieldRoundTrip | osd-util/osd-util.c:265-355 | A number that fits a big-endian field of any width reads back from it. |
| Bytes.FieldImage | osd-util/osd-util.c:265-355 | Every field is the image of the number it reads as, so storing and reading are inverse both ways. |
| Bytes.LowBits | osd-util/osd-util.c:317-355 | Storing a number that is too large keeps its low bytes. |
| Bytes.LexIsNumeric | osd-util/osd-util.c:317-328 | On big-endian fields of one width, bytewise order is numeric order. |
| Sql.WhenEquals64 | osd-target/mtq.c:93-97 | A stored 64-bit value equals an unsigned literal of a statement if and only if the two are the same number and below 2^63. |
| Sql.WhenEquals32 | osd-target/attr.c:347-348 | A page or number bound as a 32-bit int equals an unsigned literal, or the same number bound as an int64, if and only if the two are the same number and below 2^31. |
| ListEntry.LePackAttr | osd-target/list-entry.c:35-78 | Error codes for bad alignment and too little room leave the buffer alone; otherwise exactly the image of the entry, cut to the room, is stored at the offset and its size returned. |
| ListEntry.WhenRefused | osd-target/list-entry.c:44-52 | -EINVAL is returned exactly for a length or an address that is not a multiple of 8, -EOVERFLOW exactly for an aligned buffer of fewer than 16 bytes. |
| ListEntry.EntryLayout | osd-target/list-entry.c:54-77 | The bytes of an entry: page at 0, number at 4, six zeros, the length at 14, the value at 16, and zeros up to the next multiple of 8. |
| ListEntry.PackedIsPrefix | osd-target/list-entry.c:57-77 | A short buffer receives a byte prefix of the whole entry: all of it if and only if it fits, and otherwise the buffer is used to the last byte, while the length field keeps the full length. |
| ListEntry.WalkOfImage | osd-target/list-entry.c:54-77 | Walking over packed entries returns the same entries in the same order and the bytes behind them. |
| ListWithAttrs.PackRow | osd-target/mtq.c:357-385 | One attribute row packed at the tail takes the buffer and the cursors to what the specification step says, or fails with the packer's error. |
| ListWithAttrs.OpenDescriptor | osd-target/mtq.c:323-349 | A timestamp row writes a descriptor lead at the tail, fills in the previous list length, and leaves head at the new length field. |
| ListWithAttrs.DescLayout | osd-target/mtq.c:326-342 | The bytes of a descriptor: the object id, four zeros, the byte count of the entries at 12, the entries at 16. |
| ListWithAttrs.AppendAttr | osd-target/mtq.c:366-376 | After packing, attr_list_len counts the entry and the list is closed when fewer than 16 bytes are left. |
| ListWithAttrs.PlaceRow | osd-target/mtq.c:304-400 | A row of either kind keeps the tie between head, tail, attr_list_len, alloc_len, cont_id and the bytes written. |
| ListWithAttrs.ListOidsAttr | osd-target/mtq.c:298-425 | The loop writes exactly the reply of the run over the rows, touches no byte outside it, and returns used length, add_len and cont_id of that run, or the error of the row that failed. |
| ListWithAttrs.ClosingCheck | osd-target/mtq.c:408-412 | While a list length is still to be filled in, head + 4 + attr_list_len is the tail, as the closing assertion of the source wants, if and only if some descriptor has been opened. |
| ListReply.Framing | osd-target/mtq.c:298-412 | For every row stream whose first row opens an object, and an allocation that is a multiple of 8 below 2^32 + 16, the reply fits the allocation and decodes to the descriptors, each list length being the exact byte count of its entries. |
| ListReply.ReplySize | osd-target/mtq.c:346-370 | used_outlen plus the remaining alloc_len never changes. |
| ListReply.DecodeOfImage | osd-target/mtq.c:326-342 | A client decodes any sequence of descriptors back from its bytes. |
| ListReply.Continuation | osd-target/mtq.c:323-401 | In a listing of objects with their timestamp rows in front, cont_id 0 means that every object is there in full; otherwise it names an object before which all are complete and after which there is none. The first object is the one named exactly when it does not fit, and every complete one fits alone. `ListOwners.AnyRun` is the form for any rows. |
| ListReply.AddLenIgnoresAllocation | osd-target/mtq.c:351-359 | add_len is a function of the rows alone, the same for every allocation. |
| ListReply.WhenCollectsAll | osd-target/mtq.c:323-401 | In such a listing, passing each cont_id as the next initial id collects every object once, in order and in full, if and only if each one alone fits the allocation. |
| ListReply.WhenNeverFails | osd-target/mtq.c:361-383 | The builder succeeds on all row streams whose first row opens an object if and only if the allocation is below 32 bytes, or is a multiple of 8 below 2^32 + 16: le_pack_attr takes only 32 bits of the length. |
| ListReply.WhenNoStreamFails | osd-target/mtq.c:361-383 | It succeeds on row streams of any kind if and only if the allocation is below 16 bytes, or is a multiple of 8 below 2^32. |
| ListReply.FirstRowDecides | osd-target/mtq.c:323-401 | Entries precede every descriptor, and their byte count overwrites the place of an object id, if and only if the first row is not a timestamp row. |
| ListOwners.RoomyRun | osd-target/mtq.c:323-376 | Given room for every row, each row is put in its place in full: a timestamp row opens a descriptor, any other is added to the last one. |
| ListOwners.AnyRun | osd-target/mtq.c:323-401 | Whatever the rows, and wherever the buffer ends: every row before the one to resume at is in its place in full, that one at most in part, nothing after it; without a continuation id all rows are. |
| ListOwners.WhenEntriesAreOwned | osd-target/mtq.c:323-376 | Whatever is cut off, every entry of the reply lands under its own object if and only if, in what has been placed, the rows of each object start with a timestamp row; any other object has its entries added to the one before it. |
| ListOwners.AddLenIsShort | osd-target/mtq.c:392-400 | add_len is the number of bytes that the rows need, less 8 for each attribute row whose value has a length other than 0 or 7 modulo 8, and 2^64 - 1 where this would be more. |
| ListOwners.WhenSumOverflows | osd-target/mtq.c:351-400 | A listing that no packing error ends is cut off for the sake of add_len if and only if that number reaches 2^64. |
| ListOwners.WhenAddLenIsSize | osd-target/mtq.c:392-400 | So it is that number of bytes if and only if every such length is 0 or 7 modulo 8. |
| ListOwners.WhenAddLenIsReplied | osd-target/mtq.c:350-400 | Given room for every row, that is exactly when add_len is the length of the reply. |
| ListOwners.OneByteIsShort | osd-target/mtq.c:392-400 | An object with one value of a single byte takes 40 bytes, of which add_len counts 32. |
| ListTables.RestMeans | osd-target/mtq.c:258-274 | The literal for the initial id compares as the unsigned number it stands for, but stored ids from 2^63 on are negative: the rows are those of the objects from that id on and below 2^63. |
| ListTables.CollectGrounded | osd-target/mtq.c:258-292 | However often a listing is resumed, and for any tables, it gives descriptors only for objects with a timestamp row and an id below 2^63 in a partition below 2^63, and entries only for attributes with page and number below 2^31. |
| ListTables.WhenListingIsComplete | osd-target/mtq.c:213-425 | Over the tables, with the reply that the command gives without a list id: resuming LIST from each cont_id collects, for every user object of the partition in order, exactly the wanted attributes it has, if and only if, for every user object: its id and that of the partition are below 2^63, it has its timestamp row, each wanted attribute that it has lies below 2^31 with page and number and is not that row itself, and its descriptor fits the allocation alone. |
| ListTables.LargeNumberIsNotListed | osd-target/mtq.c:258-274 | An attribute with number 2^31 can be set; a listing that asks for it leaves it out. |
| ListTables.LargeIdIsNotListed | osd-target/mtq.c:258-274 | CREATE accepts the id 2^63; no listing with attributes shows the object, wherever it starts. |
| IdListing.ExecIdRetrieval | osd-target/db.c:377-425 | The loop stores the first ids that fit, counts all rows in add_len up to its overflow, and continues at the first id left out. |
| IdListing.OsdList | osd-target/osd.c:2072-2167 | Which requests are refused, what the header says, and the whole reply in both list formats, with ids compared as signed numbers; a list id always restarts at 0. |
| IdListing.HeaderLayout | osd-target/osd.c:2109-2132 | The header of a LIST reply: the length of what follows it at 0, the continuation id at 8, seven zeros, and the list format at 23. |
| IdListing.LengthCountsAll | osd-target/osd.c:2126-2130 | The length in the header is that of the complete reply without its first 8 bytes, whatever the allocation has cut off; the format is that of an id list. |
| IdListing.ReadReply | osd-target/osd.c:2088-2132 | A client reads from a page its ids, the id of the first row left out or 0, and the length of the complete rest. |
| IdListing.ContIsNext | osd-target/db.c:399-407 | The continuation id is the first id that did not fit. |
| IdListing.PagesTile | osd-target/db.c:390-425 | Over whole runs of replies to LIST without a list id, each asked for from the continuation id of the one before and with allocations of any size, no id is skipped, repeated or out of the order of the index, where ids from 2^63 on come first; with room for one id in each, as many replies as ids collect exactly the full list. |
| IdListing.WhenListingIsComplete | osd-target/obj.c:134-148 | From any initial id, the pages of a listing hold, in the order of the index, the user objects of the partition that the signed comparison lets through. These are the ones from that id on if and only if all user objects lie on the same side of 2^63 as the initial id. |
| IdListing.WhenListIdResumes | osd-target/osd.c:2104-2105 | With a list id, which never resumes a listing, the reply is the one for the requested initial id if and only if no id lies between 0 and that id in the order of the index: below 2^63, when no id is below it; from 2^63 on, when no id is at or above it. |
| IdListing.LargeIdIsNotResumed | osd-target/osd.c:2104-2105 | With the one object 2^63 + 7 and the initial id 2^63 + 3, no id is below the initial one, and the list id still changes the reply. |
| Offsets.SetOffset | osd-util/osd-util.c:386-408 | The shifting loop computes the code of a value. |
| Offsets.CodeMeans | osd-util/osd-util.c:363-384 | A code is a mantissa of 28 bits under a signed exponent of 4 bits, which shifts it to the left by 0 to 15; the code of all ones stands for an unused offset. |
| Offsets.EncodeRoundsDown | osd-util/osd-util.c:363-408 | Below 2^43, except for the value with the reserved code, decoding the code gives the value rounded down to a multiple of 2^e for the least exponent e >= 3 that leaves 28 bits. |
| Offsets.WhenRoundTrips | osd-util/osd-util.c:363-408 | A 64-bit value survives encoding and decoding if and only if it is below 2^43, a multiple of its 2^e, and not the one value whose code means "unused". |
| Offsets.LargeComesBackSmall | osd-util/osd-util.c:363-408 | What becomes of the others: from 2^51 on the code is 0; from 2^43 on a value comes back divided by 2^16, down to its grid, and from 2^51 - 2^23 on as an unused offset. |
| Offsets.ComputeNextOffset | osd-util/osd-util.c:413-447 | The loop and its recheck jump end and compute the next offset. |
| Offsets.NextIsLeast | osd-util/osd-util.c:413-447 | For every exponent limit from 3 to 23 the result is the least representable value not below the start, or there is none. |
| Offsets.NextOverflows | osd-util/osd-util.c:431-435 | Beyond the largest representable value the result is 0. |
| Offsets.NextMonotone | osd-util/osd-util.c:413-447 | next_offset is idempotent; for a <= b it is monotone if and only if it has an answer for both, has none for either, or a is 0. |
| Offsets.LegalSurvives | osd-util/osd-util.c:363-408 | Every legal offset survives the codec except (2^28 - 1) * 2^7. |
| Offsets.NextSurvives | osd-util/osd-util.c:410-447 | What next_offset returns survives the codec exactly outside one gap of 128 starts. |
| Median.Partition | osd-util/osd-util.c:557-582 | For any pivot index the segment is permuted and split: strictly smaller elements before the returned index, no smaller ones behind it. |
| Median.SelectMedian | osd-util/osd-util.c:584-599 | For any choice of pivots the loop ends with a[k] no smaller than what precedes it and no larger than what follows it, the range permuted and the rest untouched. |
| Median.SplitsAgree | osd-util/osd-util.c:584-599 | Any two permutations that are split at k hold the same value there, so the pivots do not matter. |
| Median.SplitSelects | osd-util/osd-util.c:584-599 | A split at k holds the k-th order statistic. |
| Median.Median | osd-util/osd-util.c:605-634 | The result is the middle value, or the mean of the two middle values, of the sorted input, also for the second selection over the already permuted copy; the input array is unchanged. |
| Median.MiddleMeans | osd-util/osd-util.c:617-630 | That value is half-way between those at (n - 1) / 2 and n / 2 of the n sorted ones, whatever n is; at least half of them are no larger, and at least half no smaller. |
| RetrievedAttrs.LeMultiobjPackAttr | osd-target/list-entry.c:88-112 | An object id and an ordinary entry are stored in front of each other, or -EOVERFLOW is returned and no more than the id is left behind. |
| RetrievedAttrs.GatherAttrs | osd-target/attr.c:498-558 | The loop over the rows stores the byte prefix that fits and returns its length. |
| RetrievedAttrs.GetattrList | osd-target/osd.c:1876-1955 | Which error an object of no type or a page that cannot be retrieved gives; otherwise the rows found, or the null attribute when there are none. Lack of room is not an error. |
| RetrievedAttrs.AnswerRequest | osd-target/cdb.c:251-265 | The answers for all objects of a request are appended to what is already there, up to the first object that is refused; a range whose end wraps past 2^64 is empty. |
| RetrievedAttrs.GetAttrList | osd-target/cdb.c:189-292 | Which lists leave the buffer alone, and with which error; a refused object or page leaves nothing outside the allocation; otherwise header and body are exactly the gathered answers, request by request and object by object, within the allocation. |
| RetrievedAttrs.WhenListIsTaken | osd-target/cdb.c:206-232 | For every outcome of the checks on a request list, exactly which lists have it: those that are answered have type 1, an aligned place, an aligned length of at least 8 that reaches the end of the data (counted in 32 bits) and not beyond, and an aligned allocation other than 0. |
| RetrievedAttrs.TakenListEndsData | osd-target/cdb.c:212-231 | With less than 2^32 bytes behind its place, a list is answered only if it ends with the data. |
| RetrievedAttrs.RequestAt | osd-target/cdb.c:247-256 | Request i of a list stands at 8 * i, the page in front of the number. |
| RetrievedAttrs.AnswerMeans | osd-target/osd.c:1876-1955 | A request is answered with the attributes found, and if there are none with an entry of length 0 under its own page and number. |
| RetrievedAttrs.HeaderLayout | osd-target/cdb.c:233-275 | The header of the answers: the list type, three zeros, the length of the body. |
| RetrievedAttrs.WhenListReadable | osd-target/osd.c:165-186 | A retrieval is refused if and only if some object of the range has no type, or some page cannot be retrieved from an object of its type. |
| RetrievedAttrs.FirstRefusalDecides | osd-target/cdb.c:251-265 | Which error a refused retrieval gives is decided by the first request that cannot be answered for some object, and by the first such object: a missing type is a field of the CDB, a page that cannot be retrieved one of the list. |
| RetrievedAttrs.AnswersAppend | osd-target/cdb.c:247-269 | The answers to a list are those to its requests in their order. |
| RetrievedAttrs.ObjectsAppend | osd-target/cdb.c:251-265 | The answers to a request are those of the objects of the range in their order. |
| RetrievedAttrs.WrappedRangeIsNotRead | osd-target/cdb.c:251 | When the end of the range of objects wraps past 2^64, a retrieval is answered with no attribute, whatever it asks for. |
| RetrievedAttrs.GatheredSplit | osd-target/cdb.c:247-269 | Gathering in several calls, each into the room that the last one left, is gathering everything at once. |
| RetrievedAttrs.GatheredIsPrefix | osd-target/attr.c:515-558 | The gathered bytes are a prefix of the untruncated serialisation, and equal to it if and only if that fits. |
| RetrievedAttrs.RetrievedIsPrefix | osd-target/cdb.c:189-275 | The body is an 8-aligned prefix of the untruncated answers, complete if and only if they fit; the header holds the body length, and the total stays within the allocation. |
| RetrievedAttrs.WhenWithinAllocation | osd-target/cdb.c:234-246 | Among the aligned allocation lengths, the total stays within the allocation exactly when that is not 0. |
| RetrievedAttrs.SerialisedReadsBack | osd-target/cdb.c:247-270 | The untruncated single-object reply reads back as exactly the attributes found. |
| RetrievedAttrs.MultiobjReadsBack | osd-target/list-entry.c:80-112 | In the multi-object format the untruncated answers read back as exactly the attributes found, in order, each under the id of its object. |
| RetrievedAttrs.FinishReply | osd-target/cdb.c:2195-2201 | The bytes between the data and the attributes are zeroed, no others change, and the used length covers the attributes. |
| RetrievedAttrs.ReplyFits | osd-target/cdb.c:2097-2113 | The assertion that used_outlen is at most outlen follows when the attributes stay within their allocation. |
| RetrievedAttrs.MaxOutLenIsExact | osd-target/cdb.c:2097-2113 | The room that is set aside is the length of the data without attributes, and with them the larger of that and the end of their allocation. |
| SetAttrList.ParseSetattrList | osd-target/cdb.c:450-518 | The parser returns the entries of the list, never stores more than list_len / 16 of them, and ends with list_len exactly 0 or runs over the end. |
| SetAttrList.WhenRefused | osd-target/cdb.c:457-511 | Which lists are parameter errors, and which make the parser read past their end or that of the data; any other is parsed into the entries it holds. |
| SetAttrList.PackParse | osd-target/cdb.c:472-507 | A list as a client builds it, of type 9 and with the packed image of any attributes, is parsed into the same pages, numbers, lengths and values, in order. |
| SetThenGet.ApplyList | osd-target/cdb.c:302-375 | Entry after entry is set on the objects of the range, collection pointers and information pages included, until one is refused; what was set before stays. |
| SetThenGet.SetOnObjects | osd-target/cdb.c:341-351 | One attribute set on every object of the range, up to the first that refuses it; a range whose end wraps past 2^64 is empty. |
| SetThenGet.LastEntryWins | osd-target/cdb.c:336-356 | On present user objects a list of attributes that are kept in the table is set if and only if each has a settable page and number, a value of 1 to 65534 bytes and, under number 0, one that is a name; then every attribute has the value of its last entry on each object, and all others are unchanged. |
| SetThenGet.RefusedKeepsFront | osd-target/cdb.c:336-356 | A list with an entry that is not acceptable is refused there: each attribute has the value of its last entry in front of that one, and no other is changed. |
| SetThenGet.PointerEntryMeans | osd-target/osd.c:647-690 | An entry for the collection page with eight bytes moves the pointer of its number to the collection they name, and touches no other; it is set if and only if the object is a present user object, the number one for pointers, and the collection present and without this member. |
| SetThenGet.OddPointerEntryIsRefused | osd-target/osd.c:674-677 | With a value of any other length it is refused. |
| SetThenGet.RootEntryMeans | osd-target/osd.c:618-639 | An entry for the root information page, the system id and the name of the page apart: on the root the name of the device is kept, up to 65534 bytes, and any other number accepted without effect; on any other object it is refused. |
| SetThenGet.WrappedRangeIsNotSet | osd-target/cdb.c:341-351 | When the end of the range of objects wraps past 2^64, a set list is answered GOOD and sets nothing. |
| SetThenGet.GetReturnsWhatWasSet | osd-target/cdb.c:189-375 | From bytes to bytes: a set list as a client builds it, with distinct attributes on user-defined pages, is taken and sets them on a range of objects; then a request list as a client builds it for the same attributes is taken and not refused, and answered with a prefix of the complete answers, all of them if and only if they fit. For one object these are, byte for byte, the body of the set list; for more, a list in which a client reads each entry under every object in turn. |
| SetThenGet.EachHasAll | osd-target/cdb.c:247-269 | In that list, the entries under each object of the range are those of the set list, in order, and no other object has any. |
| Namespace.NextOid | osd-target/obj.c:315-341 | The next id lies between 1 and 2^63, the range of SQLite's signed maximum. |
| Namespace.NextPid | osd-target/obj.c:352-373 | The same for partitions. |
| Device.OsdDevice.constructor | osd-target/osd.c:697-718 | A new device holds the root object alone. |
| Device.OsdDevice.GetNextOid | osd-target/obj.c:315-341 | The scan computes SELECT MAX(oid) + 1. |
| Device.OsdDevice.GetNextPid | osd-target/obj.c:352-373 | The scan computes SELECT MAX(pid) + 1. |
| Device.OsdDevice.ChooseId | osd-target/osd.c:1296-1309 | A cache hit or a table lookup gives the id, the first id of a partition being the lower bound, and the cache moves on. |
| Device.OsdDevice.AssignId | osd-target/osd.c:1291-1318 | A requested id must be unused and empties the cache. |
| Device.OsdDevice.CreateOne | osd-target/osd.c:1324-1341 | A row, then a file, the row being taken back when the file cannot be created. |
| Device.OsdDevice.CreateDatafile | osd-target/io.c:539-571 | A file that exists is an error; a new one is empty. |
| Device.OsdDevice.CreateBatch | osd-target/osd.c:1323-1351 | The loop over the block, with its clean-up, equals the specification for any faults. |
| Device.OsdDevice.RemoveTmpObjects | osd-target/osd.c:1071-1078 | The clean-up loop removes each object of the range. |
| Device.OsdDevice.Create | osd-target/osd.c:1262-1369 | State and answer of CREATE, including refusals, faults, the cache and the reported id, for any number and with or without a requested id. |
| Device.OsdDevice.CreateCollection | osd-target/osd.c:1395-1471 | State and answer of CREATE COLLECTION; a failed insertion leaves the cache. |
| Device.OsdDevice.CreatePartition | osd-target/osd.c:1473-1514 | State and answer of CREATE PARTITION. |
| Device.OsdDevice.CopyUserObjects | osd-target/osd.c:1175-1260 | State and answer of COPY USER OBJECTS, which assigns an id and copies nothing. |
| Device.OsdDevice.Remove | osd-target/osd.c:2655-2709 | State and answer of REMOVE; a missing object or file is no error. |
| Device.OsdDevice.RemoveCollection | osd-target/osd.c:2712-2777 | State and answer of REMOVE COLLECTION, whatever the type of the object, the members being counted in 32 bits. |
| Device.OsdDevice.RemovePartition | osd-target/osd.c:2792-2835 | State and answer of REMOVE PARTITION, the objects being counted in 32 bits. |
| Device.OsdDevice.CollGetCid | osd-target/coll.c:393-424 | The collection of a slot, or the 0 of the caller's variable: also for an occupied slot with a number from 2^31 on, which is stored negative. |
| Device.OsdDevice.SetPointer | osd-target/osd.c:647-690 | State and answer of setting or clearing a collection pointer under both keys of the table. |
| Device.OsdDevice.SetAttr | osd-target/osd.c:2849-2966 | State and answer of setting an attribute of the table: which pages may be set for which type of object, the name under number 0, and the lengths. |
| Device.OsdDevice.CheckSet | osd-target/osd.c:2873-2918 | Which objects, pages, numbers and values get past the checks of setting an attribute. |
| Device.OsdDevice.SetUserInfo | osd-target/osd.c:564-588 | State and answer of setting the user name or the logical length on the user information page. |
| Device.OsdDevice.SetRootInfo | osd-target/osd.c:618-639 | State and answer of setting an attribute of the root information page other than the system id: only the name is kept. |
| Device.OsdDevice.Execute | osd-target/cdb.c:1531-1540 | Whatever the command, the device object makes exactly the step of the state machine, and keeps containment exactly when no assigned block wraps. |
| NamespaceRuns.RemoveTmpUndoes | osd-target/osd.c:1071-1078 | The clean-up takes back exactly what the batch had created. |
| NamespaceRuns.CreateLoopAllOrNothing | osd-target/osd.c:1323-1351 | The loop creates the whole block if and only if nothing stands in the way of any of its objects, and otherwise leaves the tables and files it started from; a block whose end has wrapped is empty. |
| NamespaceRuns.CreateMeaning | osd-target/osd.c:1262-1369 | For every request CREATE is refused without a change, or fails and leaves no trace, or answers GOOD; and then it has made its whole block of new objects if and only if the end of the block does not wrap past 2^64, and otherwise nothing. |
| NamespaceRuns.TopIdCreatesNothing | osd-target/osd.c:1323-1358 | A request for the id 2^64 - 1 answers GOOD and names that id, but no object is created. |
| Commands.WhenCreateIsRefused | osd-target/osd.c:1276-1318 | In every state CREATE answers IllegalRequest, and then changes nothing, if and only if an id is out of range, the partition is absent, or an id is asked for that is taken or comes with a number above one. |
| Commands.WhenCreateFails | osd-target/osd.c:1320-1351 | A CREATE that is not refused fails if and only if the end of its block does not wrap and something stands in the way of one of its objects. |
| Commands.RequestedIsCreated | osd-target/osd.c:1288-1358 | With the links intact and no faults, an unused id below 2^64 - 1 in a present partition is created on request, with a number of 0 or 1: the object table and the files are the old ones with the new object, which is empty, and only the cache changes besides. |
| Commands.ChosenIsNext | osd-target/osd.c:1291-1309 | The assigned id is the cached one for the partition referenced last, and otherwise the one behind the largest below 2^63, or the lower bound in an empty partition; the cache then holds the one behind it. |
| Commands.WhenCollectionIsRefused | osd-target/osd.c:1408-1455 | In every state, which requests for a collection are refused; the others are answered with the requested or the assigned id. |
| Commands.CollectionIsCreated | osd-target/osd.c:1408-1462 | A collection that is created is the only new object and all else stays but the cache, which a requested id empties. |
| Commands.WhenPartitionIsCreated | osd-target/osd.c:1484-1505 | A requested partition is created if and only if its id is in range and unused, and is then the only change. |
| Commands.AssignedPartitionIsNext | osd-target/osd.c:1486-1505 | An assigned partition has the id behind the largest below 2^63, and at least the lower bound. |
| Commands.WhenCopyIsRefused | osd-target/osd.c:1184-1248 | In every state, which requests to copy are refused; the tables never change, and the others are answered with the requested or the assigned id. |
| NamespaceRuns.ChosenIsFresh | osd-target/osd.c:1291-1309 | An assigned id is at or above the lower bound and above every id of its partition that SQLite's signed order counts. |
| NamespaceRuns.AssignedIsFresh | osd-target/osd.c:1291-1318 | An accepted request was unused, and refused exactly when present; an assigned id is unused unless it is 2^63. |
| NamespaceRuns.AssignedPartitionIsFresh | osd-target/osd.c:1486-1499 | Assigning a partition id fails exactly when 2^63 - 1 and 2^63 are both taken; otherwise the id is new and above all partition ids below 2^63, and so above all of them if and only if there are no others. |
| NamespaceRuns.StepKeeps | osd-target/osd.c:1291-1352 | Every command whose assigned ids end at or below 2^63, and that is no REMOVE PARTITION of a positive multiple of 2^32 objects, keeps the invariants: containment, and the cache above all ids of its partition that the signed order counts; requested ids are free. |
| NamespaceRuns.RunKeeps | osd-target/osd.c:1291-1352 | The same over every run of such commands. |
| NamespaceRuns.InitialHolds | osd-target/osd.c:697-718 | The fresh device satisfies the invariants. |
| NamespaceRuns.PartitionsStay | osd-target/obj.c:427-447 | In every state, a partition disappears only by REMOVE PARTITION, and only when the number of its objects, read into 32 bits, is 0: with fewer than 2^32 objects, only when it holds none. |
| NamespaceRuns.MiscountedPartitionGoes | osd-target/obj.c:444-446 | A partition with a positive multiple of 2^32 objects is removed, and leaves them without a partition. |
| NamespaceRuns.WhenContainmentStays | osd-target/osd.c:1277-1286 | Every command, whatever ids it asks for and with any faults, keeps the root present, every object inside a present partition, ids above the lower bounds and the cached id too, if and only if no block of assigned ids wraps past 2^64 and no partition with a positive multiple of 2^32 objects is removed. |
| NamespaceRuns.WrappedCacheBreaksBounds | osd-target/osd.c:1296-1309 | After such a wrap the next object is created below the lower bound. |
| NamespaceRuns.RunContained | osd-target/osd.c:1277-1286 | Containment holds over every run of fewer than 2^47 commands from the fresh device, whatever ids they ask for, in which no such miscount happens. |
| NamespaceRuns.ShortRunContained | osd-target/osd.c:1277-1286 | It holds without condition over every run of at most 2^16 commands, which cannot create enough objects for a miscount. |
| NamespaceCache.WhenCreateStaysExact | osd-target/osd.c:1291-1352 | After an assignment the cache agrees with SELECT MAX if and only if the block ends at or below 2^63, where the signed order still counts its ids. |
| NamespaceCache.BeyondTheLimit | osd-target/obj.c:315-341 | Past that limit an uncached assignment computes an id that is taken, and fails. |
| NamespaceCache.StepExact | osd-target/osd.c:1211-1352 | Without faults and copies, every such command leaves the cache equal to SELECT MAX + 1. |
| NamespaceCache.CacheIsInvisible | osd-target/osd.c:1291-1352 | Over every run of such commands, with any requested ids, the caching device gives the same answers, and ends with the same tables, as one that asks the table before every assignment. |
| NamespaceLinks.WhenLinksSurvive | osd-target/osd.c:2655-2777 | Every command keeps rows, files and both ends of memberships tied to present objects of the right type, if and only if it is not one of these: REMOVE of an id that has members, REMOVE COLLECTION of a user object or of a collection with a positive multiple of 2^32 members, a pointer set to something present that is no collection. |
| NamespaceLinks.RunKeepsLinks | osd-target/osd.c:2655-2777 | The links hold over every run of fewer than 2^47 commands without such a mistake and without a miscounted partition. |
| NamespaceLinks.ObjectRemovedAsCollection | osd-target/osd.c:2712-2777 | Three commands from a fresh device lead to a file without its object. |
| NamespaceLinks.PointerToNoCollection | osd-target/osd.c:678-687 | Three commands lead to a pointer to the partition's own id. |
| NamespaceLinks.CollectionRemovedAsObject | osd-target/osd.c:2655-2709 | Five commands lead to a membership of a collection that is gone. |
| NamespaceLinks.AssignmentSucceeds | osd-target/osd.c:1291-1352 | With the links intact and no faults, creating assigned objects in a present partition always succeeds as long as the block ends at or below 2^63. |
| NamespaceLinks.StepKeepsKeys | osd-target/osd.schema:53-60 | (pid, cid, oid) and (pid, oid, number) each keep determining the row of the coll table. |
| NamespaceLinks.RunKeepsKeys | osd-target/osd.schema:53-60 | The same over every run. |
| NamespaceLinks.PointerMoves | osd-target/osd.c:678-687 | Setting a pointer moves its slot to the new collection and touches no other slot; it is refused exactly when the object already is a member there. |
| NamespaceLinks.WhenClearingIsExact | osd-target/osd.c:656-672 | A zero-length set by a direct caller (no command passes the null pointer it takes) removes the row of its slot and no other if and only if: for a number below 2^31, the slot is occupied or the object has no pointer to id 0; for a number from 2^31 on, which is stored negative and never found, the slot's row and a pointer to id 0 are one and the same row as far as they exist. |
| NamespaceLinks.ClearingCanHitAnotherSlot | osd-target/osd.c:656-672 | For a direct caller the other case is reachable after three commands from a fresh device. |
| NamespaceLinks.LargeSlotIsNotCleared | osd-target/coll.c:227 | After four commands from a fresh device, the set pointer number 2^31 of an object is occupied, and clearing it leaves it there. |
| NamespaceLinks.RemovedLeavesNothing | osd-target/osd.c:2687-2690 | After REMOVE of a user object, with the links intact, no row of any table and no file names it any more, as object, as owner of an attribute, as member or as collection, and everything else is as before. |
| Commands.RemoveMeans | osd-target/osd.c:2664-2701 | In every state REMOVE is refused exactly for ids out of range, and otherwise takes out the row, the file, the attributes and the memberships of its object, present or not, and nothing else. |
| Commands.RemoveCollectionMeans | osd-target/osd.c:2722-2769 | In every state: which requests to remove a collection are refused, which find it not empty, and that any other takes out the row, the attributes and the memberships of this collection and nothing else, files and memberships of other collections included; with a positive multiple of 2^32 members these stay. |
| Commands.RemovePartitionMeans | osd-target/osd.c:2801-2827 | In every state: partition 0 is refused, a partition whose objects count as any stays, and of any other exactly its own row and attributes go; so an empty partition is always removed. |
| Commands.TypeOfMeans | osd-target/osd.c:94-114 | Of present objects get_obj_type gives the type; of absent ones it takes any pid for a partition. |
| Commands.WhenSettable | osd-target/osd.c:125-163 | For each type of object, exactly the pages that can be set: the first 128 and the user-defined ones of the type, and those from 0xF0000000 on. |
| Commands.WhenGettable | osd-target/osd.c:125-186 | For each type of object, exactly the pages that can be retrieved: all of the type but the reserved ones, and those from 0xF0000000 on. |
| Commands.SetAttrMeans | osd-target/osd.c:2873-2960 | Setting an attribute of the table: exactly which objects, pages, numbers and values are accepted, and that nothing changes but the one attribute, which an empty value deletes. |
| Commands.WhenPointerIsRefused | osd-target/osd.c:647-690 | In every state a pointer is set if and only if the object is a present user object, the number one for pointers, and its target present and not pointed to; a refusal changes nothing. |
| Commands.RootNameIsKept | osd-target/osd.c:618-639 | On the root information page number 9, the name of the device, is kept; any other number is accepted without effect. |
| Commands.WhenUserInfoIsSet | osd-target/osd.c:564-588 | On the user information page of a user object number 9, the name of the user, is kept; any number but that of the logical length is refused. |
| NamespaceLinks.InfoKeeps | osd-target/osd.c:564-639 | Setting information attributes keeps containment, the freshness of the cache, the links and the keys. |
| NamespaceLinks.WhenLengthIsSet | osd-target/osd.c:576-581 | Setting the logical length gives the file that length, with the bytes it had and zeros behind them, if and only if the length is below 2^16: it is kept in a uint16_t. |
| QueryCriteria.Table.Alloc | osd-target/osd.c:2362-2385 | The tables start at 16 entries, double, and keep what they hold. |
| QueryCriteria.Table.Append | osd-target/osd.c:2408-2432 | A criterion is stored below the limit, and there is always room for the next. |
| QueryCriteria.Table.Parse | osd-target/osd.c:2400-2437 | The cursor loop with its 32-bit countdown stores exactly the criteria of the specification, rejects a page outside the user object pages, and never stores past its tables. |
| QueryCriteria.ImageLayout | osd-target/osd.c:2410-2432 | The bytes of a criterion as they are parsed: length at 2, page at 4, number at 8, and the bounds, each behind its length. |
| QueryCriteria.ParseSerialised | osd-target/osd.c:2400-2437 | Parsing a serialised list gives its meaning, whatever follows it in memory: it ends at an entry of length 0 and fails at a foreign page. |
| QueryCriteria.RoundTrip | osd-target/osd.c:2400-2437 | The serialised criteria come back if and only if each has a length and a user object page. |
| Query.BuildStatement | osd-target/mtq.c:86-126 | The loop chains one SELECT per criterion with the operator, and groups the last. |
| Query.BindValues | osd-target/mtq.c:136-162 | The bound values are those of the comparisons, in their order. |
| Query.ExecConditions | osd-target/mtq.c:103-111 | The conditions of a criterion take its own values, by position, and keep the rows in its range whose page and number equal the literals. |
| Query.AnswerMeans | osd-target/mtq.c:68-126 | Executing the chain selects exactly the members that satisfy some criterion (type 0) or all (type 1), and with no criterion those with any attribute; nothing when the partition or the collection has an id from 2^63 on, and no object for a criterion with a number from 2^31 on. |
| Query.NumericRange | osd-target/mtq.c:107-111 | On values of eight bytes a range of values is a range of numbers. |
| Query.WhenPartitionsDoNotMatter | osd-target/mtq.c:93-97 | All queries that the target can receive are answered as they should be (the members with such attributes in the queried partition) if and only if: for ids below 2^63, on the pages that a query can name, no member has under a number below 2^31 a value in another partition that it lacks in its own, none has one of its own under a number from 2^31 on, and a member with any attribute has one of its own; for other ids, no member has any attribute. |
| Query.LargeNumberIsNotFound | osd-target/mtq.c:101-103 | An attribute with number 2^31 can be set on a member; the query for exactly its value does not find it. |
| Query.LargeIdsAnswerNothing | osd-target/mtq.c:93-97 | With a partition or collection id from 2^63 on every query is answered with nothing. |
| QueryReply.OrderedRows | osd-target/mtq.c:126 | The result in the order of signed ids, each id once. |
| QueryReply.WhenOrderIsUnsigned | osd-target/mtq.c:125 | That order, in which ids from 2^63 on come first, is ascending if and only if all ids lie on the same side of 2^63. |
| QueryReply.Pack | osd-target/mtq.c:164-190 | The loop stores exactly the ids that the guard lets through, each at its place, and sets the length field to the length of the complete result. |
| QueryReply.WhenReplyStaysInside | osd-target/mtq.c:169 | The space guard, which sees 32 bits of the allocation, keeps every store within it if and only if the reply fits, or the allocation is below 2^32 and only one or two ids are missing and the others fill it to the last byte. |
| QueryReply.WhenAllAreStored | osd-target/mtq.c:169 | The guard passes over no row if and only if the low 32 bits of the allocation lie beyond the last row or below the first. |
| QueryReply.RepliedIsImage | osd-target/mtq.c:164-190 | Below 2^32 the reply is the header and the first ids that fit. |
| QueryReply.WholeReply | osd-target/mtq.c:164-190 | With no row passed over, the reply is the header and all ids, for allocations of any size. |
| QueryReply.RunQuery | osd-target/mtq.c:47-198 | Types above 1 are refused; otherwise the reply lists the selected members in the order of signed ids, and none when the id of the partition or the collection is 2^63 or more. |
| QueryReply.OsdQuery | osd-target/osd.c:2439-2508 | From request bytes to reply bytes: the checks in their order, the parsed criteria, and a reply that lists exactly the selected members in the order of signed ids. |
| QueryReply.WhenQueryIsTaken | osd-target/osd.c:2466-2480 | A query gets to its criteria if and only if the partition id is in range, something with the collection id is present, the list has at least 8 bytes and the allocation at least 13; an allocation of 0 is answered at once, with nothing. |
| QueryReply.FrontLayout | osd-target/osd.c:2487-2488 | The header of the reply: the length of what follows its own field, four zeros, and the format of an id list. |
| QueryReply.ReplyReadsBack | osd-target/mtq.c:164-190 | A reply that fits reads back as the whole result, and its length field is its length without that field. |
| FileBytes.ContigReadsBack | osd-target/io.c:31-84 | What is written contiguously is read back. |
| FileBytes.PWriteMeans | osd-target/io.c:288 | Written data stands at its place, the rest of the file is as it was, and a gap between the two is filled with zeros. |
| FileBytes.LastWriterWins | osd-target/io.c:341-358 | After writing pieces one after the other, each position holds what was written to it last, and what it held before if it was not written. |
| FileBytes.WhenReadBack | osd-target/io.c:119-150 | Gathering the same pieces returns every payload if and only if no position is written twice. |
| FileBytes.DistinctIffDisjoint | osd-target/io.c:341-358 | No position is written twice if and only if the pieces are pairwise disjoint. |
| FileBytes.WhenStridesDisjoint | osd-target/io.c:409-430 | Over all 64-bit strides, the segments are disjoint if and only if there is one segment, or the stride is below 2^63 and at least the length, or the distance it steps back holds the second segment. |
| FileBytes.BackwardsStrideOverlaps | osd-target/io.c:420-425 | A stride of 2^64 - 4 with length 8 gives overlapping segments. |
| FileBytes.WhenLoopIsEndless | osd-target/io.c:205-226 | The strided loop, pass by pass in 64-bit arithmetic, never ends if and only if there are bytes to transfer, length and stride are 0, and the kernel takes the offset. |
| FileBytes.WhenPunchRemoves | osd-target/osd.c:2275-2311 | PUNCH removes the given range, or all there is of it, if and only if the end of the range does not wrap past 2^64. |
| FilePlaces.StridePlaceAt | osd-target/io.c:409-430 | Byte i of the pieces of a strided transfer stands at offset + (i / length) * stride + i % length, the segment start in 64-bit arithmetic. |
| FilePlaces.ScatterLands | osd-target/io.c:341-358 | A scattered write leaves each byte of the payload at its place, the last one where places coincide, changes no other position, and lets the file grow no further than to the last place. |
| FileIo.WriteAllScatters | osd-target/io.c:341-358 | A transfer succeeds exactly when the data suffices and every offset is accepted; then all pieces are written. |
| FileIo.WhenWriteStops | osd-target/io.c:341-358 | A transfer that fails at some piece has written those before it and nothing of the others. |
| FileIo.WhenReadIsFull | osd-target/io.c:119-147 | A gather moves the full count if and only if every piece lies within the file; short reads pull the later pieces together. |
| FileIo.ReadsJoin | osd-target/io.c:119-147 | Short or not, the reads of a gather stand one behind the other in the buffer, which is unchanged in front of them. |
| FileIo.ShortReadIsPadded | osd-target/io.c:137-142 | A short read at the end leaves zeros up to the length asked for, and nothing behind it is changed. |
| FileIo.ExactReads | osd-target/io.c:205-226 | A strided read succeeds if and only if the kernel takes every offset and every place lies in the file; then each byte is the one at its place, and the rest of the buffer is unchanged. |
| FileIo.TransferRoundTrip | osd-target/io.c:86-172 | Reading the same disjoint pieces after a successful write returns the data, with the full count. |
| FileIo.TransferLastWriter | osd-target/io.c:311-378 | File contents and length after any successful transfer, overlapping or not; positions that no piece covers are unchanged. |
| FileIo.WhenStrideReadsBack | osd-target/io.c:205-226 | A strided write reads back for every payload if and only if the stride keeps the segments apart, over all 64-bit strides. |
| FileIo.ContigWrite | osd-target/io.c:267-309 | Errors change nothing; otherwise the one file is written and the others stay. |
| FileIo.WhenOpened | osd-target/io.c:280-292 | With the links of the namespace intact, exactly the user objects can be opened. |
| FileIo.ContigRead | osd-target/io.c:31-84 | The bytes of the file, padded with zeros, and whether the read went past the end. |
| FileIo.SglWrite | osd-target/io.c:311-378 | The loop over the entries writes the pieces up to the first failure and no other file. It succeeds if and only if the data suffices and the kernel takes every entry, and then each byte of the data lands at the offset of its entry plus that of the command, modulo 2^64. |
| FileIo.SglRead | osd-target/io.c:86-172 | The loop reads the pieces, padding short reads, and reports a short total. Without an error the buffer starts with the reads one behind the other; and when the total is full, with the bytes at the offset of each entry plus that of the command. |
| FileIo.VecWrite | osd-target/io.c:380-440 | The first 8 bytes of the data are the stride, the next 8 the length. The write succeeds if and only if the payload can be cut into segments and the kernel takes all its places, and then byte i lands at offset + (i / length) * stride + i % length. It writes the segments, the last one short. A segment longer than the data ends in an error when the kernel refuses the offset, and otherwise beyond the data; with length 0 the loop goes on until the kernel refuses an offset, or a pass changes nothing. |
| FileIo.VecRead | osd-target/io.c:174-253 | Stride and length as for the write. The read succeeds if and only if the kernel takes all places and they lie in the file, and then byte i is the one at offset + (i / length) * stride + i % length. A short read is an error behind the bytes that it brought. With a segment longer than the transfer the count wraps and the loop goes on; length 0 as for the write. |
| FileIo.LongSegmentFails | osd-target/io.c:205-226 | A segment longer than the whole transfer never succeeds: the write runs out of data, the read out of the file or of its buffer. |
| FileIo.EndlessIsNeverEnding | osd-target/io.c:205-226 | The outcome Endless is given exactly for the transfers whose loop never ends. |
| FileIo.Punch | osd-target/osd.c:2253-2344 | The tail is moved to the offset and the file cut behind it, or just cut. |
| Continuation.Continuation.Record | osd-target/cdb.c:1399-1406 | The descriptor table grows by eight in time for every descriptor. |
| Continuation.Continuation.Parse | osd-target/cdb.c:1355-1488 | The checks of the segment header, and the walk with its 32-bit descriptor sizes, whatever has arrived: the outcome of the walk, and the recorded descriptors on success. |
| Continuation.HeaderInside | osd-target/cdb.c:1388-1392 | An aligned cursor before the end of an aligned segment has a whole descriptor header in front of it. |
| Continuation.WhenWalkOverruns | osd-target/cdb.c:1391-1399 | The walk reads beyond the data that arrived exactly when it comes to a header that is not all there, and never when the segment has arrived whole. |
| Continuation.NoMoreDoesNotEnd | osd-target/cdb.c:1433-1438 | Behind a descriptor of type "no more descriptors" the walk goes on: what follows is recorded on success, and makes it fail when it is not acceptable. |
| Continuation.EndlessIsNeverEnding | osd-target/cdb.c:1391-1482 | The outcome Endless is given exactly when no number of passes of the loop ends it; any other outcome is what some number of passes arrives at. |
| Continuation.WhenDescriptorsTile | osd-target/cdb.c:1386-1482 | On success the recorded descriptors cover the segment exactly, without gap or overlap, if and only if no descriptor the walk comes to has a size that wraps past 32 bits. |
| Continuation.WrappedDescriptorParses | osd-target/cdb.c:1397-1413 | A segment with a wrapped descriptor (length 2^32 - 1, pad 1) is accepted, and its descriptor does not tile it. |
| Continuation.WhenWalkIsEndless | osd-target/cdb.c:1397-1482 | No number of passes ends the walk exactly when it comes to an accepted descriptor whose size is 2^32. |
| Continuation.WhenSegmentParses | osd-target/cdb.c:1355-1482 | A whole segment, as an initiator builds it from a header of 40 bytes and sections one behind the other, with anything in reserved places, is parsed into exactly these if the header has format 1 and the service action of the command, there is a section, and all are legal; otherwise it is refused. |
| Continuation.WhenSectionsParse | osd-target/cdb.c:1386-1482 | The walk from anywhere over sections one behind the other records exactly these if all are legal, and fails otherwise. |
| Continuation.WhenHeaderIsRefused | osd-target/cdb.c:1355-1390 | A segment is refused for its header exactly when its length is below 48 or no multiple of 8, or its format or service action is another one; otherwise the walk starts at 40. |
| Continuation.SectionLayout | osd-target/cdb.c:1391-1413 | The bytes of a section as they are parsed: type at 0, pad length in the low three bits at 3, length at 4, the body at 8, and the padding. |

## Left out

- SQLite and the file system: statements are their meaning over the tables, rows come in the order of the primary key
  although the id listing has no ORDER BY, and file calls transfer everything or fail on offsets beyond 2^63. Busy and
  schema-change repeats, transactions, out-of-memory and media errors are not part of the model, except for the
  injected faults of object and file creation.
- Transfers of 2^31 bytes and more in one piece, where the C code keeps the count in an `int`.
- pan_*.c, the transport, the sense data, timestamps, statistics and tracing.
- ListReply.Continuation: takes the timestamp row of each object first, as the statement is meant to deliver it;
  `ListOwners.AnyRun` and `ListOwners.WhenEntriesAreOwned` say what holds without it.
- ListReply.WhenCollectsAll: takes the same rows; `ListTables.WhenListingIsComplete` is the form over any tables.
- ListTables.WhenListingIsComplete: takes an allocation of a multiple of 8 bytes, at least 24 for the header and below
  2^32 + 40, for which the builder cannot fail once an object is open (`ListReply.WhenNeverFails`).
- ListWithAttrs.ListOidsAttr: takes the reply area to start on an 8-byte boundary and `used_outlen` to start at 0, as
  its only caller arranges; the text of its SELECT is represented by the rows it returns.
- RetrievedAttrs.GetattrList: takes the rows that are found, and so leaves out the values computed for the current
  command and for information, quota and timestamp pages, and what a first retrieval initialises. Get-page format and
  directory pages are not part of the model.
- SetThenGet.ApplyList: ends with the outcome `Elsewhere` at a logical length of fewer than eight bytes, for which the
  source also reads the padding, and at the system id of the root, which depends on the command before; and so does
  `SetThenGet.SetOnObjects`. A list that is not all there ends in `Overrun` before anything is set.
- SetThenGet.SetOnObjects: see `SetThenGet.ApplyList`.
- SetThenGet.LastEntryWins: is about attributes kept in the table, and `SetThenGet.GetReturnsWhatWasSet` about those on
  user-defined pages.
- SetAttrList.ParseSetattrList: a list that is not all there ends in `Overrun`, also when only the padding behind its
  last value is missing, which the source would not notice.
- Query.BuildStatement: the text of the statement is a sequence of tokens without SQLite's limit on the number of
  SELECTs that one statement can chain.
- Namespace.NextOid: a partition whose only ids lie above 2^63 counts as empty, which no run reaches.
- Median.SelectMedian: draws any pivot of the range, leaving out the overflow of `(right - left) * rand()`; values are
  reals, so rounding of the mean is not part of the model.
- QueryCriteria.Table: one array of records instead of seven parallel arrays, and a limit that does not wrap, which
  would take 2^31 criteria.
- IdListing.OsdList: listing collections and their members uses the same loop and header, without the overflow check
  of the header length, and has no member of its own.
- `coll_copyoids` and collection copies, `mtq_set_member_attrs`, `osd_read_map`, append, clear, CREATE AND WRITE, the
  compare-and-swap commands with the byte counts of `exec_getattr`, flush, keys, format, directories, and commands
  that only report "unimplemented".
- The dispatch of service actions beyond the modelled commands, and the checks of permissions.
