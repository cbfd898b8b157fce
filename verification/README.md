# Verified models of libarchive's self-contained core

A Dafny model of the parts of libarchive 3.7.2 that compute rather than call
the system, and proofs about them. Each C function that changes state step by
step is a method with the same steps, proved against a function on values; the
promises of the library are theorems about those functions.

- `LinkSpec`, `LinkTable`, `LinkRuns`, `LinkDriver`, `LinkHash`: the hard-link
  resolver. `LinkTable` has the hash table with its doubly linked chains, its
  growth and its held entries, and shows that it is a map with one step a call.
  `LinkRuns` says what whole runs hand back, by the input alone, and
  `LinkDriver` carries that over to the entry objects.
- `Blake2s`, `Blake2sWords`, `Blake2sp`, `Blake2spWords`: the streaming hash, its
  compression on arrays, and the eight-leaf tree over both. `Blake2sAnswer` is one
  hash value, proved round by round.
- `Acl`, `AclText`, `AclPrinter`, `AclParse`, `AclRoundTrip`: access control
  lists, their text with the length computed in advance, the parser, and that
  the parser undoes the printer.
- `PathClass`, `PathMatch`: character classes and the path matcher. `PathGlob` says
  exactly what the matcher answers, `PathLanguage` when that is the language of the
  pattern, `PathSafety` when it never reads past the subject, and `PathWords` what
  common patterns match.
- `Ctr`, `Crc32`, `CmdLine` with `CmdQuote`, `FileFlags`, `Sparse`,
  `TrivialAcl`: streaming counter mode, the check sum, the command-line
  splitter, file flags as text, sparse extents, and the translation of a mode
  to NFSv4 entries.
- `Bits`, `Text`, `Wrappers`: what several of these share.

How C is rendered: a C string is the characters before its terminator and a
pointer into it is an index; a bit mask is the set of its named bits; 32-bit and
64-bit counters wrap explicitly; error returns are `Option` or a status. A method
may be divided into several where the C function is one long loop.

Some properties hold only under a condition, and the theorem then says exactly
when.

- A name that is a number is taken for the id when ACL text is read, a missing
  name is read as the id, a name with separators or outer blanks is cut, and a
  tag without a qualifier loses name and id (`Survives`).
- The ACL text length counts thirteen characters for the id of an unnamed entry,
  which NFSv4 text may hold twice; a text fits exactly when what is missing is
  made up for elsewhere (`HasRoom`). `OverlongText` is a list that does not fit.
- A class in a path pattern may match the terminator of the subject, after which
  the matcher reads on; such runs have the outcome `Overrun`, exactly in the
  cases of `Overruns`. Negated classes do that and, where plain characters have
  a sign, also ranges from above 127 to below (`TerminatorMatches`).
- Without an anchor at the start of a path pattern, what stands behind a star is
  matched like a pattern of its own and does not begin at a slash, unless behind
  another one (`MayBegin`). Matches are lost only where an element right behind
  stars fits a slash, or is a leading "./" or a final anchor (`StarsStop`), or
  where it fits a dot that stands before a slash, since a leading "./" of the
  subject is passed over there (`DotsStop`).
- An empty word on a command line repeats the argument before it, because
  emptying the string buffer leaves its characters in place, and a last empty
  word is dropped unless spaces follow it.
- A flag in both masks is printed only once (`BitInBoth`).
- A list of sparse extents is cloned exactly if all of them still lie within the
  size (`ShrunkSizeLoses`).

Where comments and code disagree, the model follows the code: the NFSv4
permission and flag readers accept an empty field although their comments ask
for a nonempty one, a field of ACL text also ends at `#`, and a failed attempt at
a Solaris-style permission field keeps the bits it has read (`SolarisFieldIsRead`).

## Model

| member | source | states |
|---|---|---|
| `LinkDriver.WholeRun` | original/libarchive-3.7.2/libarchive/archive_entry_link_resolver.c:173-258 | A whole new-cpio run on entry objects, feeding and then draining: each entry comes back exactly once, and ends with its size if it is the last of its group, otherwise sizeless and a hard link to the first pathname; nothing else about it changes, and nothing at all of an entry with a single link, a directory or a device |
| `LinkRuns.NewCpioConservation` | original/libarchive-3.7.2/libarchive/archive_entry_link_resolver.c:200-258 | The same for any input sequence and any order of draining, on values: what is handed back is, as a multiset, one fate for each position |
| `LinkRuns.NewCpioFeed` | original/libarchive-3.7.2/libarchive/archive_entry_link_resolver.c:221-253 | After any prefix of the input, exactly the positions that are not held back have been handed back, each once |
| `LinkRuns.OneGroupPerFile` | original/libarchive-3.7.2/libarchive/archive_entry_link_resolver.c:293-310 | If a file turns up no more often than its link count says, all its names are one group led by the first |
| `LinkRuns.OnlyLastKeepsBody` | original/libarchive-3.7.2/libarchive/archive_entry_link_resolver.c:221-253 | Then exactly one name keeps its body, the last one handed in, and every other becomes a hard link to the first without one |
| `LinkRuns.TarRun` | original/libarchive-3.7.2/libarchive/archive_entry_link_resolver.c:200-217 | Under the tar and mtree strategies call number i hands back entry i, unchanged if it leads its group or is a directory, a device or a file with a single link, and otherwise a hard link to the leader, without its size for tar |
| `LinkRuns.OldCpioRun` | original/libarchive-3.7.2/libarchive/archive_entry_link_resolver.c:218-220 | The old cpio strategy hands everything back unchanged and remembers nothing |
| `LinkRuns.OneFileRun` | original/libarchive-3.7.2/libarchive/archive_entry_link_resolver.c:200-258 | Names of one file, one after the other: the cache and what is handed back after each of them, in terms of the entries themselves, for tar, mtree and new cpio |
| `LinkRuns.CacheIsOpenGroups` | original/libarchive-3.7.2/libarchive/archive_entry_link_resolver.c:260-381 | After any prefix the cache has a record of a file exactly when its last group is incomplete, with the first pathname, the links still missing and, for new cpio, the newest entry |
| `LinkTable.Resolver.Linkify` | original/libarchive-3.7.2/libarchive/archive_entry_link_resolver.c:173-258 | One call on the hash table and the entries takes the map to its next state, hands back what the map predicts and changes the entries accordingly. By the fields alone: a single link, a directory or a device is handed back as it is and the table stays the same; the first name of any other file is remembered, with its links less one, and held back for new cpio only |
| `LinkTable.Resolver.Drain` | original/libarchive-3.7.2/libarchive/archive_entry_link_resolver.c:182-189 | A call with no entry hands back some entry that is held, removes its record and forgets the entry in it, or hands back nothing if none is held |
| `LinkTable.Resolver.FindEntry` | original/libarchive-3.7.2/libarchive/archive_entry_link_resolver.c:260-310 | A lookup finds a record exactly when the map has the key, counts the link and removes the record at zero |
| `LinkTable.Resolver.InsertEntry` | original/libarchive-3.7.2/libarchive/archive_entry_link_resolver.c:351-381 | An insertion adds exactly one record to the map, with links counted as 32 bits, after growing the table when it is too full |
| `LinkTable.Resolver.GrowHash` | original/libarchive-3.7.2/libarchive/archive_entry_link_resolver.c:383-418 | Growing moves every record to its new bucket and changes neither the map nor the set of records |
| `LinkTable.Resolver.NextEntry` | original/libarchive-3.7.2/libarchive/archive_entry_link_resolver.c:312-349 | Enumeration hands out a record of the wanted sort and removes it, or there is none |
| `LinkTable.Resolver.PartialLinks` | original/libarchive-3.7.2/libarchive/archive_entry_link_resolver.c:420-447 | A name with missing links is handed out with how many are missing, and removed |
| `LinkTable.Resolver.TableRecords` | original/libarchive-3.7.2/libarchive/archive_entry_link_resolver.c:260-418 | The number of buckets is a power of two, the entry count is exact and at most twice that plus one, and records and keys of the map correspond one to one |
| `LinkTable.Resolver.TableChains` | original/libarchive-3.7.2/libarchive/archive_entry_link_resolver.c:279-310 | Chains are doubly linked and each record sits in the bucket of its hash masked with the number of buckets less one |
| `LinkHash.MaskIsRemainder` | original/libarchive-3.7.2/libarchive/archive_entry_link_resolver.c:282-282 | Masking with a power of two less one is the remainder, hence a bucket number |
| `Blake2s.State.Update` | original/libarchive-3.7.2/libarchive/archive_blake2s_ref.c:216-241 | After any update the state is that of the concatenated input: the last block is never compressed early, so the buffer is empty only for empty input |
| `Blake2s.State.IncrementCounter` | original/libarchive-3.7.2/libarchive/archive_blake2s_ref.c:63-67 | The number that the two counter words make up grows by the increment, modulo 2^64 |
| `Blake2s.CounterStep` | original/libarchive-3.7.2/libarchive/archive_blake2s_ref.c:63-67 | Adding to the low word with its carry test is adding to the 64-bit count |
| `Blake2s.State.Final` | original/libarchive-3.7.2/libarchive/archive_blake2s_ref.c:243-265 | Final gives the hash of all the input (section 3.3 of RFC 7693), or an error for a buffer that is too short or a second call |
| `Blake2s.Init` | original/libarchive-3.7.2/libarchive/archive_blake2s_ref.c:95-148 | Initialization checks both lengths, and a key becomes the first block |
| `Blake2s.OneShot` | original/libarchive-3.7.2/libarchive/archive_blake2s_ref.c:267-294 | The one-shot function gives the digest, or an error for wrong lengths |
| `Blake2s.Streamed` | original/libarchive-3.7.2/libarchive/archive_blake2s_ref.c:216-294 | Cutting the input into any updates gives the digest of its concatenation |
| `Blake2sWords.CompressInto` | original/libarchive-3.7.2/libarchive/archive_blake2s_ref.c:174-213 | The compression on local arrays, ten rounds over a sixteen-word vector in place, computes the function of section 3.2 of RFC 7693 |
| `Blake2sAnswer.KnownAnswer` | original/libarchive-3.7.2/libarchive/archive_blake2s_ref.c:25-43 | The hash of the bytes 0 to 63, sixteen different words, is the published one: the message schedule, the rotations and the counters are as they should be |
| `Blake2sWords.MixAll` | original/libarchive-3.7.2/libarchive/archive_blake2s_ref.c:155-213 | The rounds, written lane by lane into one array, are the rounds as a function of the whole vector |
| `Blake2sWords.SequentialInitialValue` | original/libarchive-3.7.2/libarchive/archive_blake2s_ref.c:69-115 | The parameter block for sequential hashing gives the initial value of section 3.3 of RFC 7693 |
| `Blake2sWords.ChainOfWords` | original/libarchive-3.7.2/libarchive/archive_blake2s_ref.c:216-241 | Every chaining value is eight words, each made from the one before by the compression that the arrays compute |
| `Blake2sWords.StreamedBlake2s` | original/libarchive-3.7.2/libarchive/archive_blake2s_ref.c:216-294 | So hashing in pieces with that compression gives BLAKE2s itself, for every key and every way of cutting the message |
| `Blake2sp.StreamedTree` | original/libarchive-3.7.2/libarchive/archive_blake2sp_ref.c:80-213 | For every message, key and way of cutting it into updates, the tree digest is that of the concatenation, which the one-shot function computes too |
| `Blake2sp.OneShotTree` | original/libarchive-3.7.2/libarchive/archive_blake2sp_ref.c:216-291 | The one-shot tree hash gives the tree digest, or an error for wrong lengths |
| `Blake2spWords.StreamedBlake2sp` | original/libarchive-3.7.2/libarchive/archive_blake2sp_ref.c:80-213 | With the compression on words, hashing in pieces gives BLAKE2sp itself: the root over eight leaf hashes of 32 bytes |
| `Blake2spWords.LeafParameters` | original/libarchive-3.7.2/libarchive/archive_blake2sp_ref.c:45-61 | The parameter block of leaf i, byte by byte: fanout 8, depth 2, offset i, node depth 0, inner length 32 |
| `Blake2spWords.RootParameters` | original/libarchive-3.7.2/libarchive/archive_blake2sp_ref.c:63-79 | That of the root: offset 0 and node depth 1 |
| `Blake2sp.TreeState.Update` | original/libarchive-3.7.2/libarchive/archive_blake2sp_ref.c:135-184 | After any update the leaves have absorbed their stripes of all whole groups of eight blocks and the buffer holds the rest |
| `Blake2sp.TreeState.Final` | original/libarchive-3.7.2/libarchive/archive_blake2sp_ref.c:186-213 | Final feeds each leaf its share of the buffer and the root the eight leaf digests |
| `Blake2sp.StripeAt` | original/libarchive-3.7.2/libarchive/archive_blake2sp_ref.c:152-176 | Leaf i absorbs, in order, exactly the 64-byte blocks whose index is i modulo eight |
| `Blake2sp.StripesCoverMessage` | original/libarchive-3.7.2/libarchive/archive_blake2sp_ref.c:152-176 | The eight stripes together are as long as the message |
| `Blake2sp.MakeLeaves` | original/libarchive-3.7.2/libarchive/archive_blake2sp_ref.c:101-133 | All leaves start with their own offset and, if there is a key, the key block |
| `Blake2sp.FeedLeaves` | original/libarchive-3.7.2/libarchive/archive_blake2sp_ref.c:152-176 | Whole groups of blocks go to the leaves in turn |
| `Blake2sp.FinishLeaves` | original/libarchive-3.7.2/libarchive/archive_blake2sp_ref.c:186-206 | The leaf digests are those of the stripes, the last one marked as the last node |
| `Acl.AddKeepsInv` | original/libarchive-3.7.2/libarchive/archive_acl.c:241-363 | Every add, accepted or not, keeps the list invariant: the type mask is the union of the types in the list, POSIX.1e and NFSv4 are never mixed, no standard access entry is in the list, and no entry could overwrite an earlier one |
| `Acl.WhenAddFails` | original/libarchive-3.7.2/libarchive/archive_acl.c:268-321 | An add other than into the mode fails exactly for an unknown tag, a mask or other tag in NFSv4, an everyone tag in POSIX.1e, a permission outside those of the type, or a list of the other family, and then changes nothing |
| `Acl.WhereAddGoes` | original/libarchive-3.7.2/libarchive/archive_acl.c:328-363 | Otherwise it succeeds: the entry takes the place of the first with the same type, tag and id, where these identify one, and nothing else changes; or it is appended and its type added |
| `Acl.StandardEntryIsStored` | original/libarchive-3.7.2/libarchive/archive_acl.c:241-262 | An access entry of user, group or other with POSIX.1e permissions always succeeds and sets its own three bits, the list as before |
| `Acl.KeysAreUnique` | original/libarchive-3.7.2/libarchive/archive_acl.c:334-346 | Two POSIX.1e entries never share type, tag and id, except named ones with id -1 |
| `Acl.CopyIsExact` | original/libarchive-3.7.2/libarchive/archive_acl.c:150-166 | Re-adding the entries of a good list one by one gives the same entries in order and the same types |
| `Acl.AclList.CopyOf` | original/libarchive-3.7.2/libarchive/archive_acl.c:150-166 | A copy has the mode, list and types of its source |
| `Acl.AclList.Special` | original/libarchive-3.7.2/libarchive/archive_acl.c:241-265 | Exactly the standard access entries with POSIX.1e permissions go into the mode, each into its own three bits |
| `Acl.AclList.New` | original/libarchive-3.7.2/libarchive/archive_acl.c:268-363 | A new entry is refused, overwrites the first with its key, or is appended |
| `Acl.AclList.Add` | original/libarchive-3.7.2/libarchive/archive_acl.c:168-186 | An add changes mode or list as the two functions above say, and reports it |
| `AclText.TextFits` | original/libarchive-3.7.2/libarchive/archive_acl.c:532-657 | For every list, type and style, the computed length covers the text and its terminator if and only if the list has room: what is counted too little for some entries is made up for by others |
| `AclText.TextSlack` | original/libarchive-3.7.2/libarchive/archive_acl.c:532-657 | The computed length differs from the size of the text by exactly the total slack, an amount read off the entries |
| `AclText.LineSlack` | original/libarchive-3.7.2/libarchive/archive_acl.c:545-637 | The room counted for an entry differs from its line by exactly its slack: unset permission letters, default marks, and id fields counted but not written or written but not counted |
| `AclText.RoomyTextFits` | original/libarchive-3.7.2/libarchive/archive_acl.c:532-657 | Every POSIX.1e list has room, and every NFSv4 list with the extra id or with names |
| `AclText.OverlongText` | original/libarchive-3.7.2/libarchive/archive_acl.c:586-637 | A concrete NFSv4 list without room: one unnamed user with a seven-digit id, which is written twice |
| `AclText.TextOfMode` | original/libarchive-3.7.2/libarchive/archive_acl.c:897-966 | The text of a list without entries is the three lines of the mode, also when neither type is asked for |
| `AclText.DashedText` | original/libarchive-3.7.2/libarchive/archive_acl.c:83-128 | In text that is not compact each permission and flag has its own place, with its letter or a dash |
| `AclText.CompactText` | original/libarchive-3.7.2/libarchive/archive_acl.c:1087-1101 | Compact text is the same without the dashes |
| `AclText.DigitsOfPower` | original/libarchive-3.7.2/libarchive/archive_acl.c:627-637 | The digit count is at most d + 1 exactly below the power of ten |
| `AclPrinter.TextLen` | original/libarchive-3.7.2/libarchive/archive_acl.c:532-657 | The length loop computes the specified length |
| `AclPrinter.CountDigits` | original/libarchive-3.7.2/libarchive/archive_acl.c:627-637 | The digit loop computes the length of the printed id |
| `AclPrinter.ToTextInBuffer` | original/libarchive-3.7.2/libarchive/archive_acl.c:897-1001 | Printing a list with room into a buffer of exactly the computed length never leaves it, and gives the specified text |
| `AclPrinter.AppendEntry` | original/libarchive-3.7.2/libarchive/archive_acl.c:1013-1123 | One entry is appended field by field |
| `AclPrinter.AppendId` | original/libarchive-3.7.2/libarchive/archive_acl.c:1003-1011 | An id is appended in decimal, a negative one as 0 |
| `AclPrinter.AppendMap` | original/libarchive-3.7.2/libarchive/archive_acl.c:1087-1101 | The letters of the permission maps are appended, with or without dashes |
| `AclParse.ScanField` | original/libarchive-3.7.2/libarchive/archive_acl.c:2058-2097 | A field, its terminator and its comment are found as specified, and the scanner always moves on |
| `AclParse.ScanEntry` | original/libarchive-3.7.2/libarchive/archive_acl.c:1657-1677 | The fields of an entry are read to its end, those beyond the array only counted |
| `AclParse.ScanInt` | original/libarchive-3.7.2/libarchive/archive_acl.c:1888-1908 | A decimal number is read, INT_MAX if it is larger; anything else leaves the result alone |
| `AclParse.ScanLetters` | original/libarchive-3.7.2/libarchive/archive_acl.c:1949-2050 | Permission letters are read up to the first that is none, keeping what was read |
| `AclParse.ScanPosixEntry` | original/libarchive-3.7.2/libarchive/archive_acl.c:1706-1790 | A POSIX.1e entry is read from its fields, with the Solaris forms and the id in either place |
| `AclParse.SolarisFieldIsRead` | original/libarchive-3.7.2/libarchive/archive_acl.c:1750-1788 | Permissions right behind other or mask are accepted exactly when all characters are letters or a bit is set before the first that is none, and are the bits set before it |
| `AclParse.BadLetterIsKept` | original/libarchive-3.7.2/libarchive/archive_acl.c:1750-1788 | A concrete entry that is accepted with a character that is no permission letter |
| `AclParse.ScanNfs4` | original/libarchive-3.7.2/libarchive/archive_acl.c:1791-1868 | An NFSv4 entry is read from its fields |
| `AclParse.Scan` | original/libarchive-3.7.2/libarchive/archive_acl.c:1620-1880 | The whole text is read into the list, with the list and status that the specification gives |
| `AclParse.ReadingKeepsInv` | original/libarchive-3.7.2/libarchive/archive_acl.c:1653-1874 | Whatever the text, reading it keeps the list invariant |
| `AclParse.ShortTags` | original/libarchive-3.7.2/libarchive/archive_acl.c:1713-1746 | Exactly the full words and their first letters are POSIX.1e tags |
| `AclParse.MarkedEntries` | original/libarchive-3.7.2/libarchive/archive_acl.c:1694-1704 | A field d or default in front, or default right before the tag, makes a default entry of what follows |
| `AclParse.ShortUser` | original/libarchive-3.7.2/libarchive/archive_acl.c:1706-1790 | The entries that u:joe:rwx and d:u:joe:rwx give |
| `AclParse.PermLetters` | original/libarchive-3.7.2/libarchive/archive_acl.c:1949-2010 | Which letter stands for which NFSv4 permission |
| `AclParse.FlagLetters` | original/libarchive-3.7.2/libarchive/archive_acl.c:1915-2050 | Which letter stands for which inheritance flag, and for which mode bit in either case |
| `AclParse.Nfs4Words` | original/libarchive-3.7.2/libarchive/archive_acl.c:1791-1850 | Which words are NFSv4 tags and types |
| `AclRoundTrip.PosixRoundTrip` | original/libarchive-3.7.2/libarchive/archive_acl.c:897-1123 | Any POSIX.1e list printed with access and default entries, in any style, is read back exactly, with the nine mode bits, order and types, if and only if every entry survives |
| `AclRoundTrip.SelectedRoundTrip` | original/libarchive-3.7.2/libarchive/archive_acl.c:897-1123 | Of a list printed with only one of the two types, with marks or without, exactly the entries of that type are read back, and the mode bits only from access text, if and only if those entries survive |
| `AclRoundTrip.Nfs4RoundTrip` | original/libarchive-3.7.2/libarchive/archive_acl.c:1013-1123 | So is an NFSv4 list, with duplicates, all permission and inheritance bits and all four types, compact or dashed |
| `AclRoundTrip.SurvivesWhenRead` | original/libarchive-3.7.2/libarchive/archive_acl.c:1705-1711 | An entry survives, as its name, id and the style say, exactly when reading its line gives the same entry: names and ids on tags without a qualifier are lost, unnamed entries get their id as name, and a number is taken for the id |
| `AclRoundTrip.ReadNamesAreClean` | original/libarchive-3.7.2/libarchive/archive_acl.c:2058-2097 | Whatever the text, no name that is read has a separator or outer blanks, so an entry with such a name never survives |
| `AclRoundTrip.NumericNameIsTaken` | original/libarchive-3.7.2/libarchive/archive_acl.c:1705-1711 | A concrete entry whose id does not survive |
| `AclRoundTrip.PosixLineIsRead` | original/libarchive-3.7.2/libarchive/archive_acl.c:1706-1790 | Reading the fields of a printed POSIX.1e line gives the entry, with the name and id that are read back |
| `AclRoundTrip.Nfs4LineIsRead` | original/libarchive-3.7.2/libarchive/archive_acl.c:1791-1868 | The same for an NFSv4 line |
| `AclRoundTrip.LinesAreRead` | original/libarchive-3.7.2/libarchive/archive_acl.c:1653-1874 | Reading a text of lines adds what each line says, in order |
| `AclRoundTrip.SplitOfJoin` | original/libarchive-3.7.2/libarchive/archive_acl.c:1657-1677 | Splitting undoes joining clean fields with colons |
| `AclRoundTrip.DigitsRoundTrip` | original/libarchive-3.7.2/libarchive/archive_acl.c:1888-1908 | Reading the digits of any 32-bit id gives the id, without saturation |
| `AclRoundTrip.MapRoundTrip` | original/libarchive-3.7.2/libarchive/archive_acl.c:86-128 | Reading the letters of any permission set gives exactly the bits the map knows |
| `AclRoundTrip.MapsKnowAll` | original/libarchive-3.7.2/libarchive/archive_acl.c:86-128 | The two maps know all fourteen permissions and seven inheritance flags |
| `AclRoundTrip.ModeRoundTrip` | original/libarchive-3.7.2/libarchive/archive_acl.c:1915-1942 | Reading three mode letters gives the permissions that were printed |
| `AclRoundTrip.ListIsRebuilt` | original/libarchive-3.7.2/libarchive/archive_acl.c:241-363 | Adding what is read back to an empty list gives the list exactly when every entry survives |
| `PathGlob.MatchDecides` | original/libarchive-3.7.2/libarchive/archive_pathmatch.c:170-273 | For every pattern without a caret where a match begins, every subject and any flags, the outcome is exactly this: of the subjects that the entry point tries, the first that is overrun or taken decides, an overrun or a match. Slashes take runs of slashes and dot elements, a star what lies before any place, without an anchor at the start only before one where no slash stands or right behind one |
| `PathWords.WordsDecide` | original/libarchive-3.7.2/libarchive/archive_pathmatch.c:170-421 | Plain words joined by slashes match, whatever the flags, exactly the subjects that are those words in order with runs of slashes and dot elements between neighbours, and behind the last word, or the slash behind it, only such a run, or anything behind a slash without an anchor at the end; without an anchor at the start, from some path element on |
| `PathWords.CaretAnchors` | original/libarchive-3.7.2/libarchive/archive_pathmatch.c:390-394 | A caret at the start sets the anchor, and the rest is matched as without it |
| `PathWords.LoneCarets` | original/libarchive-3.7.2/libarchive/archive_pathmatch.c:390-394 | Nothing but a caret matches what may remain behind a match, and a second caret stands for itself |
| `PathWords.CaretBehindStar` | original/libarchive-3.7.2/libarchive/archive_pathmatch.c:194-207 | Behind a star it anchors what follows |
| `PathGlob.SkipsRun` | original/libarchive-3.7.2/libarchive/archive_pathmatch.c:149-159 | What is skipped at a slash is the longest run of slashes and of dots that are elements by themselves |
| `PathGlob.InTries` | original/libarchive-3.7.2/libarchive/archive_pathmatch.c:194-207 | Behind stars exactly those places are tried |
| `PathLanguage.TakesIsAccepts` | original/libarchive-3.7.2/libarchive/archive_pathmatch.c:170-273 | What is taken is in the language, with a rest that may remain; what is in the language is taken if right behind stars stand only slashes and single characters, which fit a slash only with an anchor at the start, and a dot only if the subject has none before a slash |
| `PathLanguage.LanguageDecides` | original/libarchive-3.7.2/libarchive/archive_pathmatch.c:381-416 | So the matcher decides the language of the pattern over the subjects that it tries, the whole one or its path elements, under those conditions on what follows stars |
| `PathLanguage.OnlyAcceptedMatches` | original/libarchive-3.7.2/libarchive/archive_pathmatch.c:381-416 | Without them matches may be lost, but nothing outside the language matches |
| `PathWords.ExclusionMatches` | original/libarchive-3.7.2/libarchive/archive_match.c:776-787 | With both anchors off, as for exclusions, a pattern like a*b matches exactly the paths with an element that begins with the one letter and the other letter at the end of an element further on |
| `PathLanguage.MatchIsLanguage` | original/libarchive-3.7.2/libarchive/archive_pathmatch.c:170-273 | The matcher simply decides the language wherever no class that matches the terminator can be reached at the end of a subject |
| `PathGlob.InPathElements` | original/libarchive-3.7.2/libarchive/archive_pathmatch.c:408-416 | The elements that are tried are the suffixes at the start or behind a slash, all of them and no others |
| `PathWords.StarSkipsSlash` | original/libarchive-3.7.2/libarchive/archive_pathmatch.c:194-207 | A question mark right behind a star does fit one, and a match is lost: a concrete case |
| `PathSafety.NeverOverruns` | original/libarchive-3.7.2/libarchive/archive_pathmatch.c:170-273 | A pattern none of whose classes matches the terminator never reads past the subject, whatever the flags and the order of characters |
| `PathSafety.ClassOverruns` | original/libarchive-3.7.2/libarchive/archive_pathmatch.c:210-230 | Every class that does match the terminator overruns a subject |
| `PathSafety.SignedRangeOverruns` | original/libarchive-3.7.2/libarchive/archive_pathmatch.c:55-100 | Where plain characters have a sign, a range from above 127 to below, without a negation, is such a class |
| `PathLanguage.AcceptsStar` | original/libarchive-3.7.2/libarchive/archive_pathmatch.c:194-207 | A star stands for anything: some suffix is accepted by the rest of the pattern |
| `PathLanguage.AcceptsSlash` | original/libarchive-3.7.2/libarchive/archive_pathmatch.c:244-255 | A slash stands for a run of separators, all there are |
| `PathClass.PmList` | original/libarchive-3.7.2/libarchive/archive_pathmatch.c:55-100 | The class scanner answers membership in the characters and ranges that the body denotes, and a leading ! or ^ gives exactly the complement, for signed and unsigned characters |
| `PathClass.TerminatorMatches` | original/libarchive-3.7.2/libarchive/archive_pathmatch.c:55-100 | A class matches the terminator exactly when it is negated and no range of it crosses zero, or is not negated and one does |
| `PathClass.ItemsOfShow` | original/libarchive-3.7.2/libarchive/archive_pathmatch.c:39-54 | Every sequence of characters and ranges can be written as a body that denotes it |
| `PathClass.ClassOfShow` | original/libarchive-3.7.2/libarchive/archive_pathmatch.c:39-100 | Every class, of any items or of all but them, behind either mark, can be written as a body that matches just that |
| `PathClass.PlainDashes` | original/libarchive-3.7.2/libarchive/archive_pathmatch.c:55-100 | A dash at the start or at the end of a class stands for itself |
| `PathMatch.ShownClassIsFound` | original/libarchive-3.7.2/libarchive/archive_pathmatch.c:210-219 | In a pattern that body is found whole, whatever its characters |
| `PathMatch.PmAt` | original/libarchive-3.7.2/libarchive/archive_pathmatch.c:170-273 | The matching loop, with its recursion through the entry point, computes the specified answer; so it terminates |
| `PathMatch.MatchAt` | original/libarchive-3.7.2/libarchive/archive_pathmatch.c:381-421 | The entry point computes the specified answer for every combination of flags |
| `PathMatch.ElementsAt` | original/libarchive-3.7.2/libarchive/archive_pathmatch.c:408-416 | Without an anchor at the start the elements of the path are tried in turn |
| `PathMatch.FindClassEnd` | original/libarchive-3.7.2/libarchive/archive_pathmatch.c:210-219 | The end of a class is found, escaped brackets skipped |
| `PathMatch.ClassIsComplete` | original/libarchive-3.7.2/libarchive/archive_pathmatch.c:210-219 | A class that is found closed has complete escapes, which the class scanner relies on |
| `PathMatch.SkipSlashes` | original/libarchive-3.7.2/libarchive/archive_pathmatch.c:152-159 | Slashes and dot elements are skipped as specified |
| `Ctr.Context.Update` | original/libarchive-3.7.2/libarchive/archive_cryptor.c:488-523 | A call combines its input with one fixed key stream at the current position and moves on by as much, and succeeds exactly when every key block it needs can be made |
| `Ctr.UpdateAll` | original/libarchive-3.7.2/libarchive/archive_cryptor.c:488-523 | Any sequence of calls gives the whole input combined with the key stream, so the cuts do not matter |
| `Ctr.CombinedInParts` | original/libarchive-3.7.2/libarchive/archive_cryptor.c:488-523 | Combining in parts is combining the whole |
| `Ctr.CombinedTwice` | original/libarchive-3.7.2/libarchive/archive_cryptor.c:488-523 | Combining twice from the same position gives the input back |
| `Ctr.IncreaseCounter` | original/libarchive-3.7.2/libarchive/archive_cryptor.c:476-486 | The counter is increased byte by byte in place, the other half of the nonce untouched |
| `Ctr.IncreasedValue` | original/libarchive-3.7.2/libarchive/archive_cryptor.c:476-486 | The increase is by one on a little-endian number, modulo its range |
| `Ctr.CounterValue` | original/libarchive-3.7.2/libarchive/archive_cryptor.c:476-486 | After m blocks the eight bytes are m modulo 2^64 |
| `Ctr.KeyByteIs` | original/libarchive-3.7.2/libarchive/archive_cryptor.c:476-523 | Byte p of the key stream is byte p modulo 16 of the enciphered block whose low half is the number of the block, counted from one, and whose high half is zero |
| `Ctr.Context.constructor` | original/libarchive-3.7.2/libarchive/archive_cryptor.c:387-402 | A new context is at the start of its key stream |
| `Ctr.Context.NextBlock` | original/libarchive-3.7.2/libarchive/archive_cryptor.c:407-420 | The counter goes up and its key block is made, or the cipher fails |
| `Crc32.Table.Compute` | original/libarchive-3.7.2/libarchive/archive_crc32.h:43-81 | The unrolled loop over the table computes the bitwise reflected CRC (section 8 of RFC 1952) of every input |
| `Crc32.Table.Fill` | original/libarchive-3.7.2/libarchive/archive_crc32.h:51-63 | The table holds the remainders of all 256 bytes |
| `Crc32.GeneratorTerms` | original/libarchive-3.7.2/libarchive/archive_crc32.h:51-63 | The polynomial is the reflected generator, given by its exponents, and the mask of the register is all ones |
| `Crc32.TableStep` | original/libarchive-3.7.2/libarchive/archive_crc32.h:68-79 | One look into the table is eight steps of the bitwise division |
| `Crc32.ShiftIsLinear` | original/libarchive-3.7.2/libarchive/archive_crc32.h:54-59 | A step of the division is linear over exclusive or |
| `Crc32.CrcConcat` | original/libarchive-3.7.2/libarchive/archive_crc32.h:43-81 | Going on from the check value of a first part gives that of the whole |
| `Crc32.SeesOneByte` | original/libarchive-3.7.2/libarchive/archive_crc32.h:43-81 | Texts that differ in one byte have different check values |
| `Crc32.RegisterBound` | original/libarchive-3.7.2/libarchive/archive_crc32.h:65-80 | The register stays within 32 bits |
| `CmdQuote.SplittingUndoesSpelling` | original/libarchive-3.7.2/libarchive/archive_cmdline.c:44-158 | However a list of words is spelled, with backslashes, quotations and spaces, also at the end, it comes back as the path and arguments exactly when no word is empty |
| `CmdQuote.EmptyWordRepeats` | original/libarchive-3.7.2/libarchive/archive_cmdline.c:142-155 | An empty quotation between words comes back as the word before it |
| `CmdQuote.SpaceRepeats` | original/libarchive-3.7.2/libarchive/archive_cmdline.c:142-155 | So does one behind the last word if spaces end the line, and it is dropped if not |
| `CmdQuote.ArgumentsOfLine` | original/libarchive-3.7.2/libarchive/archive_cmdline.c:142-155 | The arguments of any spelled line are its words, empty ones replaced and one at the very end dropped |
| `CmdQuote.EveryWordIsSpelled` | original/libarchive-3.7.2/libarchive/archive_cmdline.c:44-66 | Every word has a spelling |
| `CmdQuote.BasenameIsLast` | original/libarchive-3.7.2/libarchive/archive_cmdline.c:131-137 | The first argument is the part of the path behind its last slash |
| `CmdQuote.OpenQuotationFails` | original/libarchive-3.7.2/libarchive/archive_cmdline.c:44-66 | A line that ends inside a quotation fails, as path and in the arguments |
| `CmdQuote.EmptyPathFails` | original/libarchive-3.7.2/libarchive/archive_cmdline.c:118-127 | So does one whose path is empty, quoted or not |
| `CmdLine.Command.Parse` | original/libarchive-3.7.2/libarchive/archive_cmdline.c:108-158 | The parser sets path and arguments, and fails for an open quotation or an empty path |
| `CmdLine.GetArgument` | original/libarchive-3.7.2/libarchive/archive_cmdline.c:68-100 | A word is read into the buffer, which keeps its old characters when the word is empty |
| `CmdLine.ExtractQuotation` | original/libarchive-3.7.2/libarchive/archive_cmdline.c:44-66 | A quotation is read to its closing quote, or there is none |
| `FileFlags.RoundTrip` | original/libarchive-3.7.2/libarchive/archive_entry.c:1951-2061 | For any unambiguous table of single-bit flags, reading the text of two masks gives exactly their known bits with no failed token, if and only if no known bit is in both |
| `FileFlags.BitInBoth` | original/libarchive-3.7.2/libarchive/archive_entry.c:1951-1994 | A concrete flag, both set and cleared, that comes back as set only |
| `FileFlags.PrintFits` | original/libarchive-3.7.2/libarchive/archive_entry.c:1960-1969 | For any table and any masks the text and its terminator fit the length of the first pass |
| `FileFlags.PrintInBuffer` | original/libarchive-3.7.2/libarchive/archive_entry.c:1951-1994 | The printer writes the specified text into that buffer and never leaves it |
| `FileFlags.ReadFlags` | original/libarchive-3.7.2/libarchive/archive_entry.c:2006-2061 | The reader gives the specified masks and the place of the first unknown token |
| `FileFlags.LookupFinds` | original/libarchive-3.7.2/libarchive/archive_entry.c:2027-2042 | Every printed name is found again as its own flag |
| `FileFlags.JoinIsRead` | original/libarchive-3.7.2/libarchive/archive_entry.c:2018-2053 | Reading a comma-separated text looks up its tokens in order |
| `FileFlags.SpreadIsRead` | original/libarchive-3.7.2/libarchive/archive_entry.c:2018-2053 | The same with any run of commas, spaces and tabs around the tokens |
| `FileFlags.FirstUnknown` | original/libarchive-3.7.2/libarchive/archive_entry.c:2043-2045 | The text reported back begins at the first unknown token; later ones are read all the same |
| `Sparse.RunIsNormal` | original/libarchive-3.7.2/libarchive/archive_entry_sparse.c:52-96 | After any adds the extents are in order, with real gaps, within the size, so that no end overflows |
| `Sparse.RunCovers` | original/libarchive-3.7.2/libarchive/archive_entry_sparse.c:52-96 | They cover exactly what the extents do that lie within the size and begin no earlier than all taken before them end |
| `Sparse.AddCovers` | original/libarchive-3.7.2/libarchive/archive_entry_sparse.c:52-96 | An extent within the size that does not begin before the end of the last one adds exactly its bytes to what is covered; any other changes nothing |
| `Sparse.WhereAddGoes` | original/libarchive-3.7.2/libarchive/archive_entry_sparse.c:65-96 | One that touches the last is joined to it; behind a gap it is appended |
| `Sparse.CloneIsExact` | original/libarchive-3.7.2/libarchive/archive_entry.c:240-246 | Re-adding a normal list, as cloning does, rebuilds it exactly when all extents lie within the size |
| `Sparse.ShrunkSizeLoses` | original/libarchive-3.7.2/libarchive/archive_entry.c:240-246 | A concrete list that is lost when the size has shrunk |
| `Sparse.NormalFormIsUnique` | original/libarchive-3.7.2/libarchive/archive_entry_sparse.c:52-96 | Two normal lists of nonempty extents that cover the same are the same |
| `Sparse.SparseList.Add` | original/libarchive-3.7.2/libarchive/archive_entry_sparse.c:52-96 | An add on the linked list is refused, extends the last block in place, or appends one, whatever the size of the file was before |
| `Sparse.SparseList.CloneOf` | original/libarchive-3.7.2/libarchive/archive_entry.c:240-246 | The cloning loop makes a list of new blocks by adding all extents again, the same list exactly when all of them lie within the size |
| `TrivialAcl.MeaningIsKept` | original/libarchive-3.7.2/libarchive/archive_disk_acl_darwin.c:123-207 | Behind entries that do not match the requester, first-decision-wins evaluation (section 6.2.1 of RFC 7530) grants exactly the bits of the requester class, an owner in the group included, and the fixed attribute permissions |
| `TrivialAcl.AddTrivial` | original/libarchive-3.7.2/libarchive/archive_disk_acl_darwin.c:123-207 | The translation appends its nonempty entries to an NFSv4 list and leaves any other unchanged |
| `TrivialAcl.GroupBits` | original/libarchive-3.7.2/libarchive/archive_disk_acl_darwin.c:163-175 | The group section leaves in its two entries the group permissions and those only others have |
| `TrivialAcl.OwnerBits` | original/libarchive-3.7.2/libarchive/archive_disk_acl_darwin.c:177-194 | The owner section leaves in its three entries what the owner has, lacks, and has when the group does not |

## Left out

- Allocation failure, free paths and object lifetime: objects are garbage-collected and every allocation succeeds.
- The wide-character twins of the ACL, path and flag functions, and all charset conversion: names are opaque strings.
- Null pointers: a null text, pattern or subject is not a value of the model, except where the C code sets a pointer to null itself.
- Bits of a permission mask beyond the named ones are abstract, and an ACL entry has exactly one type bit; adds that combine several are not part of this model.
- archive_acl_reset, archive_acl_next and archive_acl_count: the iteration state of a list.
- LinkTable.Resolver.Drain: a call of linkify without an entry is a method of its own.
- LinkTable.Resolver.Linkify: the values of dev and ino are unbounded, so the conversion of their exclusive or to size_t is not modelled; only the masked hash is used.
- LinkTable.Resolver.PartialLinks: the name stays in the spare record, which the next call discards; the C function clears it there because its caller owns it.
- LinkRuns.OnlyLastKeepsBody: needs the link count of the first name to be right; `NewCpioConservation` says what happens when it is not.
- LinkDriver.WholeRun: for distinct entry objects and the new cpio strategy; the tar and mtree strategies are covered on values by `TarRun`.
- Blake2s.State.Final: asked for more than 32 bytes the C function copies from behind its buffer; the model gives the 32 bytes there are. Clearing secrets from memory is not modelled.
- Blake2sp.StreamedTree: the variant that runs the leaves in parallel is not modelled.
- AclPrinter.ToTextInBuffer: for lists that have room; without it the C function writes outside its buffer, which has no meaning. The final strlen is the number of characters written.
- AclRoundTrip.SelectedRoundTrip: the text is read as of the type of its unmarked entries; reading access text as default text is modelled, but not in the round trip.
- PathGlob.MatchDecides: a caret where a match begins is no element; what it does is in `CaretAnchors`, `LoneCarets` and `CaretBehindStar`.
- Ctr.Context.Update: after a failure nothing is promised about the context; the cipher and the key set-up are parameters.
- Crc32.Table.Compute: words are unbounded integers that stay below 2^32; a start value beyond 32 bits is not modelled.
- CmdLine.Command.Parse: reallocation of the argument vector is not modelled.
- CmdQuote.SplittingUndoesSpelling: a single backslash at the end of a line is modelled, but no spelling.
- FileFlags.RoundTrip: the table is any good table, as its real contents depend on the platform.
- Sparse.SparseList.Add: the iterator and archive_entry_sparse_count, which drops a single extent over the whole file, are not part of this model.
- TrivialAcl.AddTrivial: the code around it that reads system ACLs is not part of this model.
- Date parsing, reading and writing of archive formats, and all code that calls the system or a cryptographic library.
