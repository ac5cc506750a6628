# A verified model of a Unity binary reader

The repository reads untrusted Unity files under explicit work and space budgets. Most of its hard code is one
idea in different clothes: a fast, multi-pass or in-place form has to equal a simple meaning, exactly and at
an exact cost. This project models that code and proves the equality. Where the C code changes arrays, buffers
or fields in place, so do the methods here; each is proved against a function of its input, and the properties
the program is for are lemmas about those functions.

Each main operation is also stated from its raw input: which bytes, as numbers in which byte order, its result
is spelled by, in predicates that name no decoder, printer or comparison of the program. Those statements
stand in the `ensures` clauses of the methods themselves, and in modules of their own.

- **Schema compiler** (`WireWords`, `SchemaTree`, `SchemaNames`, `SchemaCompiler`, `SchemaWire`,
  `SchemaCreation`): the ancestor-stack pass over a preorder list of levels gives the parent, child, sibling
  and subtree links of the naive definitions, and accepts exactly the legal lists; the four-pass radix sort
  and the merge scan over two string tables give every name exactly the naive string; the 32 bytes of every
  node are its fields one behind the other; the whole costs R + T + 52 N + S + C + 2051.
- **TypeTree** (`TypeTreeSchema`, `TypeTreeParser`, `FloatWidening`, `TypeTreeWire`, `TypeTreeForms`,
  `TypeTreeSpans`, `TypeTreeAccess`, `TypeTreeReader`): on a schema the validator accepts, the recursive
  parser returns a value exactly when the bytes it consumed spell that value. It ends at the subtree end after
  at least one byte, or fails for short input or a count over INT_MAX. This holds from every node, Array
  markers included. The three representations of byte arrays parse alike, and scalars, elements, copied bytes
  and paths read the same from all of them. Byte spans do not: they agree exactly when the arrays found are
  stored alike, so always between the copied and the borrowed mode.
- **Value digest** (`TypeTreeValues`, `ValueDigest`): the byte stream fed to the hash is prefix-free and
  injective up to the representation of byte arrays and the names of their elements; it is the sequence of
  kinds, lengths and contents of the value in numbers.
- **Schema registry** (`RegistryWords`, `RegistryKeys`, `SchemaRegistry`, `RegistryAdmission`,
  `RegistryStore`, `RegistryRecords`, `RegistryFormat`, `RegistryRoundTrip`, `RegistryLayout`, `RegistryFile`,
  `RegistryLoad`, `SchemaTransaction`, `SchemaFile`, `SchemaClass`): printer and parser are mutual inverses on
  valid registries and loadable files; the file is an explicit layout of little-endian numbers in the
  ascending order of the keys; serialising any registry at all either reports why not or writes a file that
  loads back as its sorted entries; the result of learning does not depend on the order of the offers; and the
  clone-learn-replace transaction is all or nothing, and what it learns from a file is exactly what the bare
  headers of that file resolve to. A consequence of the clone being a print and a parse is that a transaction
  fails when the registry's file would exceed the file limit, whatever it was to learn.
- **LZ4** (`Lz4Block`): reading and encoding blocks are mutual inverses, decoding is the fold of literals and
  periodic extensions, the bytes of a block are written out in numbers, and exact mode is the end-of-block
  rule of the LZ4 Block Format.
- **Two-pass readers** (`MetadataReader`, `MetadataWire`, `RetainedStorage`, `Directory`, `DirectoryWire`,
  `DirectoryScan`, `MetadataTail`, `TailWire`, `TailScan`, `Managed`, `ManagedWire`, `ManagedRows`,
  `ManagedPayload`, `ManagedPayloadWire`, `ManagedTables`, `ManagedScan`, `ManagedValues`, `ManagedLinks`,
  `ReferenceIndex`, `MatchTally`): creation succeeds exactly when the bytes spell the tables within the
  limits, and the tables then hold what is spelled; the replay over the same bytes does what the measuring
  pass did, so none of its internal errors can occur, even when it is cut short; the fields tile the bytes;
  the announced costs are exact.
- **Classic algorithms**: the two-row glob matcher decides a declarative language (`AsciiGlob`,
  `GlobLanguage`, `GlobMatcher`); the open-addressing index refines a linear search and breadth-first
  discovery finds exactly what chains of listed directories lead to, or fails exactly when something is
  forbidden (`ByteOrder`, `PathIndex`, `PathTables`, `PathDiscovery`, `PathChains`, `PathSearch`,
  `PathResults`); streaming SHA-256 hashes the padded message whatever the chunks (`Sha256`); sort and sweep
  decide whether an object table is valid (`Pairs`, `ObjectTable`).

The sweep over an object table is right when no byte range wraps around. The directory's range check comes
before it, and `Directory.ValidateDirectory` proves the check right for every directory that reads;
`ObjectTable.WrappedEndHidesOverlap` only illustrates what the range check keeps out.

Parameters of the model: the SHA-256 compression function and the digest of a registry payload; the common
string table; the order in which qsort leaves equal elements; the path hash; the file system of a discovery,
as a finite map from paths to kinds and listings; for managed values, the answers and costs of the reference
index and the outcomes, costs and retained bytes of compiling schemas, which `ManagedLinks` ties to the index
and the schema compiler; and a boolean for each allocation whose failure is modelled. Sizes are unbounded
numbers with the source's 32- and 64-bit bounds written out where its checks depend on them. Bytes are a
bounded newtype, and SIZE_MAX as "absent" is kept where the code stores it.

## Model

| member | source | states |
|---|---|---|
| SchemaTree.ScanEndIsFirstStop | src/io/typetree.c:68-73 | The naive subtree end is the first later node that is not deeper, or the end of the list. |
| SchemaTree.LinkStep | src/io/serialized_file_schema.c:381-448 | Reading one more node changes the links of each earlier node in exactly one way: its first child, its next sibling, its child count, or the end of a subtree the new node closes. |
| SchemaTree.CloseStep | src/io/serialized_file_schema.c:367-379 | Closing one ancestor level changes the subtree end of exactly the node that is the nearest one at most that deep. |
| SchemaTree.LinkAfterClosing | src/io/serialized_file_schema.c:381-448 | Closing the deeper ancestors and hooking the node behind its previous sibling together give the links of the longer list. |
| SchemaTree.ParentIsNearestOneLevelUp | src/io/serialized_file_schema.c:381-448 | In a legal list the parent of every node but the root is the nearest earlier node one level up, nothing between them is shallower than the node, and the parent's subtree holds it. |
| SchemaTree.SubtreesAreLaminar | src/io/typetree.c:68-73 | Any two subtree intervals are nested or disjoint. |
| SchemaTree.SiblingChainIsChildren | src/io/serialized_file_schema.c:381-448 | Following next-sibling links from the first child enumerates exactly the direct children in order, and the stored child count is their number. |
| SchemaNames.ResolveInSegment | src/io/typetree.c:145-153 | In a maximal piece of the table without inner terminators, the naive resolver accepts exactly the offset of its start, and only if the piece is terminated. |
| SchemaNames.GatherOrders | src/io/serialized_file_schema.c:450-485 | A stable pass over requests ordered by the lower bytes orders them by one byte more and keeps every request. |
| SchemaNames.GatherIsComplete | src/io/serialized_file_schema.c:450-485 | A pass over all 256 buckets loses and adds nothing. |
| SchemaNames.ScatterStep | src/io/serialized_file_schema.c:450-485 | Writing one request to its bucket's next position stays in bounds and keeps every bucket region filled in input order. |
| SchemaNames.ScatteredIsGather | src/io/serialized_file_schema.c:450-485 | Once all requests are scattered, the destination is the concatenation of the buckets, each in input order: the pass is stable. |
| WireWords.Spells16 | src/io/serialized_metadata_reader_internal.c:23-28 | The two-byte decoder inverts the spelling of a number in either byte order. |
| WireWords.Spells32 | src/io/serialized_metadata_reader_internal.c:30-37 | The four-byte decoder inverts the spelling of a number in either byte order. |
| WireWords.Spells64 | src/io/serialized_metadata_reader_internal.c:39-46 | The eight-byte decoder inverts the spelling of a number in either byte order. |
| WireWords.SpelledOnce | src/io/serialized_metadata_reader_internal.c:23-46 | No two numbers below 256^n have the same n bytes. |
| SchemaWire.CompiledTreeIsSpelled | src/io/serialized_file_schema.c:342-365 | For every node of a compiled tree its 32 bytes are version, level, flags, type offset, name offset, size, index, meta flags and tail in the file's byte order; both names stand at a string start of the table the high bit selects; the links are those of the level bytes. |
| SchemaWire.ReadableIsCompilable | src/io/serialized_file_schema.c:381-618 | A tree compiles exactly when its level bytes continue one another within the depth cap and both offset words of every record point at a terminated string start. |
| SchemaWire.TreeIsAsDeep | src/io/serialized_file_schema.c:386-416 | The recorded depth is the greatest level. |
| SchemaCompiler.SchemaCompile.Charge | src/io/serialized_file_schema.c:106-123 | Work is added exactly when the total stays within the limit; otherwise nothing is added and the work limit is reported at the given place. |
| SchemaCompiler.SchemaCompile.DecodeNode | src/io/serialized_file_schema.c:342-365 | A decoded node is the one its 32 bytes denote in the file's byte order, with fresh links, and its two name requests carry its two offsets; nodes decoded before stay. Which bytes denote which field is stated by SchemaWire.CompiledTreeIsSpelled. |
| SchemaCompiler.SchemaCompile.CloseSubtree | src/io/serialized_file_schema.c:367-379 | One unit of work sets the end of one subtree and touches nothing else. |
| SchemaCompiler.SchemaCompile.CloseDownTo | src/io/serialized_file_schema.c:417-446 | Every open subtree from the deepest down to the level is closed once, for one unit each, and lands at the common end. |
| SchemaCompiler.SchemaCompile.LinkNode | src/io/serialized_file_schema.c:423-436 | After linking, all nodes so far have exactly the links the prefix gives them, and the ancestor stack is that of the longer prefix. |
| SchemaCompiler.SchemaCompile.AdmitNode | src/io/serialized_file_schema.c:386-416 | A node passes exactly when its level is a legal continuation, is within the depth cap and 33 units are left; the failure names this node and says which of these failed. |
| SchemaCompiler.SchemaCompile.CompileNodes | src/io/serialized_file_schema.c:381-448 | The hierarchy pass succeeds exactly on legal level lists (one root at level 0, no jump up by more than one) within the depth cap and 34 units a node; then every node has its linear-scan links and the greatest level is recorded; otherwise the first offending node is named. |
| SchemaCompiler.SchemaCompile.RadixPass | src/io/serialized_file_schema.c:450-485 | One pass leaves the destination equal to the stable grouping of the source by one byte, for 512 units and 2 for each request. |
| SchemaCompiler.SchemaCompile.SortNameRequests | src/io/serialized_file_schema.c:450-485 | Four passes leave the requests ordered by the whole 32-bit offset in the half they started in, with the same elements, for an exact cost; only the work limit can stop them, so the final silent exit cannot happen. |
| SchemaCompiler.SchemaCompile.ResolveRequest | src/io/serialized_file_schema.c:502-543 | A request is served exactly when it points at the start of a terminated segment and a unit is left; only the one name it asks for changes. |
| SchemaCompiler.SchemaCompile.ResolveSegment | src/io/serialized_file_schema.c:545-600 | The requests pointing into a segment are served in order; a failure other than the work limit means that one of the table's requests has no naive resolution. |
| SchemaCompiler.SchemaCompile.ResolveTable | src/io/serialized_file_schema.c:545-600 | Scanning one table serves all its requests for one unit a byte and one a request, or fails for lack of work or because a request has no naive resolution. |
| SchemaCompiler.SchemaCompile.ResolveNames | src/io/serialized_file_schema.c:602-618 | The merge scan succeeds exactly when every type and field offset resolves naively and the exact cost fits; every request is then served with the naive string. |
| SchemaCompiler.SchemaCompile.Compile | src/io/serialized_file_schema.c:381-618 | Compilation succeeds exactly when the levels are legal and not too deep, every name resolves naively and the exact cost fits; the result is the tree written without the compiler, which SchemaWire.CompiledTreeIsSpelled ties to the bytes; a failure other than the work limit is the first bad node, or a bad name in a good hierarchy. |
| SchemaCompiler.SortedRequestsAreScannable | src/io/serialized_file_schema.c:545-600 | Any rearrangement of the 2N original requests that is ordered by offset lists all local requests before all common ones, each table's offsets going up, and covers every name slot. |
| SchemaCompiler.NamedTreeIsTheTree | src/io/serialized_file_schema.c:545-618 | A linked tree whose requests are all served is, node by node, the tree of naive links and naive names. |
| SchemaCompiler.CompileCostIsLinear | src/io/serialized_file_schema.c:106-123 | The cost of the loops adds up to exactly 52 N + S + C + 2049. |
| SchemaCreation.Admission | src/io/serialized_file_schema.c:202-298 | The first refusal in the order of the checks; there is none exactly for an admissible row. |
| SchemaCreation.StoragePlan | src/io/serialized_file_schema.c:300-340 | The first refusal of the storage plan; there is none exactly when the retained and scratch layouts fit size_t and their limits. |
| SchemaCreation.CreateSchema | src/io/serialized_file_schema.c:620-681 | Creation succeeds exactly when row, storage and tree are admissible, both allocations succeed and R + T + 52 N + S + C + 2051 fits; it then costs exactly that. The 32 bytes of every node are then the concatenation of its fields in the file's byte order, its names stand in the string tables where its offset words point, its links are those of the level bytes, and the depth is the greatest level. Any failure but want of work is explained by the first stage that objects. |
| SchemaCreation.CreatableWhenReadable | src/io/serialized_file_schema.c:620-681 | Apart from work, a schema can be created exactly when row and storage are admitted and the records read. |
| SchemaCreation.StorageInNumbers | src/io/serialized_file_schema.c:300-340 | The two layouts in numbers: the nodes behind the aligned header, and two halves of two requests for each node, each refused exactly beyond size_t. |
| TypeTreeSchema.ScalarsHaveRules | src/io/typetree.c:36-61 | Every type name the validator sizes as a scalar is one the parser reads as signed, unsigned or floating of that width. |
| TypeTreeSchema.SubtreeEndIsFirstStop | src/io/typetree.c:68-73 | The subtree end is the first later node that is not deeper. |
| TypeTreeSchema.SubtreeEndOf | src/io/typetree.c:68-73 | The scanning loop finds the subtree end. |
| TypeTreeSchema.ValidateSchema | src/io/typetree.c:103-143 | The validator accepts exactly the schemas in the grammar. |
| TypeTreeSchema.ValidateNode | src/io/typetree.c:103-143 | One turn of the validator accepts exactly a node that is in the grammar. |
| TypeTreeSchema.ValidateArrayNode | src/io/typetree.c:75-101 | An array node is accepted exactly when its marker, its int size node and its data subtree are laid out as the parser will look for them. |
| TypeTreeParser.ByteStream.Skip | src/common/stream.c:41-47 | Skipping moves the position by the count, or not at all when fewer bytes remain. |
| TypeTreeParser.ByteStream.Align | src/common/stream.c:31-39 | Alignment moves to the next multiple of four, and fails exactly when that is past the end. |
| TypeTreeParser.ByteStream.ReadBytes | src/common/stream.c:49-56 | A read gives the next bytes and moves past them, or fails and moves nothing. |
| TypeTreeParser.ByteStream.ReadWord | src/common/stream.c:58-81 | A fixed-width read gives the little- or big-endian word at the position. |
| TypeTreeParser.ParserIsTotal | src/io/typetree.c:547-816 | From any node of a valid schema the parser ends; success stops at the subtree end having consumed at least one byte; failure is short input or a count over INT_MAX, never a missing rule. |
| TypeTreeParser.StructIsTotal | src/io/typetree.c:763-811 | The same for a structure, whose members are parsed one after the other. |
| TypeTreeParser.ArrayIsTotal | src/io/typetree.c:679-761 | The same for an array: the size word, the data node that many times, the alignment. |
| TypeTreeParser.ElementsAreTotal | src/io/typetree.c:730-745 | A parsed array has exactly the announced number of elements and each consumed at least one byte. |
| TypeTreeParser.MembersAreTotal | src/io/typetree.c:776-805 | A parsed structure has exactly as many members as direct children and ends at the first node that is not deeper. |
| TypeTreeParser.LeafIsTotal | src/io/typetree.c:571-638 | A childless node of a valid schema consumes its width and moves on by one node, or the input is too short. |
| TypeTreeForms.EarlyCheckIsSound | src/io/typetree.c:691-695 | With and without the early check of the size against the remaining bytes the parser gives the same value, position and node or fails alike: the check rejects only what could not have parsed. |
| TypeTreeForms.ByteElements | src/io/typetree.c:704-757 | Parsing UInt8 elements one by one yields exactly the bytes on the wire. |
| TypeTreeForms.RepresentationsAgree | src/io/typetree.c:547-816 | Any two of the expanded, copied and borrowed modes succeed on the same inputs, end at the same position and node and give values equal up to representation, through all nesting and alignment. |
| TypeTreeForms.PackedByteArray | src/io/typetree.c:704-757 | In both packed modes a UInt8 array parses exactly when its count is at most INT_MAX and its bytes and padding are there; it holds those bytes and ends after the padding. |
| TypeTreeForms.ExpandedByteArray | src/io/typetree.c:704-757 | The same when the elements are parsed one by one. |
| TypeTreeForms.ByteArrayInEveryMode | src/io/typetree.c:704-757 | In every mode a UInt8 array parses exactly when its count is at most INT_MAX and its bytes and padding are there; it holds those bytes and ends after the padding. |
| TypeTreeForms.RepresentationsDigestAlike | src/io/typetree_value_digest.c:117-128 | If one mode parses, so does every other, and all of them feed the digest the same byte stream. |
| TypeTreeForms.FindsTheSameArray | src/io/typetree.c:923-933 | Looking up the array of a value finds the same array whichever representation the value is in. |
| TypeTreeForms.CopiesTheSameBytes | src/io/typetree.c:1012-1042 | Copying a range of elements gives the same bytes, or is refused alike, from every representation. |
| TypeTreeForms.AccessorsIgnoreRepresentation | src/io/typetree.c:935-994 | Values equal up to representation read the same or fail alike: as a scalar and element by element, signed or unsigned, and by copied byte ranges (lines 1012-1042). |
| TypeTreeSpans.SpansShowTheStorage | src/io/typetree.c:996-1010 | Byte spans do tell representations apart: the empty array has a span when it is packed and none when it is expanded. |
| TypeTreeSpans.SpansAgreeExactly | src/io/typetree.c:996-1010 | For values equal up to representation the spans agree exactly when no array is found or both arrays found are packed or both expanded. |
| TypeTreeSpans.CopiedIsBorrowed | src/io/typetree.c:704-757 | Parsing with copied and with borrowed byte arrays gives the same outcome from every node, but for the note of who owns the bytes. |
| TypeTreeSpans.CopiedAndBorrowedSpansAgree | src/io/typetree.c:996-1010 | Whatever is parsed with copied byte arrays has the same byte span as with borrowed ones. |
| TypeTreeSpans.FindsTheSamePath | src/io/typetree.c:892-921 | A path of member names leads to the same place, or nowhere, in every representation. |
| TypeTreeAccess.FindsTheFirst | src/io/typetree.c:875-886 | A child is found exactly when it is the first member whose name up to its NUL is the one asked for. |
| TypeTreeAccess.ArrayIsLedTo | src/io/typetree.c:923-933 | The array of a value is the value's own, or that of its first member "Array", or that of whatever its first member "data" leads to. |
| TypeTreeAccess.NumbersAreRead | src/io/typetree.c:935-955 | An integer is read exactly when the value has that number and it fits the result. |
| TypeTreeAccess.ElementsAreRead | src/io/typetree.c:957-994 | An element is read exactly when there is an array, it has the element, and its number fits the result. |
| TypeTreeAccess.BytesAreCopied | src/io/typetree.c:1012-1042 | A range is copied exactly when it is in the array and the bytes are the numbers of its elements. |
| TypeTreeAccess.PathIsFollowed | src/io/typetree.c:892-921 | A path leads exactly where its names lead, whatever dots and slashes stand between them. |
| TypeTreeReader.ReadLeaf | src/io/typetree.c:571-638 | The scalar cases give the parser function's value, position and next node, or fail where it fails; a 32-bit float is stored as the bits of the double it widens to. TypeTreeWire.ParsesExactlyWhatIsWritten and FloatWidening.WideningIsExact say which values these are. |
| TypeTreeReader.ReadString | src/io/typetree.c:644-677 | The string case, with its count, bytes and alignment, does the same. |
| TypeTreeReader.ReadArray | src/io/typetree.c:679-761 | The array case, with its early check and its three data modes, does the same. |
| TypeTreeReader.ReadElements | src/io/typetree.c:730-745 | The element loop fills exactly the announced number of slots with the values the function lists. |
| TypeTreeReader.CountChildren | src/io/typetree.c:763-774 | The first member pass counts the direct children. |
| TypeTreeReader.ReadStruct | src/io/typetree.c:763-811 | The two member passes agree: the slots allocated by the first are exactly filled by the second. |
| TypeTreeReader.ReadMembers | src/io/typetree.c:776-805 | The member loop gives the listed members and their end, and as many as were counted. |
| TypeTreeReader.ReadValue | src/io/typetree.c:547-816 | The recursion gives the parser function's outcome for every node, so with ParsesExactlyWhatIsWritten exactly the value the bytes spell. |
| TypeTreeReader.ParseWithFlags | src/io/typetree.c:825-835 | The entry point rejects bad flags, schemas and indices without moving; otherwise success means that the bytes up to the new position spell the value (two's complement, unsigned, float, string, array, members in order, alignment by bit 14 of the flags) in the mode asked for by flag word 0, 1 or 2, and failure that no value is spelled. |
| FloatWidening.WideningIsExact | src/io/typetree.c:595-599 | A 32-bit float and the double it is stored as have the same sign and value, subnormal numbers included, and infinities stay infinite; of a NaN the payload is kept and made quiet. |
| TypeTreeWire.ParsesExactlyWhatIsWritten | src/io/typetree.c:547-816 | From any node of a valid schema the parser succeeds with a value and a position exactly when the bytes between spell that value for the node; the spelling names no function of the parser. |
| TypeTreeWire.WrittenParses | src/io/typetree.c:547-816 | Whatever is spelled is parsed, to the very value and end. |
| TypeTreeWire.ParsedIsWritten | src/io/typetree.c:547-816 | Whatever is parsed is spelled by the bytes consumed. |
| TypeTreeWire.SignedIsSpelled | src/io/typetree.c:571-612 | A signed word of any width is the two's complement its bytes spell, in its range. |
| TypeTreeWire.FlagIsBit14 | src/io/typetree.c:632-635 | Alignment is asked for by bit 14 of the meta flags. |
| ValueDigest.StringIsPrefixFree | src/io/typetree_value_digest.c:24-37 | A length-prefixed string can be told from whatever follows it. |
| ValueDigest.EncodingIsInjective | src/io/typetree_value_digest.c:49-115 | If the streams of two values agree, with anything after them, then the values are equal up to packed-versus-expanded byte arrays and names of byte elements, the rests agree and both spent the same node budget. |
| ValueDigest.ArrayIsInjective | src/io/typetree_value_digest.c:82-110 | The same for two arrays in any representation. |
| ValueDigest.AllIsInjective | src/io/typetree_value_digest.c:72-81 | The same for lists of values of equal length. |
| ValueDigest.EncodingIgnoresRepresentation | src/io/typetree_value_digest.c:49-115 | Values equal up to representation give the same stream and the same remaining budget, or are refused alike. |
| ValueDigest.EqualPreimagesAreEqualValues | src/io/typetree_value_digest.c:117-128 | Two accepted values have the same preimage exactly when they are equal up to representation. |
| ValueDigest.DigestContext.HashWord | src/io/typetree_value_digest.c:17-22 | Feeds the eight little-endian bytes of a word. |
| ValueDigest.DigestContext.HashString | src/io/typetree_value_digest.c:24-37 | Feeds the encoding of a string, and fails exactly when it is too long to have one. |
| ValueDigest.DigestContext.ExpandedBytes | src/io/typetree_value_digest.c:39-47 | Recognises exactly the lists whose elements are all single UInt8 values. |
| ValueDigest.DigestContext.HashArray | src/io/typetree_value_digest.c:82-110 | Feeds the canonical encoding of an array and leaves the budget it leaves. |
| ValueDigest.DigestContext.HashBytes | src/io/typetree_value_digest.c:96-105 | Both representations of a byte array feed the same bytes, each for one node of budget. |
| ValueDigest.DigestContext.HashValue | src/io/typetree_value_digest.c:49-115 | The recursion feeds exactly the canonical encoding, spends exactly its nodes, and fails exactly when there is none. |
| ValueDigest.DigestPreimage | src/io/typetree_value_digest.c:117-128 | A value is accepted exactly when it has at most 256 levels, 1048576 nodes, strings of at most 16 MiB and no NUL in a string value; the preimage is then the domain tag and the stream of kinds, lengths and contents written out in numbers. |
| ValueDigest.EncodesTheStream | src/io/typetree_value_digest.c:49-115 | From any depth and budget a value is accepted exactly when it is admitted and its nodes fit, costs its nodes, and encodes to its stream. |
| ValueDigest.AllEncodeTheStream | src/io/typetree_value_digest.c:49-115 | The same for a list of values. |
| ValueDigest.PreimageIsStream | src/io/typetree_value_digest.c:117-128 | The preimage is the tag "UnityCommon.OrderedTypeTreeValue.v1" with its terminator and the stream. |
| ByteOrder.ComparesAsPrecedes | src/io/typetree_schema_registry.c:330-338 | One byte string compares below another exactly when it is a proper prefix of it or has the smaller byte where they first differ. |
| RegistryKeys.KeysCompareAsTheyPrecede | src/io/typetree_schema_registry.c:340-363 | Keys compare field by field in this order: file version, Unity version, class, type, script index, the three flags, script hash, type hash; numbers by size, false before true, bytes by the order of byte strings. |
| RegistryKeys.KeysTotal | src/io/typetree_schema_registry.c:340-363 | Two keys compare equal exactly when they are the same key, and exchanging them flips the sign. |
| RegistryKeys.KeysTransitive | src/io/typetree_schema_registry.c:340-363 | The order of keys is transitive. |
| ByteOrder.BytesTotal | src/io/typetree_schema_registry.c:330-338 | Two byte strings compare equal exactly when they are equal, and the order is antisymmetric. |
| ByteOrder.BytesTransitive | src/io/typetree_schema_registry.c:330-338 | The order of byte strings is transitive. |
| SchemaRegistry.EqualSchemasAreTheSame | src/io/typetree_schema_registry.c:579-613 | For admitted schemas the field-by-field comparison, which skips names outside reference types, is equality. |
| SchemaRegistry.SortedIsCanonical | src/io/typetree_schema_registry.c:739-791 | The set of entries determines the ordered list. |
| SchemaRegistry.InsertKeepsOrder | src/io/typetree_schema_registry.c:775-791 | Inserting a new key keeps the strict order. |
| SchemaRegistry.LearningKeepsValidity | src/io/typetree_schema_registry.c:739-791 | Learning keeps a registry valid, and success adds exactly the offered entry. |
| SchemaRegistry.InsertionOrderIsIrrelevant | src/io/typetree_schema_registry.c:739-791 | Offering the same entries in any order and with any repetition builds the same registry. |
| SchemaRegistry.OrderedIsSorted | src/io/typetree_schema_registry.c:867-875 | A list that never goes down is strictly ordered exactly when all its keys differ. |
| SchemaRegistry.SortingKeepsTheEntries | src/io/typetree_schema_registry.c:981-1002 | Sorting changes neither the set of entries, nor whether all are admissible, nor whether all keys differ. |
| SchemaRegistry.SortingIsIdentity | src/io/typetree_schema_registry.c:981-1002 | The sort before writing leaves a valid registry as it is. |
| RegistryAdmission.KeyFitsExactly | src/io/typetree_schema_registry.c:312-328 | A key is valid exactly when its Unity version has 1 to 1024 bytes and no NUL, and an absent script hash is sixteen zeros. |
| RegistryAdmission.EntryFitsExactly | src/io/typetree_schema_registry.c:401-470 | A schema is admitted under a key exactly when it repeats the key's fields, every count and length is within the number written out, its nodes are in the grammar, and every name stands in the string table its offset selects. |
| RegistryAdmission.RegistryFitsExactly | src/io/typetree_schema_registry.c:401-470 | The valid registries are those of at most 65536 fitting entries in ascending order of their keys. |
| RegistryAdmission.LearnsExactly | src/io/typetree_schema_registry.c:739-791 | A schema is learned exactly when it fits and has a place, and the registry then holds it besides what it held. |
| RegistryStore.Registry.Reserve | src/io/typetree_schema_registry.c:708-737 | Room is made exactly up to the entry limit, and failure changes nothing. |
| RegistryStore.Registry.Find | src/io/typetree_schema_registry.c:752-759 | Finds the entry with the key exactly when there is one. |
| RegistryStore.Registry.InsertInOrder | src/io/typetree_schema_registry.c:775-791 | Shifting the larger entries up gives the ordered insertion. |
| RegistryStore.Registry.Learn | src/io/typetree_schema_registry.c:739-791 | With memory, a schema is learned exactly when it fits its key (the limits written out, every name standing in a string table) and the same entry is there, or no entry under its key and room among 65536; the registry then holds exactly one entry more or the same, in ascending order; every failure leaves it unchanged. |
| RegistryStore.Registry.Lookup | src/io/typetree_schema_registry.c:793-808 | Returns the one schema stored under a valid key, and reports a missing or invalid key. |
| RegistryWords.WordsRead | src/io/typetree_schema_registry.c:268-291 | Printed fixed-width words are read back, and what follows is left. |
| RegistryWords.WordsPrintBack | src/io/typetree_schema_registry.c:223-243 | Words that were read print back to the bytes they were read from. |
| RegistryRecords.RecordsRead | src/io/typetree_schema_registry.c:1302-1314 | For any record printer and parser that invert each other, the printed records of ascending entries are read back in order. |
| RegistryRecords.RecordsPrintBack | src/io/typetree_schema_registry.c:1302-1314 | Records that were read are ascending and print back to the same bytes. |
| RegistryRecords.SealOpens | src/io/typetree_schema_registry.c:1012-1024 | A sealed file within the size limit opens as its count and its records. |
| RegistryRecords.OpenedWasSealed | src/io/typetree_schema_registry.c:1274-1300 | A file that opens is the seal of what it opened as: no two headers are accepted for the same records. |
| RegistryRoundTrip.PayloadReads | src/io/typetree_schema_registry.c:1070-1268 | The payload written for an admissible entry above the last key is read back as that entry. |
| RegistryRoundTrip.PayloadPrintsBack | src/io/typetree_schema_registry.c:877-958 | A payload that was read is admissible, above the last key and exactly the payload its entry prints. |
| RegistryRoundTrip.LoadInvertsSave | src/io/typetree_schema_registry.c:1270-1323 | Loading the file of a valid registry gives the same entries in the same order. |
| RegistryRoundTrip.SaveInvertsLoad | src/io/typetree_schema_registry.c:960-1046 | A file that loads gives a valid registry whose file is the same bytes. |
| RegistryRoundTrip.SavingIsInjective | src/io/typetree_schema_registry.c:960-1046 | Two valid registries with the same file are the same. |
| RegistryLayout.PayloadIsSpelled | src/io/typetree_schema_registry.c:877-958 | The payload of a record byte by byte: the key, the counts, and what the counts count, all little-endian. |
| RegistryLayout.FileIsSpelled | src/io/typetree_schema_registry.c:960-1046 | The file byte by byte: the magic "DXTTSR01", version 1, header size 64, the counts, the digest, and each record behind its size. |
| RegistryFile.SchemaWriter.Reserve | src/io/typetree_schema_registry.c:167-201 | Room is made exactly up to the file limit; otherwise the limit is recorded. |
| RegistryFile.SchemaWriter.Put | src/io/typetree_schema_registry.c:203-214 | Bytes are appended exactly when the file limit allows, else nothing changes but the status. |
| RegistryFile.SchemaWriter.PutAll | src/io/typetree_schema_registry.c:223-243 | A chain of integer writes succeeds exactly when all of them fit and appends their little-endian bytes. |
| RegistryFile.SchemaWriter.WriteRecord | src/io/typetree_schema_registry.c:877-958 | A record is written exactly when its frame fits, as the size of its payload followed by the payload, although the size is patched in last. |
| RegistryLoad.CheckEntries | src/io/typetree_schema_registry.c:982-1001 | Gives the status of the first inadmissible entry, or a conflict exactly when two keys agree. |
| RegistryLoad.DistinctNeighbours | src/io/typetree_schema_registry.c:994-1002 | Comparing neighbours finds a repeated key exactly when an ordered list has one. |
| RegistryLoad.WriteRecords | src/io/typetree_schema_registry.c:1004-1010 | Writes the records of all entries exactly when they fit. |
| RegistryLoad.Serialize | src/io/typetree_schema_registry.c:960-1046 | For any registry at all: success exactly when the sorted entries are a registry within the limits whose file is at most 512 MiB; the bytes are then the explicit layout of header, digest and records in the byte order of the keys, and they load back as those entries; otherwise the status is the first refusal, a key conflict or the size limit. |
| RegistryLoad.ValidRegistriesSerialize | src/io/typetree_schema_registry.c:960-1046 | A valid registry is its own sorted order and can only be refused for the size of its file. |
| RegistryLoad.SchemaReader.Take | src/io/typetree_schema_registry.c:245-255 | Takes the next bytes, or fails exactly when fewer remain. |
| RegistryLoad.SchemaReader.TakeAll | src/io/typetree_schema_registry.c:268-291 | Takes a chain of integers, failing exactly when the bytes run out. |
| RegistryLoad.ReadFixed | src/io/typetree_schema_registry.c:1090-1164 | Reads the fixed part of a record, with the key and the counts, or reports the reader function's reason. |
| RegistryLoad.ReadNodes | src/io/typetree_schema_registry.c:1193-1208 | Reads exactly the counted node records. |
| RegistryLoad.ReadBody | src/io/typetree_schema_registry.c:1169-1255 | Reads nodes, strings, dependencies and names up to the exact end of the record, or nothing. |
| RegistryLoad.BindNodes | src/io/typetree.c:166-192 | Every node gets its names exactly when all offsets resolve; none changes otherwise. |
| RegistryLoad.ReadPayload | src/io/typetree_schema_registry.c:1070-1268 | Gives exactly the decoded entry or the reason of its refusal. |
| RegistryLoad.LearnsAtEnd | src/io/typetree_schema_registry.c:739-791 | An entry above every other is learned at the end, so the reader's ordered learning only appends. |
| RegistryLoad.ReadRecord | src/io/typetree_schema_registry.c:1070-1268 | The next frame is decoded and appended to the registry, or the status says why not. |
| RegistryLoad.ReadRecords | src/io/typetree_schema_registry.c:1302-1314 | The counted records are read in order into an empty registry, or the first failure is reported. |
| RegistryLoad.DeserializeReplace | src/io/typetree_schema_registry.c:1270-1323 | Loading succeeds exactly when the bytes are the file of some registry within the limits, and the registry becomes that one; otherwise it keeps its entries, with the decoder's reason. |
| RegistryLoad.DecodesExactly | src/io/typetree_schema_registry.c:1270-1323 | A file decodes to the registry whose file it is, and to nothing if there is none. |
| SchemaTransaction.DerivedKeysAreValid | src/io/typetree_schema_registry.c:661-706 | A key derived from a type and a file is always a valid key. |
| SchemaTransaction.LearnTypes | src/io/serialized_file.c:161-175 | Learns every type of the file in order, exactly when each can be learned. |
| SchemaTransaction.CloneRegistry | src/io/serialized_file.c:141-159 | Printing and parsing gives an equal, separate registry, and fails exactly when the file would exceed its limit. |
| SchemaTransaction.ApplySchemas | src/io/serialized_file.c:194-251 | A transaction: it succeeds exactly when the registry's own file is at most 512 MiB, every type of the file derives a key, and what the registry held together with every type under its key is a registry within the limits; the registry becomes that union, and is untouched otherwise. |
| SchemaTransaction.FilesWithTheSameSchemas | src/io/serialized_file.c:194-251 | Files offering the same entries, split and ordered in any way, leave the registry in the same state. |
| SchemaTransaction.KeyDerivesExactly | src/io/typetree_schema_registry.c:661-706 | A type derives exactly the key of its fields: a script hash belongs to it, where the prefix is known exactly, for class 114 or a script index that is not negative, and elsewhere by the file version, the class and the reference flag as written out. |
| SchemaTransaction.FileTeachesExactly | src/io/serialized_file.c:194-251 | Learning a file gives a registry exactly when every type has a key and that registry holds what was held and every type under its key, and nothing else. |
| SchemaTransaction.UnionIsLearned | src/io/typetree_schema_registry.c:739-791 | All offers are learned exactly when their union with the registry is a valid registry, which it then is. |
| SchemaFile.ResolvableHasASchema | src/io/serialized_file.c:177-192 | A header is resolvable exactly when the registry holds some schema under its key. |
| SchemaFile.ResolveTypes | src/io/serialized_file.c:177-192 | Headers are replaced one after the other by the schemas stored under their keys, up to the first that has none, and the rest stays; it succeeds exactly when all have one. |
| SchemaFile.ResolveFile | src/io/serialized_file.c:198-217 | Both arrays are completed exactly when every header is resolvable; after a failure each array is replaced up to some point. |
| SchemaFile.ApplyRegistry | src/io/serialized_file.c:194-251 | The whole step with all its cases: a file without trees gets, for each header, the schema stored under the key the header derives, exactly when each has one; a file with trees keeps its types, and teaches the registry all of them or nothing, for a pinned input only. |
| SchemaFile.BareFilesResolve | src/io/serialized_file.c:194-251 | A file that embeds its types teaches exactly what the bare headers of the same file resolve to: resolving them succeeds and can give nothing but the original types. |
| SchemaFile.ResolvesExactly | src/io/serialized_file.c:177-192 | A header resolves to a schema exactly when that is stored under a key the header derives. |
| SchemaClass.PlanCompletes | src/io/serialized_file.c:270-299 | Committing the replacements planned for an array completes exactly its wanting types of the class. |
| SchemaClass.BothComplete | src/io/serialized_file.c:339-346 | Committing the replacements of both arrays completes both, neither disturbing the other. |
| SchemaClass.CollectReplacements | src/io/serialized_file.c:270-299 | With room for every wanting type the capacity check never fires; the plan is complete exactly when every wanting type has a schema. |
| SchemaClass.Commit | src/io/serialized_file.c:339-346 | Writes every planned schema to its place in its array. |
| SchemaClass.ResolveClass | src/io/serialized_file.c:301-352 | Every type of the class without nodes becomes the schema it resolves to and no other type changes, or nothing changes; it succeeds exactly when there are none, or the registry has a schema for each. |
| Lz4Block.MatchIsPeriodic | src/io/lz4_decompress.c:110-115 | Byte k of a match of any length is the byte k mod offset of the window behind the output. |
| Lz4Block.ParseInvertsEncode | src/io/lz4_decompress.c:37-120 | Every well-formed list of literals, offsets and lengths is recovered from its LZ4 Block Format bytes. |
| Lz4Block.EncodeInvertsParse | src/io/lz4_decompress.c:37-120 | Every byte string that reads as a block is the encoding of that block: no byte is skipped or read twice. |
| Lz4Block.DecodeIsMeaningOfParse | src/io/lz4_decompress.c:37-120 | Decoding is reading the block and folding its literals and matches within the capacity. |
| Lz4Block.MeaningReportsTheEnding | src/io/lz4_decompress.c:75-84 | Decoding reports the length of the last literals and the place of the last match. |
| Lz4Block.ExactModeIsEndOfBlock | src/io/lz4_decompress.c:75-84 | Exact mode accepts exactly the encodings of blocks that fill the destination, end in literals only and, if they have a match, end with at least five literals and start the last match at least twelve bytes before the end. |
| Lz4Block.DecodesTheFormat | src/io/lz4_decompress.c:122-130 | Decoding yields a result exactly when the source encodes some block with that meaning. |
| Lz4Block.ReadLengthAt | src/io/lz4_decompress.c:17-35 | A length with its extension bytes is read as the format gives it, and fails exactly when the bytes run out. |
| Lz4Block.CopyLiterals | src/io/lz4_decompress.c:62-73 | Appends the literal bytes and touches nothing after them. |
| Lz4Block.CopyMatch | src/io/lz4_decompress.c:110-115 | The byte-by-byte copy, overlapping or not, appends the periodic extension of the window and touches nothing after it. |
| Lz4Block.DecodeMatch | src/io/lz4_decompress.c:86-115 | The match of a sequence is appended, or fails exactly when it is cut short, has a zero or too distant offset or does not fit. |
| Lz4Block.DecodeSequence | src/io/lz4_decompress.c:53-116 | One sequence appends its literals and its match, or fails exactly when the format or the capacity says so. |
| Lz4Block.DecompressBlock | src/io/lz4_decompress.c:37-130 | For both entry points: the result is not -1 exactly when the source is the written form of a block whose matches reach, whose expansion fits the capacity and, in exact mode, fills it and ends in literals, five of them and twelve bytes behind the last match; the destination then starts with the expansion, and no byte beyond changes. |
| Lz4Block.EncodeIsWritten | src/io/lz4_decompress.c:37-120 | The bytes of a block in numbers: the token, 255s and a remainder for long lengths, literals, the offset with its low byte first, and match lengths without their first four bytes. |
| Lz4Block.MeaningIsExpansion | src/io/lz4_decompress.c:37-120 | A block means its expansion, literals as they are and each match its window over and over, exactly if every match reaches and the whole output is within the capacity. |
| Lz4Block.AcceptsWhatDecompresses | src/io/lz4_decompress.c:37-130 | The decoder accepts a source exactly when it is the written form of a block that decompresses, and yields its expansion. |
| MetadataReader.Reader.TakeSpan | src/io/serialized_metadata_reader_internal.c:48-79 | A span is taken exactly when it is within the metadata and its width is charged. |
| MetadataReader.Reader.ReadWord | src/io/serialized_metadata_reader_internal.c:81-88 | A 32-bit word in the file's byte order, with its span. |
| MetadataReader.Reader.ReadCount | src/io/serialized_metadata_reader_internal.c:90-99 | A count, refused when negative as a signed word. |
| MetadataReader.Reader.ReadTypePrefix | src/io/serialized_metadata_reader_internal.c:101-127 | The class, strip flag, script index and the hashes that the class calls for. |
| MetadataReader.Reader.ReadTree | src/io/serialized_metadata_reader_internal.c:129-159 | An embedded tree: counts within the limits and the budgets, then its two spans. |
| MetadataReader.Reader.ReadString | src/io/serialized_metadata_reader_internal.c:161-185 | A string through its first NUL, charging one unit a byte against the metadata, the work and the terminated-string budgets. |
| MetadataReader.RowsTile | src/io/serialized_file_directory.c:350-365 | The rows of any table tile the bytes it consumed, without gap or overlap, and each adds one unit. |
| MetadataReader.TableTiles | src/io/serialized_file_metadata_tail.c:216-251 | A count and its rows tile the table, and there are as many rows as the count says. |
| MetadataWire.WordReadsExactly | src/io/serialized_metadata_reader_internal.c:81-88 | A word is read exactly where four bytes may be read, and is the number they spell in the file's byte order. |
| MetadataWire.PrefixReadsExactly | src/io/serialized_metadata_reader_internal.c:101-127 | A type prefix is read exactly as it is spelled: class, strip flag, script index, a script hash for class 114 or a script index that is not negative, and the type hash. |
| MetadataWire.TreeReadsExactly | src/io/serialized_metadata_reader_internal.c:129-159 | A tree is read exactly as it is spelled: two counts, 32 bytes for each node and the string bytes, within the budgets of both. |
| MetadataWire.StringReadsExactly | src/io/serialized_metadata_reader_internal.c:161-185 | A string is read exactly through its first NUL, within the budget of terminated bytes. |
| MetadataWire.TableReadsExactly | src/io/serialized_file_metadata_tail.c:216-251 | A table is read exactly as a count that is not negative and as many rows, each behind the other. |
| Directory.PrefixTiles | src/io/serialized_metadata_reader_internal.c:101-127 | The fields of a type prefix tile it. |
| Directory.TypeRowTiles | src/io/serialized_file_directory.c:222-264 | The fields of a type row, with its tree and trailer, tile the row. |
| Directory.DirectoryTiles | src/io/serialized_file_directory.c:324-404 | The type and object tables with their padding tile the directory, and its work is its bytes and its rows. |
| Directory.ObjectsAreSound | src/io/serialized_file_directory.c:266-322 | Every object row read has a known type and a byte range inside the file. |
| Directory.SoundObjectsAreInRange | src/io/serialized_file_directory.c:282-299 | The end of an admitted object's byte range does not overflow 64 bits. |
| Directory.DirectoryRecordsAreInRange | src/io/serialized_file_directory.c:282-299 | No record of a directory that reads has a byte range whose end overflows 64 bits: the premise of the object-table check. |
| Directory.ValidateDirectory | src/io/serialized_file.c:88-139 | The object table of any directory that reads, however the sorts order ties, is accepted exactly when no two rows have the same identifier word and no byte of the data lies in two of their ranges. |
| DirectoryWire.ObjectReadsExactly | src/io/serialized_file_directory.c:266-322 | An object row is read exactly where its 24 bytes are identifier, offset, size and type in the file's byte order, its range ends within the file and its type exists. |
| DirectoryWire.ObjectRefusedExactly | src/io/serialized_file_directory.c:266-322 | A row with these words is refused exactly when the range passes the end of the file or the type does not exist, for the range first. |
| DirectoryWire.TypeReadsExactly | src/io/serialized_file_directory.c:222-264 | A type row is read exactly as it is spelled, with its tree and dependency words when trees are embedded. |
| DirectoryWire.DirectoryReadsExactly | src/io/serialized_file_directory.c:324-404 | The directory function gives a view exactly when the bytes spell it within the limits. |
| DirectoryScan.ScanType | src/io/serialized_file_directory.c:222-264 | A type row is scanned as its reader function gives it, and charged one unit more. |
| DirectoryScan.ScanObject | src/io/serialized_file_directory.c:266-322 | An object row is scanned as its reader function gives it; DirectoryWire.ObjectReadsExactly says which 24 bytes that is. |
| DirectoryScan.ScanTypes | src/io/serialized_file_directory.c:324-404 | The type table; on replay its capacity is the count read again and the rows are stored. |
| DirectoryScan.ScanObjects | src/io/serialized_file_directory.c:324-404 | The object table behind its padding, likewise. |
| DirectoryScan.ScanDirectory | src/io/serialized_file_directory.c:324-404 | The same scan measures and replays: it gives the directory function's counts and, on replay, leaves exactly its rows in the tables. |
| DirectoryScan.Measure | src/io/serialized_file_directory.c:604-616 | The first pass and the storage plan succeed exactly when the directory reads, its storage is within the limit and the work fits. |
| DirectoryScan.Replay | src/io/serialized_file_directory.c:628-645 | The second pass stores exactly the measured rows; only the work budget can stop it. |
| DirectoryScan.CreateDirectory | src/io/serialized_file_directory.c:570-650 | Creation succeeds exactly when the bytes spell a directory within the limits and its storage, the allocation and twice its bytes and rows fit the plan; the tables then hold the rows that are spelled. A scan failure reports the reason of the first refusal. |
| DirectoryScan.CostOfCreation | src/io/serialized_file_directory.c:570-650 | The total is what was spent before, twice the bytes and rows, the retained bytes and 2. |
| DirectoryScan.CreatableWhenSpelled | src/io/serialized_file_directory.c:570-650 | The scan and the plan of a directory fit exactly when its bytes spell one whose storage and cost, written out, fit. |
| MetadataTail.TailTiles | src/io/serialized_file_metadata_tail.c:373-439 | The tables and the user string of a tail tile it up to the end of the metadata, and its work is its bytes and its rows. |
| TailWire.ScriptReadsExactly | src/io/serialized_file_metadata_tail.c:253-284 | A script row is read exactly as a file index, padding to a multiple of four, and an eight-byte identifier. |
| TailWire.ExternalReadsExactly | src/io/serialized_file_metadata_tail.c:286-314 | An external row is read exactly as a string, sixteen bytes in four words, a kind and a path. |
| TailWire.ReferenceReadsExactly | src/io/serialized_file_metadata_tail.c:316-371 | A reference row is read exactly as a prefix and, when trees are embedded, a tree, the class, the namespace and the assembly. |
| TailWire.TailReadsExactly | src/io/serialized_file_metadata_tail.c:373-439 | The tail function gives a tail exactly when the bytes spell it up to the end of the metadata. |
| TailScan.ReadScript | src/io/serialized_file_metadata_tail.c:253-284 | A script row behind its alignment. |
| TailScan.ReadExternal | src/io/serialized_file_metadata_tail.c:286-314 | An external row with its strings, GUID words and type. |
| TailScan.ReadReference | src/io/serialized_file_metadata_tail.c:316-371 | A reference type row: prefix, tree and, with trees, its three names. |
| TailScan.ScanScripts | src/io/serialized_file_metadata_tail.c:373-439 | The script table is measured, or replayed into storage of exactly the count read again. |
| TailScan.ScanExternals | src/io/serialized_file_metadata_tail.c:373-439 | The same for the externals. |
| TailScan.ScanReferences | src/io/serialized_file_metadata_tail.c:373-439 | The same for the reference types. |
| TailScan.ScanTail | src/io/serialized_file_metadata_tail.c:373-439 | The same scan measures and replays: it gives the tail function's counts and, on replay, its rows. |
| TailScan.Measure | src/io/serialized_file_metadata_tail.c:551-558 | The first pass and the storage plan succeed exactly when the tail reads, its storage is within the limit and the work fits. |
| TailScan.Replay | src/io/serialized_file_metadata_tail.c:573-587 | The second pass stores exactly the measured rows; only the work budget can stop it. |
| TailScan.CreateTail | src/io/serialized_file_metadata_tail.c:497-592 | Creation succeeds exactly when the source matches, the bytes spell a tail that ends the metadata, and its storage, the allocation and the exact total fit; the tables then hold the rows that are spelled. A scan failure reports the reason of the first refusal. |
| TailScan.CostOfCreation | src/io/serialized_file_metadata_tail.c:497-592 | The total is twice the bytes and rows, the retained bytes and 3. |
| TailScan.MetadataIsCovered | src/io/serialized_file_metadata_tail.c:373-439 | A directory and the tail that starts where it ends tile the metadata from the first type row to its end. |
| TailScan.CreatableWhenSpelled | src/io/serialized_file_metadata_tail.c:497-592 | The scan and the plan of a tail fit exactly when its bytes spell one whose storage and cost, written out, fit. |
| Managed.ScalarIsAccounted | src/io/serialized_file_managed_values.c:648-730 | A scalar with its padding extends the tiling by one value, and its bytes are counted as scalar and padding bytes. |
| Managed.FieldsAreAccounted | src/io/serialized_file_managed_values.c:674-864 | Any chain of scalars, strings and slots keeps the values tiling and the byte counts exact, and never lowers the work. |
| ManagedWire.ScalarReadsExactly | src/io/serialized_file_managed_values.c:674-730 | A scalar of 1, 4 or 8 bytes is read exactly where its bytes spell its number, least significant first, with padding if aligned, within every limit. |
| ManagedWire.FieldsReadExactly | src/io/serialized_file_managed_values.c:674-864 | Any list of scalars, strings and slots is read exactly as it is spelled. |
| ManagedWire.BitsAreSpelled | src/io/serialized_file_managed_values.c:704-719 | The bits of a scalar are the number its bytes spell. |
| ManagedRows.CompareNames | src/io/serialized_file_managed_values.c:915-947 | The three-part comparison says yes exactly for equal names. |
| ManagedRows.SelectReplays | src/io/serialized_file_managed_values.c:519-555 | On the finished cache a selection finds the very index it had while the cache was growing: the type is always cached. |
| ManagedRows.RowReplays | src/io/serialized_file_managed_values.c:987-1066 | A registry row read again over the finished cache does exactly what it did when measured. |
| ManagedRows.IterationReplays | src/io/serialized_file_managed_values.c:1124-1128 | So does any number of rows, whether they end or fail. |
| ManagedPayload.ReplayAgreesWithPlan | src/io/serialized_file_managed_values.c:1068-1160 | If the measuring pass parses, the replay over its cache parses to the same view, values, slots, rows and counts: the comparison with the plan can never fail. |
| ManagedPayload.PayloadFailsHonestly | src/io/serialized_file_managed_values.c:1088-1160 | A measuring pass never reports an internal error, whatever the payload is. |
| ManagedPayload.PayloadIsAccounted | src/io/serialized_file_managed_values.c:648-672 | The values tile the payload in order, and its size is strings + scalars + padding + 4 for each string. |
| ManagedTables.SpelledTablesFit | src/io/serialized_file_managed_values.c:1088-1160 | In whatever a payload parses to, every value, slot and row is what its bytes say, and the view's numbers are those of its values. |
| ManagedTables.ReplayCharges | src/io/serialized_file_managed_values.c:519-555 | A replay is charged one unit for each cached type it looks at. |
| ManagedPayloadWire.IdentityReadsExactly | src/io/serialized_file_managed_values.c:987-1066 | A registry row's identity is read exactly as an identifier at node 31 and names at nodes 33, 37 and 41. |
| ManagedPayloadWire.RowReadsExactly | src/io/serialized_file_managed_values.c:987-1066 | A registry row is read exactly as it is spelled: not the terminator's names; for names the index does not have, identifier -2 and empty names; for one it has once, the three fields of a qualified type that is cached or fits. |
| ManagedPayloadWire.PayloadReadsExactly | src/io/serialized_file_managed_values.c:1088-1160 | The measuring pass parses a payload exactly when its bytes spell one from end to end, and then to what they spell. |
| ManagedScan.Build.ReadSpan | src/io/serialized_file_managed_values.c:573-594 | A span is taken exactly when it is inside the payload and its width and one unit are left. |
| ManagedScan.Build.ReadPadding | src/io/serialized_file_managed_values.c:631-646 | The bytes up to the next multiple of four are taken and charged, or refused. |
| ManagedScan.Build.CompleteValue | src/io/serialized_file_managed_values.c:648-672 | A value is committed to the next place for one unit; on replay a full table is an internal error. |
| ManagedScan.Build.ReadScalarValue | src/io/serialized_file_managed_values.c:674-730 | The scalar reader does exactly what its function says, and fails early only for lack of work; ManagedWire.ScalarReadsExactly says which bytes and number that is. |
| ManagedScan.Build.ReadTextValue | src/io/serialized_file_managed_values.c:732-798 | The same for a string with its count and padding. |
| ManagedScan.Build.CompleteSlot | src/io/serialized_file_managed_values.c:800-835 | A slot is committed to the next place for one unit, exactly when the unit is left and, on replay, the table is not full; otherwise the reason is the work limit or the internal error. |
| ManagedScan.Build.ReadRidSlot | src/io/serialized_file_managed_values.c:800-835 | The same for an identifier, which also becomes the next slot. |
| ManagedScan.Build.ReadCountValue | src/io/serialized_file_managed_values.c:837-864 | The same for a count with its limit. |
| ManagedScan.Build.CompareToTerminator | src/io/serialized_file_managed_values.c:915-947 | Equality with the terminator's names, for one unit a length and one for each byte compared. |
| ManagedScan.Build.SelectType | src/io/serialized_file_managed_values.c:519-555 | A cached type costs its place; a new one also its compilation; on replay a missing type is an internal error. |
| ManagedScan.Build.CompileType | src/io/serialized_file_managed_values.c:381-439 | A type not seen before is compiled and cached exactly when it qualifies, its retained bytes fit beside those of the cached types and its work fits. |
| ManagedScan.Build.CheckIdentity | src/io/serialized_file_managed_values.c:949-985 | A row's names differ from the terminator's and are looked up in the reference index, with the work of both charged. |
| ManagedScan.Build.CompleteRow | src/io/serialized_file_managed_values.c:987-1066 | A row is committed to the next place for one unit, exactly when the unit is left and, on replay, the table is not full; otherwise the reason is the work limit or the internal error. |
| ManagedScan.Build.ReadRegistryRow | src/io/serialized_file_managed_values.c:987-1066 | The row reader does exactly what its function says, and fails early only for lack of work or, on replay, of room. |
| ManagedScan.Build.ReadAllRows | src/io/serialized_file_managed_values.c:1124-1128 | So does the loop over the counted rows. |
| ManagedScan.Build.ReadHostFields | src/io/serialized_file_managed_values.c:866-894 | So does the host object's prefix with its array of identifiers. |
| ManagedScan.Build.ReadPayload | src/io/serialized_file_managed_values.c:1088-1160 | One parser for measuring and replay: it succeeds exactly when the payload parses, the work fits and, on replay, the outcome is the planned one; any other replay is an internal error. |
| ManagedValues.ResolutionIsExact | src/io/serialized_file_managed_values.c:1235-1282 | A slot is unresolved exactly when no row has its identifier, and resolves to a row exactly when that is the only one with it, as null or not by its kind; several means two such rows. |
| ManagedValues.ResolveSlots | src/io/serialized_file_managed_values.c:1235-1282 | Every slot gets its tally and the two counts of unresolved and ambiguous slots are exact, for one unit a slot and row and one a slot. |
| ManagedValues.Measure | src/io/serialized_file_managed_values.c:1315-1328 | The measuring pass and plan succeed exactly when the payload parses, the storage is within its limit and the work fits. |
| ManagedValues.Replay | src/io/serialized_file_managed_values.c:1068-1086 | The replay always parses to the planned view and core, stores exactly the planned values, slots and rows, and is stopped by nothing but the work budget: none of the five internal errors (lines 535, 662, 825, 1056, 1153) occurs, even when it is cut short. |
| ManagedValues.CreateManagedValues | src/io/serialized_file_managed_values.c:1295-1339 | Creation succeeds exactly when the bytes spell a payload within the limits and its storage, the allocation and the exact total fit. Every stored scalar then has the number of its bytes, every text the length of its four bytes, every slot the number and row of its scalar, every row the identifier of its first value and the three names behind it, and a row is the null row exactly when its identifier is -2, its names are empty and the index misses; every slot is resolved; no internal error ever occurs. |
| ManagedValues.CreatableWhenSpelled | src/io/serialized_file_managed_values.c:1295-1339 | The passes, the plan and the resolution fit exactly when the bytes spell a payload whose costs, written out, fit. |
| ManagedLinks.AskIndex | src/io/serialized_file_managed_values.c:949-985 | With its work capped by what is left, the reference index gives its unlimited answer exactly when the charge of that answer fits. |
| ManagedLinks.CompileReference | src/io/serialized_file_managed_values.c:381-439 | With its bytes and work capped by what is left, a reference type is compiled exactly when it can be within its own limits and its bytes and cost still fit, to the tree its bytes spell. |
| ReferenceIndex.CheckKey | src/io/serialized_file_reference_index.c:445-463 | A key is admitted exactly when each part and their sum are within the limits. |
| ReferenceIndex.QueryRow | src/io/serialized_file_reference_index.c:404-432 | One row says yes exactly for equal names, for one unit a length and one for each byte compared. |
| ReferenceIndex.QueryIndex | src/io/serialized_file_reference_index.c:434-492 | The query succeeds exactly when the key is admitted and the exact cost fits, and counts the matching rows. |
| ReferenceIndex.MatchIsExact | src/io/serialized_file_reference_index.c:464-491 | The match is unique exactly when one row has these names, and it is that row; it is missing exactly when none has. |
| MatchTally.TallyMeans | src/io/serialized_file_reference_index.c:464-486 | The first and second places of a tally are the first two matches and the count tells whether there are more. |
| RetainedStorage.AppendArray | src/io/serialized_file_directory.c:497-512 | An appended array is aligned behind what was there, needs less than the alignment in padding, and is refused when size_t overflows. |
| RetainedStorage.ArrayIsAppended | src/io/serialized_file_directory.c:497-512 | An array starts at the first multiple of its alignment and is refused exactly when its end is beyond size_t. |
| RetainedStorage.PlansExactly | src/io/serialized_file_directory.c:514-554 | The plan of an allocation ends where its arrays, laid out one behind the other, end. |
| GlobLanguage.PatternIsSpelled | src/common/ascii_glob.c:27-113 | A list of pieces is well formed and prints a pattern exactly when it is legal and written as the pattern in ASCII. |
| GlobLanguage.MatchesByParts | src/common/ascii_glob.c:115-199 | A text matches exactly when it falls into parts, one for each piece, that the pieces stand for. |
| GlobLanguage.PatternsDenote | src/common/ascii_glob.c:115-199 | A pattern is valid exactly when it spells pieces, and the pieces match the texts they denote. |
| AsciiGlob.PrintInvertsParse | src/common/ascii_glob.c:27-92 | A pattern that parses is the text of its pieces, and they are well formed. |
| AsciiGlob.ParseInvertsPrint | src/common/ascii_glob.c:27-92 | The text of well-formed pieces parses to those pieces. |
| AsciiGlob.ValidExactlyInTheGrammar | src/common/ascii_glob.c:94-113 | A pattern is valid exactly when it is the text of some well-formed pieces, and then of only these. |
| GlobMatcher.EndsInStar | src/common/ascii_glob.c:115-199 | A pattern ending in a star matches exactly the texts of which some prefix matches the rest. |
| GlobMatcher.EndsInByte | src/common/ascii_glob.c:115-199 | A pattern ending in another piece matches exactly when the piece accepts the last byte and the rest matches the rest. |
| GlobMatcher.StarRowStep | src/common/ascii_glob.c:136-146 | Closing a row upwards gives the row of the pattern with one more star. |
| GlobMatcher.ByteRowStep | src/common/ascii_glob.c:147-189 | Shifting a row by one byte gives the row of the pattern with one more piece. |
| GlobMatcher.StarsCollapse | src/common/ascii_glob.c:136-146 | A second star changes no row. |
| GlobMatcher.StarRunStep | src/common/ascii_glob.c:136-146 | One row serves a whole run of stars. |
| GlobMatcher.StepAtom | src/common/ascii_glob.c:9-23 | One atom of a class, escaped or not, as the grammar reads it. |
| GlobMatcher.StepItem | src/common/ascii_glob.c:60-88 | One byte or range of a class is read as the grammar reads it, and the target is hit exactly when the item holds it. |
| GlobMatcher.FindClose | src/common/ascii_glob.c:44-55 | Finds the first unescaped closing bracket exactly when there is one. |
| GlobMatcher.ScanClass | src/common/ascii_glob.c:27-92 | A class is valid whatever the target is; and with a target the answer is whether the class accepts it. |
| GlobMatcher.Validate | src/common/ascii_glob.c:94-113 | Says yes exactly for the patterns of the grammar. |
| GlobMatcher.ClassRow | src/common/ascii_glob.c:153-174 | The row of a class is computed for every byte of the text, or the class is malformed for all of them. |
| GlobMatcher.NextRow | src/common/ascii_glob.c:135-194 | One turn of the loop extends the covered pieces by what it read and leaves their row. |
| GlobMatcher.Match | src/common/ascii_glob.c:115-199 | A pattern is reported malformed exactly when no legal pieces are written as it; a valid one, given memory, is answered by whether the text falls into parts, one for each piece, that the pieces stand for. |
| PathIndex.SomeSlotIsEmpty | src/common/path_discovery.c:93-108 | An index with more slots than entries has an empty slot, so probing ends. |
| PathIndex.NotIndexed | src/common/path_discovery.c:75-91 | A path met on no probed slot up to an empty one is not in the table. |
| PathIndex.Find | src/common/path_discovery.c:75-91 | Open-addressing lookup finds an entry with the path exactly when there is one: it refines a linear search. |
| PathIndex.InsertIndexes | src/common/path_discovery.c:93-108 | Taking the first empty slot on the probe path keeps every earlier entry findable and adds the new one. |
| PathIndex.Insert | src/common/path_discovery.c:93-108 | With room, insertion cannot fail and the index then covers one more entry. |
| PathIndex.Reserve | src/common/path_discovery.c:110-140 | Growing and rehashing keeps every entry findable and leaves at least half of the slots empty. |
| PathTables.PathTable.Append | src/common/path_discovery.c:184-219 | A new path goes to the end and the table stays duplicate-free and indexed. |
| PathTables.AddFile | src/common/path_discovery.c:184-219 | A map from paths to flags: the flag is or-ed into a known path, a new path is added unless the file limit is reached, and a refusal changes nothing. |
| PathTables.QueueDirectory | src/common/path_discovery.c:259-294 | A known directory may only get nearer; a new one is queued last unless it is too deep or too many are queued, in that order. |
| PathDiscovery.NearerIsQueued | src/common/path_discovery.c:788-836 | Everything at most as deep as the directory being scanned is already queued. |
| PathDiscovery.NewChildDepth | src/common/path_discovery.c:519-596 | A directory first met while scanning another has a shortest depth exactly one greater, so a queued depth is never lowered. |
| PathDiscovery.QueueIsReachable | src/common/path_discovery.c:788-836 | When every queued directory is scanned, the queue is exactly the reachable directories with their shortest depths. |
| PathDiscovery.Misfit | src/common/path_discovery.c:519-596 | An entry that is refused, for a limit or for its kind, proves that the search as a whole breaks that rule. |
| PathDiscovery.ScanChild | src/common/path_discovery.c:519-596 | An entry passes exactly when its path is short enough, its kind is not rejected and its table has room; it then adds at most itself to the files or the queue, at one more level. |
| PathDiscovery.ScanDirectory | src/common/path_discovery.c:519-596 | Afterwards all subdirectories are queued and all regular files known, within every limit; a failure proves that the search is not permitted. |
| PathChains.ToFindIsFound | src/common/path_discovery.c:519-598 | A path is to be found exactly when it is a regular file among the inputs, or listed in a directory at the end of a chain of listed directories, each path the one before, a slash if needed, and a name other than a dot. |
| PathChains.PermittedExactly | src/common/path_discovery.c:519-598 | The search may go through exactly when every directory at the end of a chain is listed with entries that pass, no shortest chain is too long, and no set of reached directories or found files is too large. |
| PathSearch.DiscoverableExactly | src/common/path_discovery.c:764-836 | Discovery may succeed exactly when the inputs pass and nothing below them breaks a rule. |
| PathSearch.ScannedAreListed | src/common/path_discovery.c:788-836 | Scanned directories are distinct and listed, so the loop ends. |
| PathSearch.TraversedIsPermitted | src/common/path_discovery.c:788-836 | A finished traversal shows that nothing reachable is unreadable, rejected, too deep, too long or too many. |
| PathSearch.Traverse | src/common/path_discovery.c:788-836 | The breadth-first loop ends, and succeeds exactly when the whole search is permitted; it then has scanned each reachable directory once, at its shortest depth, and knows exactly its files. |
| PathSearch.TakeInputs | src/common/path_discovery.c:764-800 | The inputs are taken exactly when each is a non-empty regular file or directory of permitted length and they fit the limits; roots get depth 0 and files the explicit flag. |
| PathSearch.SortRows | src/common/path_discovery.c:606-629 | Sorting and compacting gives strictly ordered rows for the same map. |
| PathSearch.Discover | src/common/path_discovery.c:764-836 | Discovery succeeds exactly when the inputs are usable and no chain of listed directories breaks a rule; the result is then in ascending order of the bytes, is a valid argument of a merge and holds exactly the regular files given or listed at the end of a chain, flagged when given; failure leaves the old result. |
| PathResults.Deduplicate | src/common/path_discovery.c:606-629 | Compacting a sorted array in place leaves one row for each path with its flags or-ed. |
| PathResults.CountIsExact | src/common/path_discovery.c:666-682 | The count made before merging is the number of merged rows. |
| PathResults.MergedIsStrict | src/common/path_discovery.c:684-762 | Merging two strictly sorted results gives a strictly sorted one. |
| PathResults.MergedIsUnion | src/common/path_discovery.c:684-762 | The merged rows are the union of both maps with flags or-ed. |
| PathResults.IsSortedUnique | src/common/path_discovery.c:652-664 | Checking neighbours decides whether the rows are a strictly sorted result of non-empty paths. |
| PathResults.CountMerged | src/common/path_discovery.c:666-682 | Counts the merged rows without making them. |
| PathResults.MergeResults | src/common/path_discovery.c:684-762 | The destination becomes the strictly sorted union: a row is in it exactly when its path is in either list, flagged when either flags it, in the order of the bytes; or it stays as it was when an argument is not a result. |
| PathResults.StrictIsAscending | src/common/path_discovery.c:600-664 | Strictly sorted rows are those in ascending order of their bytes. |
| PathResults.UnionByRows | src/common/path_discovery.c:684-762 | A row is in a merged list exactly when its path is in either, with the flag if either has it. |
| Sha256.PaddedIsWholeBlocks | src/common/sha256.c:188-206 | The padded text is a whole number of 64-byte blocks. |
| Sha256.PaddingIsInjective | src/common/sha256.c:188-206 | No two messages, of whatever length, have the same padded text, although the length field wraps at 2^64 bits. |
| Sha256.FoldInParts | src/common/sha256.c:170-186 | Compressing whole blocks in two parts is compressing them at once. |
| Sha256.FinalBlocks | src/common/sha256.c:188-206 | The one or two last blocks the code builds are exactly the buffered bytes followed by the padding of FIPS 180-4, section 5.1.1. |
| Sha256.Context.Update | src/common/sha256.c:170-186 | The message grows by the data, while state and buffer stay the compression of its whole blocks and its rest. |
| Sha256.Context.StoreLength | src/common/sha256.c:84-88 | The length field is the big-endian word; the rest of the buffer stays. |
| Sha256.Context.Final | src/common/sha256.c:188-206 | The digest is the compression fold over the padded message. |
| Sha256.HashChunks | src/common/sha256.c:210-217 | However a message is cut into updates, the digest spells the last of the states that lead over the blocks of the padded message from the root fractions of the first eight primes. |
| Sha256.InitialStateIsRoots | src/common/sha256.c:160-168 | The initial words are the first 32 bits behind the point of the square roots of the first eight primes. |
| Sha256.PaddedByNumbers | src/common/sha256.c:188-206 | The padded text in numbers: 0x80, zeros, and the length in bits in eight bytes, most significant first. |
| Sha256.FoldIsChain | src/common/sha256.c:90-186 | Compressing blocks one by one ends in the last state of the chain over them. |
| Sha256.DigestIsDigested | src/common/sha256.c:188-217 | The digest spells the last state of the chain over the padded message. |
| Directory.TableByWords | src/io/serialized_file.c:88-139 | The table of the records is valid exactly when no two rows share an identifier word or a byte of the data. |
| ObjectTable.ApartIsDisjoint | src/io/serialized_file.c:122-138 | The comparison of end points says exactly that no byte belongs to both ranges. |
| ObjectTable.TableByContents | src/io/serialized_file.c:88-139 | Whether a table is valid can be judged on any reordering of it. |
| ObjectTable.NoNeighbourIds | src/io/serialized_file.c:111-120 | Comparing neighbours in identifier order finds exactly whether two identifiers agree. |
| ObjectTable.Sweep | src/io/serialized_file.c:122-138 | Remembering one end in range order finds exactly whether two ranges share a byte; empty ranges never do. |
| ObjectTable.ValidateObjectTable | src/io/serialized_file.c:88-139 | A table is accepted exactly when all identifiers differ and no byte belongs to two objects, however qsort orders ties. |
| ObjectTable.WrappedEndHidesOverlap | src/io/serialized_file.c:74-86 | An illustration of why the range check comes first: of two records no directory lets through, the wrapped end of one hides their overlap. |
| Pairs.OrderDoesNotMatter | src/io/serialized_file.c:88-139 | A symmetric property of all pairs holds of a list exactly when it holds of any reordering. |

## Left out

- PathDiscovery.ScanDirectory: does not model reading a directory entry by entry, because the operating system is replaced by a finite map; an unreadable directory is a missing listing, and only the POSIX separator is joined.
- PathSearch.Discover: does not say which limit or kind a failure reports when several apply; the tables' own methods do.
- Lz4Block.DecompressBlock: does not model null source or destination pointers or a length that overflows size_t, because a source shorter than 2^31 bytes cannot reach it.
- ManagedRows.SelectReplays: collapses the statuses of a nested schema failure into one refusal beside the prerequisite and work limits, because only its success matters to the replay; the cost and outcome of qualifying a compiled type by context and profile are part of the parameter.
- ManagedValues.CreateManagedValues: starts after the admission of arguments, source, host schema and reference index; their work and retained bytes are the amounts spent before, and the four single units charged while planning the arrays are taken together.
- DirectoryScan.CreateDirectory: starts after the admitted file prefix; the work of the prefix is the amount spent before.
- TailScan.CreateTail: takes the comparison of source pointers with the directory's as a boolean.
- SchemaCreation.CreateSchema: takes the row selected by the directory as a record and its source comparison as part of it; the overlap of caller and owner storage is not modelled.
- TypeTreeReader.ReadStruct: is stated for nodes whose first child is one level deeper, which the validator guarantees.
- RegistryStore.Registry.Learn: does not model the provenance argument or which of its allocations fails.
- RegistryLoad.Serialize: does not model allocation failure in the writer, nor in the reader that loads the file.
- SchemaClass.ResolveClass: addresses a planned replacement by its array and index, where the code keeps a pointer to the type.
- Sha256.HashChunks: takes the compression function as a parameter and leaves out the Apple CommonCrypto branch.
- ObjectTable.ValidateObjectTable: does not model the allocation of the record array or the logged errors.
- GlobMatcher.Match: does not model null arguments.
- Floating point: values carry the bits of a double. Widening a 32-bit float is written out on bits and proved to keep sign and value; that a signalling NaN becomes quiet is assumed of the machine. No modelled accessor converts a float.
- Error offsets, fields and ordinals of most diagnostics; the schema compiler's place of failure is kept for the hierarchy only.
- Null pointers, pointer-overlap admission, heap accounting, dispose functions and status names: matters of C ownership.
- A 32-bit SIZE_MAX: storage plans are stated for a 64-bit size_t.
- typetree_schema_registry_bind_exact_version: an easier member beside those modelled.
- Construction of the reference index: its rows are given, its queries are modelled.
- Registry file import and export, publication and file identity: operating-system behaviour.
- Legacy type formats below version 22, the bundle archive, player settings, LZMA and the Windows branches.
