# rid2name: resource id to resource name

`rid2name.py` takes a compiled Android resource table (`resources.arsc`) and a
32-bit resource id such as `0x7f010000`, and prints the resource's name as
`package.R.type.key`. The id is split into an 8-bit package id, an 8-bit type
id and a 16-bit key (entry) id. The `Arsc` class then does the lookups:

- it finds the package with that id and reads its NUL-terminated UTF-16 name;
- it numbers the package's type names from 1;
- it works out which run of the package's shared key-string pool belongs to
  the type, using the entry counts of the type-spec records of the earlier
  types;
- it numbers that run from 0 and picks the key.

This project models that resolver in Dafny and proves what it computes.

- `resource_id.dfy` (module `ResourceId`) splits an id into its three fields.
- `py_seq.dfy` (module `PySeq`) holds the parts of Python's sequence
  semantics the resolver relies on: clamped slices with negative bounds, and
  `str.strip('\0')`.
- `text_codec.dfy` (module `TextCodec`) decodes text. It covers strict UTF-8
  and Python's `utf-16` codec, which detects a byte-order mark, takes
  little-endian when there is none, joins surrogate pairs and rejects lone
  surrogates and odd lengths. Encoders are included so that round trips can
  be stated.
- `arsc.dfy` (module `Arsc`) holds the table as values (`ResTable`, `Package`,
  `StringPool`, `TypeSpecHeader`) and the operations of the `Arsc` class. Each
  loop of the source is a `method` with a `while` loop, proved equal to a
  specification function. Every exception the source raises or lets escape
  becomes an `Error` variant of a `Result`.
- `arsc_properties.dfy` (module `ArscProperties`) proves what those
  specification functions mean:
  - the decoded pool entries and the package-name map;
  - how the key ranges of the types tile the key pool;
  - exactly when a resource id resolves, and to which names.

The resolver only reads the table, so there is no class: the table is a
parameter of every operation.

The model follows the code as written, including these behaviours:

- A type id past the type-spec records fails with an index error (IndexError
  in the code), not with a dedicated "type not found" error. A type id that
  has type-spec records but no type name fails with the missing-key error
  (KeyError on the type map).
- A pool uses UTF-8 only when its flags word equals `UTF8_FLAG` (0x100)
  exactly. A pool that also carries another flag, such as the sorted flag,
  is decoded as UTF-16.
- All package names are decoded before the package is looked up, so a bad
  name in any package makes every resolution fail.
- The key id indexes the type's slice of the key pool from 0.
- UTF-16 package names and pool entries go through the `utf-16` codec's
  byte-order-mark detection. A leading U+FEFF is dropped, and a leading
  U+FFFE switches the decoding to big-endian.

## Model

| member | source | states |
|---|---|---|
| ResourceId.Decompose | rid2name.py:124-127 | the package and type ids fit 8 bits and the key id 16 bits; for any id in 0..2^32-1, putting the three fields back together gives the id |
| ResourceId.DecomposeCompose | rid2name.py:125-127 | three fields that fit their widths make an id below 2^32 that splits back into the same three fields |
| ResourceId.DecomposeIgnoresHighBits | rid2name.py:125-127 | the masks make bits above bit 31 irrelevant: an id and its low 32 bits split into the same fields |
| PySeq.Bound | rid2name.py:68 | a slice bound lands in 0..n; a bound already in range is kept, a negative one counts from the end, and one past either end is clamped to that end |
| PySeq.Slice | rid2name.py:68 | a Python slice has the clamped length, and element k of the slice is element a+k of the sequence, a being the clamped start |
| PySeq.SliceWithin | rid2name.py:95 | a slice whose bounds lie inside the sequence is the ordinary subsequence |
| PySeq.SliceStripsEnvelope | rid2name.py:68 | `t[2:-k]` on a two-element head, a body and a k-element tail, k at least 1, gives back exactly the body |
| PySeq.LStripNulSpec | rid2name.py:68 | stripping leading NULs leaves a suffix that does not start with NUL and removes only NULs |
| PySeq.RStripNulSpec | rid2name.py:68 | stripping trailing NULs leaves a prefix that does not end with NUL and removes only NULs |
| PySeq.StripNulSpec | rid2name.py:68 | `strip('\0')` gives an infix that neither starts nor ends with NUL, and what it cuts off on each side is all NULs |
| PySeq.StripNulKeeps | rid2name.py:68 | text that neither starts nor ends with NUL comes through `strip('\0')` unchanged |
| PySeq.StripNulIdempotent | rid2name.py:68 | stripping twice gives the same result as stripping once |
| TextCodec.Utf8ScalarRoundTrip | rid2name.py:68 | decoding the first scalar value of an encoded character followed by anything gives that character and its encoded length |
| TextCodec.Utf8RoundTrip | rid2name.py:68 | strict UTF-8 decoding inverts UTF-8 encoding for every string |
| TextCodec.Utf16ScalarRoundTrip | rid2name.py:47 | little-endian UTF-16 decoding of an encoded character followed by more bytes gives that character in front of whatever the rest decodes to, and fails exactly when the rest fails |
| TextCodec.Utf16UnitsRoundTrip | rid2name.py:47 | little-endian UTF-16 decoding of code units inverts encoding, surrogate pairs included |
| TextCodec.Utf16RoundTrip | rid2name.py:47 | Python's `utf-16` decoding inverts little-endian encoding of any text that does not start with a byte-order-mark character |
| Arsc.FirstNulPair | rid2name.py:39-43 | the terminator search succeeds exactly when an even offset holds two NUL bytes; it then gives the smallest such offset, and otherwise the NULL-terminator error |
| Arsc.FindNullUtf16 | rid2name.py:39-43 | the loop over even offsets returns the first even-aligned NUL pair (even, in bounds, both bytes 0, none earlier), and fails exactly when the buffer has no such pair |
| Arsc.TerminatorUnique | rid2name.py:39-47 | an even-aligned NUL pair whose preceding bytes hold no such pair is exactly the first one, so a name has one terminator |
| Arsc.Utf16ToStrSpec | rid2name.py:46-47 | a buffer with no NUL pair fails with the terminator error; the name decodes exactly when the bytes before its terminator are UTF-16, and is then their decoding; it fails with the decoding error exactly when they are not |
| Arsc.FirstPackage | rid2name.py:50-54 | a package is found exactly when some package carries the id; the result carries it and no earlier package does; otherwise the error is PackageNotFound(pid) |
| Arsc.PidToPackage | rid2name.py:50-54 | the loop returns the first package with the id, or PackageNotFound |
| Arsc.GetPackages | rid2name.py:56-62 | the loop builds the package-name map of the specification fold, failure included |
| ArscProperties.CollectNamesFails | rid2name.py:56-62 | the fold fails exactly when a remaining name does not decode, and then with the error of the first such name |
| ArscProperties.CollectNamesKeys | rid2name.py:56-62 | the keys of the folded map are the keys it started with plus the ids of the remaining packages |
| ArscProperties.CollectNamesValues | rid2name.py:56-62 | each id maps to the decoded name of the last remaining package with that id, or keeps its old name when no remaining package has it |
| ArscProperties.PackageNamesOk | rid2name.py:56-62 | the package-name map exists exactly when every package name decodes |
| ArscProperties.PackageNamesHasId | rid2name.py:56-62 | an id some package carries is a key of the package-name map |
| ArscProperties.PackageNamesError | rid2name.py:56-62 | a failing package-name map fails with the terminator error or a UTF-16 decoding error |
| ArscProperties.PackageNamesSpec | rid2name.py:56-62 | the package-name map exists exactly when every name decodes; its keys are exactly the package ids; each id maps to the name of the last package carrying it; a failure is the error of the first bad name |
| ArscProperties.PackageNameRoundTrip | rid2name.py:39-47 | a name field holding, in UTF-16, a NUL-free name that does not start with a byte-order-mark character, then a two-byte NUL and any padding, reads back as that name |
| ArscProperties.Utf16EncodeHasNoNulPair | rid2name.py:39-43 | the UTF-16 form of a NUL-free text has even length and no even-aligned NUL pair, so the terminator search cannot stop inside it |
| Arsc.NumberEntries | rid2name.py:98-105 | the loop numbering pool entries from a base gives the map of the specification fold, failure included |
| Arsc.GetPackageTypes | rid2name.py:64-73 | the type-name map is the type-string pool's entries decoded and numbered from 1 |
| ArscProperties.DecodeFromFails | rid2name.py:65-72 | numbering the remaining entries fails exactly when one of them does not decode, and then with a decoding error |
| ArscProperties.DecodeFromKeys | rid2name.py:65-72 | numbering the remaining entries adds exactly the keys base+i and up to the map it starts from |
| ArscProperties.DecodeFromKeeps | rid2name.py:65-72 | numbering the remaining entries leaves every key outside base+i and up with its old value |
| ArscProperties.DecodeFromValues | rid2name.py:65-72 | after numbering, each key t from base+i up holds entry t-base decoded |
| ArscProperties.DecodeEntriesSpec | rid2name.py:64-73 | numbering succeeds exactly when every entry decodes; the keys are then exactly base..base+n-1 and key t holds entry t-base decoded; a failure is a decoding error |
| ArscProperties.DecodedEntryAt | rid2name.py:72 | any one key of a numbered map lies in base..base+n-1 and holds its entry decoded |
| ArscProperties.TypeNameAt | rid2name.py:64-73 | type id t of the type-name map lies in 1..n and names entry t-1 of the type-string pool |
| ArscProperties.Utf8EntryRoundTrip | rid2name.py:67-68 | in a pool whose flags equal UTF8_FLAG, an entry made of a two-byte prefix, UTF-8 text and a one-byte terminator decodes to the text with NULs stripped |
| ArscProperties.Utf16EntryRoundTrip | rid2name.py:69-71 | in any other pool, an entry made of a two-byte prefix, UTF-16 text that does not start with a byte-order-mark character and a two-byte terminator decodes to the text with NULs stripped |
| ArscProperties.SameTextInEitherPool | rid2name.py:67-71 | text that does not start with a byte-order-mark character reads back the same from a UTF-8 pool and from a UTF-16 pool |
| ArscProperties.ShortEntryIsEmpty | rid2name.py:67-71 | an entry too short to hold any text (3 bytes or fewer in UTF-8, 4 or fewer in UTF-16) decodes to the empty string |
| Arsc.KeyRange | rid2name.py:81-92 | a type's key range is `first..last` with `last - first` equal to the entry count of its first type-spec record, and type 1 starts at 0 |
| Arsc.FindKeyRange | rid2name.py:81-92 | the two loops read the type-spec headers and sum the earlier entry counts; they give the type's key range when the type and every earlier type have a type-spec record, and otherwise the index error |
| ArscProperties.KeyStartMonotonic | rid2name.py:89-91 | the running sum of entry counts never decreases |
| ArscProperties.KeyRangesAdjacent | rid2name.py:89-92 | one type's key range ends where the next type's begins |
| ArscProperties.KeyRangesOrdered | rid2name.py:89-92 | key ranges of different types never overlap and are in type-id order |
| ArscProperties.KeyRangesCover | rid2name.py:89-92 | the ranges of types 1..n leave no gap: every key index below their total lies in one of them |
| ArscProperties.KeySliceSpec | rid2name.py:95 | the type's slice of the key pool is `first..last`, cut short at the end of the pool, and slice entry k is pool entry first+k |
| ArscProperties.TypeKeyAt | rid2name.py:95-105 | key k of a type's key map is key-pool entry first+k decoded, and that entry lies inside the type's range and the pool |
| Arsc.GetPackageTypeKeys | rid2name.py:76-106 | the method gives the type's key map of the specification: the type-id check, then the package lookup, the key range, the slice, and the slice numbered from 0 |
| ArscProperties.TypeKeysSpec | rid2name.py:76-106 | the key map exists exactly when the type id is at least 1, the package exists, the type and every earlier type have a type-spec record, and every key in the slice decodes; its keys are then exactly 0..len-1, and key k is slice entry k decoded |
| Arsc.RidToName | rid2name.py:109-114 | the method follows the source's order of lookups and gives the resolution of the specification, error included |
| ArscProperties.ResolveSucceedsIff | rid2name.py:109-114 | a resource resolves exactly when every package name decodes, the package exists, all its type names decode, the type id names a type with type-spec records for it and every earlier type, every key in its slice decodes, and the key id falls inside the slice |
| ArscProperties.ResolveNeedsAll | rid2name.py:109-114 | a resolved id has everything it needs: every package name decodes, the package exists, its type names decode, the type has type-spec records, its keys decode, and the key id is inside its slice |
| ArscProperties.ResolveSucceeds | rid2name.py:109-114 | an id with everything it needs resolves |
| ArscProperties.ResolveParts | rid2name.py:109-114 | a resolved name is the three map lookups of the source, and each of the three ids is present in its map |
| ArscProperties.ResolvePackageName | rid2name.py:110-114 | the package name of a resolved id is the decoded name of the last package carrying its package id |
| ArscProperties.ResolveTypeName | rid2name.py:112-114 | the type name of a resolved id is entry tid-1 of the type-string pool, decoded |
| ArscProperties.ResolveKeyName | rid2name.py:113-114 | the key name of a resolved id is key-pool entry first+kid, decoded; that entry lies inside the type's own range, never a neighbouring type's |
| ArscProperties.ResolveUnknownPackage | rid2name.py:109-111 | an id whose package id no package carries fails with PackageNotFound, once the package names decode |
| ArscProperties.ResolveTypeIdTooSmall | rid2name.py:76-78 | type id 0 (or below) fails with the type-id error, once every package name decodes and the package and its type names are there |
| ArscProperties.ResolveKeyNotFound | rid2name.py:114 | on a table whose package names, type names and slice keys all decode, a key id outside the type's slice fails with exactly the missing-key error |
| ArscProperties.ResolveKeyOutOfRange | rid2name.py:95-114 | a key id outside the type's slice fails with a decoding or missing-key error, never with another type's key |

## Left out

- `Arsc.__init__`, `from_bytes` and `from_file` are left out. They open and read the file and call the binary table decoder, which is not part of this model. The model starts from the decoded table, keeping only the fields the resolver reads.
- `main` is left out except for the id split on lines 125-127. That means the command-line handling, `int(argv[2], 0)` and the three output formats (which are printing).
- Exception message texts are left out. Each exception is one `Error` variant, and the package-not-found error keeps the id.
- The native byte order of Python's `utf-16` codec with no byte-order mark is taken to be little-endian. Big-endian hosts are not modelled.
- The `utf-16` codec's BOM handling is modelled for decoding only. The encoder writes no BOM, so `TextCodec.Utf16RoundTrip` excludes text that starts with a BOM character.
- ResourceId.Decompose: models `&` and `>>` as floor division and remainder on unbounded integers, which equals the bitwise form for every Python int. The bitwise form itself is not proved, and only ids in 0..2^32-1 are promised to round-trip.
- Arsc.FindKeyRange: both the header of type `tid` and the headers of the earlier types are read, but the model does not record which read raised the IndexError. Both give the same error.
