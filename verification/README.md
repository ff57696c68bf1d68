# A verified model of the ZIP writer, reader, filter and re-keyer

The repository writes and reads ZIP archives (PKWARE APPNOTE sections 4.3, 4.4, 4.5.3 and 6.1) with four less usual
parts: parts written independently and joined by a generated directory ("detached" mode), filtering of an archive
as a byte stream, copying of one part under a new password, and two hand-written stream ciphers. This project
models that code and proves that its several independent computations of one layout agree, that streaming code
means the same as a simple function of the whole input, and that reading undoes writing.

How the pieces fit together:

- **Layout.** `Bytes` (little-endian integers, the `writeBuf` and `readBuf` cursors), `ExtraFields` (tag/size records
  and the reader's walk over them), `Directory` (directory records), `EndRecord` (end records, zip64 forms, the search
  for them), `LocalPart` (local header and data descriptor), `Archive` (a whole archive and `Reader.init`), `Padding`
  (extra fields that end in zero bytes), `Layout` (where each field stands), `Legibility` (when an archive can be
  misread).
- **Writing.** `Jobs` says what one entry comes to: a `Job` is the caller's header, the list of writes and the random
  draws, and `ItemOf` is its final header and its exact bytes. `FileWriting` (`fileWriter`) and `Writing` (`Writer`)
  are classes whose methods are proved against those functions; `Writer.Valid` is the tiling invariant of every
  reachable state.
- **Whole runs.** `Assembly`: detached parts give the sequential archive, registration order leaves no trace, a run is
  read back exactly, filtering with "keep everything" is the identity. `DetachedRuns` carries this to the methods: a
  detached `Writer` whose parts are closed returns what completes them, and the documented use of detached mode gives
  the sequential archive. `FilterTheorems`: filters compose. `FilteredContents`: every entry of a filtered archive
  reads as it did in the source.
- **Ciphers.** `ZipCrypto`, `Ctr`, `Aes`: the streaming code in place on buffers, the one-shot meaning, inverses, and
  authentication before use. `KeySchedule` and `Authentication` say what is computed in terms of the CRC polynomial,
  known answers, and the library primitives.
- **Foreign archives.** `ForeignParts` and `ForeignCopies` state filtering and re-keying for parts as other tools write
  them: without descriptors, or with descriptors of any form, and with sizes in the local header.
- **Reading an entry.** `Payloads` (length-limited and descriptor-stripped payloads, the ZipCrypto reader), `Opening`
  (`File.Open` and the checksum reader), `Checked` (what a clean end vouches for), `Deferred` (what a clean end means
  when authentication comes last), `Contents` (what was written is what is read).
- **Re-keying.** `Stripper` (the sliding hold-back buffer and the ambiguity of descriptors), `RawCopy`
  (`CopyRawPart`), `Rekeying` (the payload and the content survive), `Consolidation` (parts merged into one archive,
  as documented, and what it delivers when it is read).

A Go `*FileHeader` is a `HeaderCell` holding a `FileHeader` value, because several components share and update one
header. Sinks are append-only byte sequences. A `Source` delivers a finite sequence in pieces of arbitrary lengths,
with empty reads in between, and then ends with the end of file or with an error; whatever is proved over it holds
for every schedule. Library code (CRC-32, XXH3, AES blocks, HMAC-SHA1, PBKDF2, compressors) is a record `Lib` of
functions about which nothing is assumed, except that content theorems ask that decompressing inverts compressing
(`Inverts`, which Store satisfies: `StoreInverts`). Random draws are a function per entry.

Hypotheses that callers of the repository must meet, and that appear as `requires`: a caller's `Extra` is a list of
whole records without the three tags the writer adds itself (`CallerExtra`); positions stay below 2^63; headers of
one writer are distinct objects. One condition is not in the documentation: without a zip64 end record, the 20 bytes
before the end record must not look like a zip64 locator, because the reader looks at them unconditionally
(`Decoy`). `EndRoundTrip` shows that this is exactly when the reader recovers the end record, `ReadExactlyWhen` carries
it to whole archives and names the zip64 end record that a decoy leads to, and `WriterMadeDecoy` is an archive of this
writer, one empty entry with a certain comment, that its reader rejects. `DecoyOfLast` reduces the question to the last
20 bytes of the last entry's name, extra field and comment, and `OrdinaryIsLegible` answers it for entries as the
writer commonly produces them.

Likewise `StripWritten` gives the exact condition (`Misread`) under which stripping a descriptor does not recover the
payload. For signed descriptors it is the one case of APPNOTE section 4.3.9, met by a payload of 128 MiB
(`SignedMisread`). For descriptors without signature there are more, met already by eight zero bytes
(`UnsignedMisread`); only AES entries have those, and `CopyRawPart` refuses AES sources, so they are facts about the
stripper and not about any copy.

The reader accepts up to three zero bytes behind the records of an extra field, and a filter keeps them. It then
appends the records it regenerates behind those bytes, and the walk of the reader takes bytes of the padding and of
the record together for a record. `RestoredExactlyWhen` says for which headers that goes wrong: whenever something is
appended behind padding, except for two coincidences of sizes and offset. `PaddedHashIsLost` is a concrete extra
field, and `FilteredReadsExactlyWhen` carries the condition (`AllSurvive`) to any archive and any selection.

With deferred authentication, the end of file is not a verdict on the tag by itself: `CleanEndVouchesExactlyWhen` shows
that it is one, for every entry of a method, if and only if the decompressor never reports the end of a stream that
has not ended well. Store is such a method. A decompressor that stops at an end marker of its own is not, and with one
an entry with a wrong tag ends well (`HastyIsUnvouched`).

Where code and documentation differ, the model follows the code. `CopyRawPart` is documented to encrypt with the new
password if one is given; the code does so only if the source is encrypted, and leaves a plain source in the clear
(`CopiedKeeps`, `Rekeyed`). A related behaviour that is easy to miss: `Reader.SetPassword` marks every entry as
encrypted, so an entry that is not encrypted no longer opens as what it is (`PasswordOnPlainEntry`).

## Model

| member | source | states |
|---|---|---|
| Bytes.WriteBuf.Uint32 | writer.go:577-597 | the cursor appends four little-endian bytes to what has been written and touches nothing else |
| Bytes.ReadBuf.Uint32 | reader.go:579-603 | the cursor takes the first four bytes and leaves the rest |
| Bytes.XorTwice | crypto.go:129-139 | XOR with the same byte twice is the identity on bytes |
| Bytes.XorBitwise | crypto.go:129-139 | XOR of two bytes is the sum modulo 2 of each pair of bits |
| Aes.MethodHasKey | crypto.go:462-473 | choosing an AES method gives a strength whose key has 16, 24 or 32 bytes; any other choice keeps the strength, and nothing else changes |
| Header.HeaderCell.SetPassword | crypto.go:475-487 | sets the password and makes the entry count as encrypted |
| Header.PasswordSetsBit0 | crypto.go:475-487 | of the flags it sets bit 0 and no other |
| Header.BitsKept | writer.go:323-336 | setting bit 3, clearing bit 0 and replacing the lower version byte leave every other bit alone |
| Header.StoreInverts | register.go:148-172 | Store satisfies the one law about compressors: its output is the content, for every list of writes |
| ExtraFields.RemoveExtraField | struct.go:279-300 | the loop computes `Remove`: complete records with the tag are dropped, everything else stays in order |
| ExtraFields.RemoveAppend | struct.go:279-300 | removal distributes over concatenation behind whole records |
| ExtraFields.RemoveTags | struct.go:279-300 | afterwards the tag is gone, the other tags stay, and so does whatever follows the last whole record |
| ExtraFields.RemoveLength | struct.go:279-300 | the length is unchanged exactly when there was no record with the tag |
| ExtraFields.WalkAppend | reader.go:341-401 | walking a concatenation behind whole records is walking one after the other |
| ExtraFields.WalkForeign | reader.go:341-401 | records of other tags, with or without padding behind them, change no size, offset or checksum |
| ExtraFields.WalkAes | reader.go:371-384 | only AES records change method, version and strength |
| ExtraFields.AesRecordInfo | crypto.go:448-460 | the record the writer adds announces AE-2, the strength and the original method |
| ExtraFields.EscapedValues | reader.go:347-368 | for every combination of escaped fields, a zip64 record gives exactly the escaped values, in order, and the other ones stay |
| ExtraFields.EscapedValuesMissing | reader.go:350-366 | a record too short for the escaped values is refused |
| Directory.WriteDirectoryHeader | writer.go:111-187 | writes exactly the record `DirRecord` or nothing, with the error in the order of the checks |
| Directory.ReadDirectoryHeader | reader.go:307-403 | on any stream and schedule, returns what `ParseDir` says and stops right behind the record |
| Directory.ReadExtra | reader.go:341-401 | the loop over the extra field is the fold `WalkExtra`, with the zero-padding rule at its end |
| Directory.FixedRoundTrip | writer.go:112-176 | the 46 fixed bytes read back to the same fields |
| Directory.WalkAdded | reader.go:347-368 | the walk over the added records restores sizes, offset and XXH3 for every combination of small and escaped values, 0xFFFFFFFF included, if there is no padding in front of them |
| Directory.DirRoundTrip | writer.go:111-187 | a printed record followed by anything parses to its header, offset and exactly that rest, if nothing was put behind padding |
| Directory.ReadBackExactlyWhen | reader.go:307-403 | in general it does so if and only if the walk over its extra field restores the values that were printed |
| Padding.RestoredExactlyWhen | reader.go:341-401 | the walk restores them if and only if the extra field is not padded, nothing is appended behind the padding, or sizes and offset are one of two triples that happen to repeat themselves |
| Padding.NotRestored | reader.go:341-401 | a record behind padding is refused with a format error, except a zip64 record alone behind two zero bytes |
| Padding.PaddedHashIsLost | filter.go:127-138 | the reader accepts a content hash followed by a zero byte, and refuses what the filter makes of it |
| Directory.DirRecordWire | writer.go:111-187 | a record depends only on the fields that travel |
| Directory.PrintedExactlyWhen | writer.go:111-187 | a record can be printed if and only if name, extra with what is added, and comment fit 16 bits each; which error otherwise |
| EndRecord.WriteDirectoryEnd | writer.go:192-238 | writes exactly `DirEnd`: zip64 record and locator in front when any of the three thresholds is reached |
| EndRecord.FindSignatureInBlock | reader.go:565-577 | the backward scan returns the last position whose comment fits, or -1 |
| EndRecord.LastEndIsLast | reader.go:565-577 | the searched position is an end record and none follows it |
| EndRecord.SearchReaches | reader.go:445-471 | the search reaches the end record of every file that ends with its comment, whatever its length |
| EndRecord.SearchWindows | reader.go:453-470 | the two windows find what one scan of the last 65 KiB finds |
| EndRecord.LocatorInBuffer | reader.go:469-502 | the locator taken from a buffered window is the one in the file |
| EndRecord.ReadDirectory64End | reader.go:543-563 | the zip64 end record, with its signature check and errors |
| EndRecord.ReadDirectoryEnd | reader.go:445-512 | the whole search computes `ReadEnd` of the file, errors included |
| EndRecord.EndRoundTrip | reader.go:445-512 | what `writeDirectoryEnd` was given is recovered if and only if there is a zip64 record or no decoy locator leads astray |
| EndRecord.DecoyDefeatsReader | reader.go:472-502 | 42 bytes, made by no writer, whose end record is hidden by what looks like a locator |
| Layout.LittleEndian | writer.go:577-597 | numbers stand with the least significant byte first |
| Layout.DirectoryLayout | writer.go:111-187 | byte positions of all fields of a directory header |
| Layout.RecordLayouts | writer.go:130-160 | byte positions in the XXH3, zip64 and AES extra records |
| Layout.EndLayout | writer.go:192-238 | byte positions in the end record, both record counts included |
| Layout.End64Layout | writer.go:192-238 | byte positions in the zip64 end record |
| Layout.LocatorLayout | writer.go:192-238 | byte positions in the zip64 locator |
| Layout.EndIsRead | reader.go:472-512 | comment, count, size and position are read from those places of the last end record |
| Layout.LocatorIsFound | reader.go:517-541 | a zip64 locator is the 20 bytes before the end record with the right signature and a position that is not negative as an int64 |
| Layout.End64IsRead | reader.go:497-563 | with a locator, count, size and position are read from their places in the zip64 record that it leads to |
| Layout.CountsAreChecked | reader.go:79-120 | more announced entries than one per 30 bytes, another number modulo 2^16 than there are, or a directory that ends with the file: not opened |
| Layout.CommentIsReported | reader.go:79-120 | the comment a reader reports is the one behind that record |
| Archive.InitReader | reader.go:79-120 | the loop computes `Init`: records until the first that does not parse, count compared modulo 2^16 |
| Archive.WriteRecords | writer.go:89-93 | the loop writes the records in order; at the first that cannot be printed, exactly the ones before it have been written |
| Archive.DirIsRecords | writer.go:73-102 | the directory of items laid end to end is that of their headers at their true offsets |
| Archive.Tiling | writer.go:294-321 | items tile the output: each starts where the previous ends, and its bytes are found there whatever surrounds them |
| Archive.ReadFilesDir | reader.go:106-119 | reading a printed directory gives its entries in order and stops at what follows, if and only if every record can be restored |
| Archive.ArchiveReads | reader.go:79-120 | an archive behind any prefix is read as exactly its entries, in order, at their true positions, if and only if every record can be restored |
| Archive.ArchiveRoundTrip | reader.go:79-120 | so it is for whatever the writer prints, which never pads |
| Legibility.DecoyIsFollowed | reader.go:494-511 | where a decoy leads, the reader takes the values of a zip64 end record if there is one, and fails if there is none |
| Legibility.DecoyMakesArchiveUnreadable | reader.go:494-502 | a decoy that leads to no zip64 end record makes the reader fail on the whole archive |
| Legibility.ReadExactlyWhen | reader.go:79-120 | the entries are read back if and only if every record can be restored and there is a zip64 end record or no decoy, or the decoy leads to a zip64 end record whose directory reads as the same entries; the writer's own records can always be restored |
| Legibility.LocatorComment | reader.go:472-502 | any single entry with a locator for its comment makes an archive that the reader rejects |
| Legibility.WriterMadeDecoy | writer.go:73-102 | such an archive exists: the writer makes it of one empty entry |
| Legibility.DecoyOfLast | reader.go:472-502 | whether a locator is seen where there is none is decided by the last 20 bytes of the last entry's name, extra field and comment |
| Legibility.OrdinaryIsLegible | reader.go:472-502 | an archive whose last entry has a content hash, no comment, no zip64 record and no P at one place of its name is never mistaken |
| LocalPart.WriteHeader | writer.go:429-457 | writes exactly the local header, or nothing with the right error |
| LocalPart.LocalRoundTrip | writer.go:436-448 | the 30 fixed bytes read back to the same fields |
| Layout.LocalLayout | writer.go:436-448 | byte positions of all fields of a local header |
| Layout.EntryLayout | writer.go:429-457 | what the writer puts there for an entry, with name and extra behind |
| LocalPart.WriteDescriptor | writer.go:534-555 | the descriptor, signed or not, with 32- or 64-bit sizes |
| Layout.DescriptorLayout | writer.go:534-555 | byte positions of signature, checksum and sizes in all four forms |
| LocalPart.PredictedIsWritten | writer.go:624-635 | the predicted part length is the length of the written part |
| Jobs.PayloadForms | writer.go:323-382 | the three payload forms: in the clear, ZipCrypto, AES with its tag |
| Jobs.CreatedExactlyWhen | writer.go:323-382 | an entry can be created if and only if method, level, strength and lengths allow it; which error otherwise |
| Jobs.CreatedExtra | writer.go:355-358 | creation adds at most the AES record, from which the reader gets back method, version and strength |
| Jobs.FinalKeeps | writer.go:509-532 | what closing changes in a header and what it leaves alone; the 32-bit sizes agree with the 64-bit ones or are escaped; AES stores no checksum |
| Jobs.JobIsClosed | writer.go:486-556 | every finished entry is a closed part: its header agrees with its bytes |
| FileWriting.EncSink.Write | writer.go:343-368 | whatever layer is in place, the output grows by the encryption of what was passed on |
| FileWriting.FileWriter.Write | writer.go:475-484 | a write extends the job by one write; after closing it is refused and nothing is written |
| FileWriting.FileWriter.Close | writer.go:486-556 | the output has gained exactly the part of the job, the header is its final header, and a second close changes nothing |
| FileWriting.NewFileWriter | writer.go:323-382 | creation in the order of its checks; a failed creation writes nothing |
| FileWriting.Start | raw_writer.go:59-110 | encryption layer and local header, for raw entries as for compressed ones |
| Writing.Writer.SetOffset | writer.go:55-60 | before any data, the base of all offsets becomes n |
| Writing.Writer.Create | writer.go:294-321 | closes the open entry, refuses detached writers and duplicates, and otherwise opens an entry at the current offset; a failure writes nothing and registers nothing |
| Writing.Writer.AddEntry | raw_writer.go:15-42 | the same for raw and compressed entries, keeping the tiling invariant |
| Writing.Writer.CloseLast | writer.go:74-79 | the open entry joins the closed ones: offsets stay the sums of the lengths before |
| Writing.Writer.Close | writer.go:73-102 | the output of a run is exactly the archive of its jobs behind the base, or the parts and the records before the first that cannot be printed, with its error; closing twice is refused |
| Writing.Writer.CreatePart | writer.go:395-409 | a detached part goes to its own output, through a writer of its own, and is registered only when its creation succeeded |
| Writing.Writer.AddDetachedHeader | writer.go:412-416 | one registration appends one entry and changes nothing else |
| Writing.Writer.AddFileWithOffset | writer.go:421-427 | registers an entry with a given offset |
| Writing.Writer.Order | writer.go:609-635 | the directory is stably sorted in place and every entry gets its given offset or the running one |
| Writing.Writer.Place | writer.go:613-635 | the offset loop computes `Placed`, for given and missing offsets |
| Writing.PlacedAt | writer.go:613-635 | given offsets are kept, and an entry without one starts where its predecessor is predicted to end |
| Writing.Writer.GenerateCentralDirectory | writer.go:599-650 | generated once from the registered entries as their headers now stand, then cached; a failure caches nothing |
| Writing.Writer.GetCentralDirectoryBytes | writer.go:652-660 | those bytes, which are then the cached ones, or an error for a writer that is not detached |
| Writing.SortMatches | writer.go:609-611 | sorting the entries sorts their values |
| Sorting.SortForgetsOrder | writer.go:609-611 | with distinct keys a stable sort does not depend on the order of arrival |
| Sorting.KeepSort | filter.go:26-28 | selecting and stable sorting commute |
| Assembly.JobLen | writer.go:624-635 | for every job the predicted length is what closing wrote |
| Assembly.PlacedAtOffsets | writer.go:613-635 | offsets by prediction are the sums of the real lengths, modulo 2^64 |
| Assembly.DetachedIsSequential | writer.go:599-650 | parts in order plus the generated directory are byte for byte the sequential archive of the same jobs, however they were registered |
| Assembly.RegistrationForgotten | writer.go:412-416 | any interleaving of registrations with distinct orders generates the same bytes |
| Assembly.ReadBackDescribes | reader.go:307-403 | what the reader reports of an entry: name, versions, times, method before AES, strength, 64-bit sizes and 32-bit ones, checksum, XXH3, and the exact extra field |
| Assembly.RunRoundTrip | reader.go:79-120 | reading what a run wrote, behind any prefix, gives its entries in order, truly described and at their true positions, and no comment |
| DetachedRuns.DetachedRun | writer.go:599-660 | a detached writer with exactly the closed parts of these jobs registered, in any order, returns what completes the parts to the sequential archive |
| DetachedRuns.AddPart | README.md:142-159 | creating, writing and closing one part gives the exact bytes of its job and registers its final header |
| DetachedRuns.AssembleParts | README.md:140-173 | the documented use of detached mode gives, byte for byte, the sequential archive of the same jobs |
| Assembly.RunFiltered | filter.go:17-149 | keeping every entry of a run reproduces it byte for byte |
| Filter.CopyEntry | filter.go:52-119 | copies exactly the bytes of one part, whose length it infers from the stream |
| Filter.CopyParts | filter.go:36-122 | the output is the exact source ranges in order, and each new offset is the sum of the kept lengths |
| Filter.FilterZipStream | filter.go:17-149 | the whole call writes `Filtered`: the selected items as an archive of their own |
| FilterTheorems.ClosedIsMeasured | filter.go:90-119 | the filter infers the length the writer produced, whatever follows the part |
| FilterTheorems.EntryLenLocal | filter.go:52-119 | an inferred length depends only on the bytes of the part |
| ForeignParts.ForeignMeasured | filter.go:52-119 | of a part as any tool writes it, without a descriptor or with one in any of its forms, exactly the length is found, whatever follows; sizes take eight bytes if the directory or a zip64 record of the local extra says so |
| ForeignParts.NegativeMeasured | filter.go:52-119 | a compressed size that is negative as an int64 counts as none |
| ForeignParts.MistakenSignature | filter.go:98-119 | the exception: without signature, and with a checksum that is the signature, four bytes too many are taken |
| ForeignParts.RangesAreParts | filter.go:36-60 | one pass over parts that lie one behind the other, with or without gaps, reads exactly their bytes |
| ForeignParts.ForeignKept | filter.go:17-149 | filtering any archive of such parts succeeds and its output is the archive of exactly the selected ones |
| ForeignParts.OverlapIsRefused | filter.go:36-50 | parts that overlap are refused |
| FilterTheorems.RegenReadBack | filter.go:127-138 | the regenerated header prints what the writer printed, for the headers that were read back |
| FilterTheorems.FilterPrinted | filter.go:17-149 | filtering a printed archive, behind any prefix, prints the archive of the selected items |
| FilterTheorems.FilterKeepsAll | filter.go:17-149 | keeping everything drops the prefix and otherwise gives the same bytes |
| FilterTheorems.RangesKeep | filter.go:36-60 | filtering by a second predicate selects among the ranges of the first |
| FilterTheorems.FilterBoth | filter.go:26-28 | on items: filtering by both predicates is selecting among the items of the first, which print and measure as before if no record is put behind padding |
| FilterTheorems.FiltersCompose | filter.go:17-149 | filtering the reread result of one filter by another gives the bytes of filtering by both, if the first put no record behind padding |
| FilteredContents.PartDecides | reader.go:183-238 | what opening finds in a part, its descriptor included, does not depend on what surrounds the part |
| FilteredContents.RegenOpensAlike | filter.go:127-138 | the regenerated header, read back, has everything that opening looks at |
| FilteredContents.FilteredReadsExactlyWhen | filter.go:17-149 | the filtered archive is read as its entries where they now stand if and only if each regenerated record can be read again: no padding, nothing behind it, or a coincidence |
| FilteredContents.FilterKeepsContent | filter.go:17-149 | then every selected entry reads from the filtered archive exactly as from the source, errors included, with any password |
| FilteredContents.FilterKeepsNothing | README.md:191 | if no entry matches, an empty archive is written, and it can be read |
| ZipCrypto.DecryptEncrypt | zipcrypto.go:40-69 | deciphering what was enciphered gives it back |
| ZipCrypto.KeysAgree | zipcrypto.go:40-69 | writer and reader have the same keys after every byte |
| ZipCrypto.EncryptDecrypt | zipcrypto.go:40-69 | and the other way round |
| ZipCrypto.EncryptedAt | zipcrypto.go:54-61 | each byte is XORed with the key stream byte that the plaintext before it has led to |
| ZipCrypto.EncryptAppend | zipcrypto.go:54-61 | enciphering in pieces is enciphering at once |
| ZipCrypto.DecryptAppend | zipcrypto.go:63-69 | deciphering in pieces is deciphering at once |
| ZipCrypto.CheckBytes | zipcrypto.go:92-97 | the two check bytes together are the time when a descriptor follows, and otherwise the high word of the checksum |
| ZipCrypto.HeaderBytes | zipcrypto.go:128-156 | the encryption header is ten drawn bytes and the check bytes |
| ZipCrypto.Engine.EncryptTo | zipcrypto.go:54-61 | in place or from one buffer to another, the result is the cipher of the old contents |
| ZipCrypto.Engine.DecryptTo | zipcrypto.go:63-69 | the same for deciphering |
| ZipCrypto.OpenPayload | zipcrypto.go:210-237 | a header with the right check byte opens, and the data comes back; with another one the password is refused |
| ZipCrypto.OpenWritten | zipcrypto.go:92-97 | the check byte the writer stored is the one a reader derives from the final header |
| ZipCrypto.Writer.Write | zipcrypto.go:158-178 | header once, then data in 32 KiB chunks: the output is one encipherment of everything so far |
| ZipCrypto.Writer.Close | zipcrypto.go:180-182 | an entry without a write still gets its header |
| KeySchedule.TableIsDivision | zipcrypto.go:83-85 | the table holds exactly the remainders of the division by the CRC-32 polynomial |
| KeySchedule.UpdateDivides | zipcrypto.go:83-85 | an update by a byte divides the sum of register and byte by that polynomial |
| KeySchedule.KnownEntries | zipcrypto.go:83-85 | five published entries of the table |
| KeySchedule.MiddleKey | zipcrypto.go:40-45 | the middle key takes the affine step of multiplier 134775813 and constant 1, modulo 2^32 |
| KeySchedule.UpdateInjective | zipcrypto.go:40-45 | no two states of the keys are taken to one by the same byte |
| KeySchedule.BytesDiffer | zipcrypto.go:40-45 | different bytes leave different keys |
| KeySchedule.EveryByteMatters | zipcrypto.go:30-45 | passwords, and texts, that differ in one byte leave different keys, whatever stands around it |
| KeySchedule.KnownPassword | zipcrypto.go:30-45 | the keys of the empty password and of one of six letters |
| KeySchedule.KnownStream | zipcrypto.go:47-50 | the key stream bytes of seven states |
| Ctr.IncrementLowBytes | crypto.go:116-123 | the carry loop adds one to the little-endian 16-byte counter, modulo 2^128 |
| Ctr.CountersDiffer | crypto.go:85-123 | no counter value is used twice within 2^128 - 1 blocks |
| Ctr.CtrInverse | crypto.go:129-139 | the cipher is its own inverse |
| Ctr.CtrAppend | crypto.go:129-139 | running it on pieces at their positions is running it once |
| Ctr.Stream.Refill | crypto.go:96-127 | moving down and refilling loses, repeats and reorders no key byte, and leaves some to use |
| Ctr.Stream.XorKeyStream | crypto.go:129-139 | any calls, in place or not, continue the one simple cipher where the last call stopped |
| Aes.EncryptionWriter.Write | crypto.go:357-374 | salt and verifier once, then ciphertext, all of it authenticated |
| Aes.EncryptionWriter.Close | crypto.go:376-388 | an entry without a write still gets salt and verifier |
| Aes.AesRoundTrip | crypto.go:276-321 | the reader finds the data, and an authentic tag, in the layout the writer produced |
| Aes.BufferedAuthReader.Read | crypto.go:214-251 | no byte is returned unless both sources were read to their ends and the stored tag is the front of the HMAC of all of the data; the error is the right one and stays |
| Aes.StreamingAuthReader.Read | crypto.go:172-207 | a run that ends with the end of file returned everything and saw a tag that is the front of the HMAC of it; a source that fails ends it with the right error |
| Authentication.KeyLengths | crypto.go:462-473 | the three strengths have keys of 128, 192 and 256 bits |
| Authentication.CounterOf | crypto.go:85-127 | the block enciphered for byte i is the number of its block, from 1, least significant byte first |
| Authentication.OpenedStream | crypto.go:266-321 | in terms of PBKDF2, HMAC and AES: which derived bytes are keys and verifier, that a clean end means the stored ten bytes are those of the HMAC of the ciphertext, that nothing is delivered otherwise unless authentication is deferred, and what each byte deciphers to |
| Authentication.RefusedStream | crypto.go:276-321 | exactly when an AES payload is refused at once, and with which error |
| Authentication.EntryIsVouched | reader.go:183-238 | the same for opened entries: a stored one that ends well, or delivers a byte without deferral, has that tag |
| Authentication.ReplacedIsRefused | crypto.go:172-251 | a ciphertext replaced under the old tag is refused unless its HMAC begins with it |
| Authentication.WrittenAes | crypto.go:333-420 | what the writer emits for an AES entry, byte by byte, in the same terms |
| Stripper.DescriptorStripper.Read | raw_reader.go:131-162 | for every schedule of reads and buffer sizes the results concatenate to one function of the input, and 24 bytes stay behind until the end |
| Stripper.FitOfTail | raw_reader.go:169-209 | the last 24 bytes decide about the descriptor |
| Stripper.StripExactly | raw_reader.go:164-209 | of any input: the payload is its front, what is taken off is the first of the four forms that its end spells with the right size, and nothing is taken if none does |
| Stripper.DescriptorStripper.FindForm | raw_reader.go:169-209 | the four forms are tried in order |
| Stripper.StripWritten | raw_reader.go:169-209 | payload and values come back from what `fileWriter.Close` wrote if and only if no earlier form misreads the end of the payload |
| Stripper.SignedMisread | raw_reader.go:169-209 | the exception is met: a signed 32-bit descriptor behind a payload of 128 MiB that is misread |
| Stripper.UnsignedMisread | raw_reader.go:169-209 | without signature, eight zero bytes are misread |
| Payloads.PayloadReader.Read | raw_writer.go:196-210 | the payload, cut off by its length or by its descriptor, in pieces of any lengths |
| Payloads.ZipDecryptReader.ReadHeader | zipcrypto.go:210-228 | the header is read and checked once; too short or wrong is refused, and that stays |
| Payloads.ZipDecryptReader.Read | zipcrypto.go:230-237 | for any split, the data returned is that of opening the whole payload at once |
| Payloads.DecryptWhole | zipcrypto.go:103-117 | the buffering decryptor gives the same without the check |
| Opening.FindBodyOffset | reader.go:289-302 | length of the local header with name and extra, or the error |
| Opening.ReadDataDescriptor | reader.go:405-443 | accepts a descriptor with or without signature exactly when its checksum is the directory's |
| Opening.EofMeansChecked | reader.go:257-280 | the end of file is reported if and only if size, descriptor and checksum agree as far as they are present |
| Opening.ChecksumReader.Read | reader.go:249-283 | every run passes the data on and ends with that verdict, which stays |
| Opening.NewDecryptionReader | crypto.go:276-321 | salt, verifier, lengths and the two sections, with the errors in order |
| Opening.DrainBuffered | crypto.go:214-251 | deciphering what the buffered reader releases gives the whole plaintext or nothing |
| Opening.DrainStreaming | crypto.go:172-207 | deciphering as data comes gives the whole plaintext, with the verdict at the end |
| Opening.SetPassword | reader.go:175-179 | every entry gets the password and counts as encrypted, whether it is or not |
| Opening.Open | reader.go:183-238 | the reader delivers the bytes and the end that `OpenFile` says, or `Open` fails as it says |
| Checked.CleanEndIsChecked | reader.go:224-283 | an entry that ends well has the announced size, the announced checksum, and a descriptor that stores it |
| Checked.MismatchIsReported | reader.go:249-283 | and if it does not, which error is reported for what |
| Checked.StoredEntry | reader.go:183-238 | of a stored entry in the clear: the bytes of its payload, and a clean end if and only if all of that agrees |
| Checked.UnknownMethod | reader.go:213-217 | the error for a method without decompressor, exactly then |
| Opening.VerifyXxh3 | reader.go:155-173 | opens the entry, reads it to its end and compares the hash; errors in that order |
| Checked.HashIsChecked | reader.go:155-173 | the check passes if and only if there is no hash or the entry reads well and has it; a wrong one is reported |
| Deferred.EndOfAes2 | reader.go:183-238 | what reading an AES entry to its end gives: the decompressor works on the deciphered stream and is told whether the tag matched; for Store a clean end and a matching tag are the same thing; any other end names a short tag, a wrong tag or the decompressor's own failure |
| Deferred.CleanEndVouchesExactlyWhen | crypto.go:172-207 | for a method, no entry opened with deferred authentication ends well on a wrong tag if and only if its decompressor never reports the end of a stream that failed |
| Deferred.HastyIsUnvouched | crypto.go:172-207 | the other case is met: an entry with a wrong tag that ends well |
| Contents.PartFound | reader.go:289-302 | header, payload and descriptor of a part are found anywhere in a file |
| Contents.StreamRecovered | reader.go:195-213 | with the entry's password, decryption gives what was encrypted, for all three methods |
| Contents.DescriptorAccepted | reader.go:405-443 | the descriptor the writer wrote passes the reader's check |
| Contents.ContentOf | reader.go:183-238 | opening a described entry delivers its content and then the end of the file |
| Contents.RunContents | reader.go:183-238 | every entry of a run, found through the directory, delivers the content it holds |
| Contents.WrittenIsRead | reader.go:183-238 | what was written to an entry, in any pieces, is what is read from it |
| Contents.WrittenVerifies | reader.go:155-173 | every entry written through the compressor passes the XXH3 check after a round trip |
| Contents.PasswordOnPlainEntry | reader.go:175-238 | after that, an entry that is not encrypted is deciphered: below twelve bytes it fails to open, otherwise it is refused or something twelve bytes shorter is decompressed, and no stored one reads as before |
| RawCopy.ReadLocalFileHeader | raw_reader.go:11-57 | the header of a part and the position behind it, for any schedule |
| RawCopy.ParseLfhZip64Extra | raw_reader.go:59-86 | escaped sizes come from the first zip64 record, and only if it is long enough |
| RawCopy.FirstZip64Decides | raw_reader.go:63-85 | the first zip64 record of a local extra field decides about the sizes, whatever precedes and follows it |
| RawCopy.EscapedSizes | raw_reader.go:71-82 | the record holds the escaped sizes only, in order, and a size that is not escaped is the header's |
| RawCopy.CopyHeader | raw_writer.go:156-194 | the new header: zip64 record dropped, overrides applied, password set or removed |
| RawCopy.CopiedKeeps | raw_writer.go:156-194 | the copy has exactly the metadata the callback returned; it is encrypted under the new password exactly when one is given and the source was encrypted; checksum, size, method and the other flags stay |
| ForeignCopies.HeaderIsRead | raw_reader.go:11-57 | a local header is read field by field, each size from its own field |
| ForeignCopies.EscapedHeaderIsRead | raw_reader.go:59-86 | escaped sizes come from a zip64 record anywhere in the extra |
| ForeignCopies.SourceIsRefused | raw_writer.go:142-219 | which parts are refused before anything is written |
| ForeignCopies.PayloadIsTaken | raw_writer.go:196-243 | without a descriptor the payload has the length that the header says, and checksum and content size are the header's |
| RawCopy.OpenSource | raw_writer.go:142-219 | a part that cannot be deciphered is refused, and the layers deliver the deciphered payload otherwise |
| RawCopy.CopyAll | raw_writer.go:226-228 | everything that the layers deliver becomes the writes of the open entry |
| RawCopy.CopyRawPart | raw_writer.go:136-243 | the outcome is fixed by part and passwords, errors in order; a part whose data cannot be had leaves the writer untouched; a later failure leaves the new entry open and half-copied, with what was delivered so far under the checksum and size of the local header; success adds exactly the re-keyed entry |
| ForeignCopies.ForeignIsCopied | raw_writer.go:136-243 | a complete part with its sizes in the local header is copied whenever the entry can be created, and the copies are exactly the entries with its stream, checksum and size |
| ForeignCopies.ForeignCopyHolds | raw_writer.go:136-243 | and they hold its content |
| Rekeying.Rekeyed | raw_writer.go:136-243 | the copy's payload opens under the new password, or stands in the clear, to what the old password gave; checksum and size are the source's, and the compressed size is the new one |
| Rekeying.WrittenSource | raw_writer.go:136-243 | a part that this writer wrote is taken apart to the stream below its encryption |
| Rekeying.CopyHolds | raw_writer.go:136-243 | what an entry holds, its copy holds: reading the copy gives the original content |
| Consolidation.Consolidate | README.md:307-331 | the documented use: the closed archive holds the earlier entries and exactly the copies, in order |
| Consolidation.MergedContent | raw_writer.go:136-243 | an archive of copies, read back and opened with the common new password, delivers the contents of the originals |

## Left out

- Library code (flate, CRC-32, XXH3, AES blocks, HMAC-SHA1, PBKDF2, randomness): functions of the model about which nothing is assumed.
- `register.go`: compressor registration, pools and mutexes; registered methods are two predicates of `Lib`.
- Failures of the output, of the random generator and of the compressor in the middle of an entry, and the sticky errors that follow from them: sinks do not fail here.
- Timing of a compressor's output: a compressor emits a function of its past writes at each write; a write from which it emits nothing does not reach the encryption layer.
- Opening.Open: the decrypted stream is read to its end and decompressed at once, where the repository does so as the caller reads; what is delivered and how it ends is the same, the moment at which it is read is not modelled.
- Opening.NewDecryptionReader: sections are values; offsets that overflow 64 bits are not modelled.
- Writing.Writer.Create: the header must not belong to an earlier entry, except for the last one, which is refused as a duplicate; a header modified by its owner after creation is not modelled.
- Writing.Writer.SetOffset: negative offsets are not modelled.
- Writing.Writer.AddFileWithOffset: only for detached writers; on another writer it would put a foreign entry into the directory.
- Writing.Writer.CreatePart: only for detached writers, as its documentation says; the lock is modelled as atomic registration steps, without threads.
- Assembly.DetachedIsSequential: entries registered with an explicit offset are charged a descriptor whether or not they have one, so the statement is about parts from `CreateFileParts` and `CreateRawFileParts`.
- Opening.SetPassword: the entries of a reader are values; that several holders share and see the changed entries is not modelled.
- FilteredContents.FilterKeepsContent: for entries whose announced compressed size is below 2^63, as positions are everywhere.
- FilterTheorems.FiltersCompose: predicates look at the regenerated header, not at offsets or at the reader's own state; the two coincidences in which a record behind padding can be read again are not covered.
- `Create`, `CreateFilePartSimple` and the argument checks of `createHeader`, `Mode`, `FileInfo`, DOS times, `DataOffset`, `Flush`: one-branch or bounded facts.
- Opening files, buffer sizes, read-ahead, preallocation bounds: input and output only.
- Archive comments when writing, multi-disk archives, and the branch of the end-record reader for comments that are too long, which the search already excludes.
- Any claim about the strength of the ciphers.
