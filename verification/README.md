# Verification of Barry's data handling

Barry talks to BlackBerry handhelds. This project models the parts of it that are not I/O, and proves
what they keep, restore or lose, for every input and every run:

- **Record transfer.** A pull pipeline (`DBLoader`, `DeviceBuilder`, `Pipe`) reads whole databases from
  a device and hands each record to `DeviceParser`, which writes it to another device under one of the
  write modes, against a snapshot of the record state table. The device is a map from index to id, type
  and payload per database; it does what the bytes of an upload say, may refuse any write, and its
  answers to a bulk read are any packets. A transfer succeeds exactly if all can be read and nothing is
  refused. The outcome, also of one that stops, is stated per write mode on maps from id to record.
- **The `Data` buffer.** The class keeps its memory block, its prepend space and its copy-on-write
  external memory. It refines a byte string; separate theorems say exactly when bytes that were written
  past the data size survive the next request for room, which several callers rely on.
- **Records and packets built in such buffers.** Chunked content store records, moved records in upload
  packets, screenshots as bitmap files.
- **Text and container formats.** `.cod` files in the layout of APPNOTE.TXT sections 4.3.7, 4.3.12 and
  4.3.16, base64 (section 5.2 of RFC 1341), LDIF (RFC 2849), the configuration files, hexadecimal
  dumps. Each is a writer and a reader. Where the round trip fails for some input, it is stated as an
  equivalence whose right-hand side a caller can check beforehand.
- **The PPP filter** that repairs missing flags (section 3.1 of RFC 1662), as a transducer.
- **The thread queue**, as a state machine over critical sections, with both locks of `append_from`.

Classes and loops of the C++ code are classes and loops here. A method's contract ties its new state to
a specification function; the lemmas then say what the function means.

## Results a caller may not expect

- A content store record is built while the size of its buffer is zero. If the buffer has to grow after
  the first field, the fields written before are lost and the record does not come back
  (`SurvivesExactly`); for a default buffer that happens beyond 0x3f00 bytes (`FreshBufferBound`).
- `ReleaseBuffer(-1)` leaves out the last byte that was written (`ReleaseToLastByte`).
- `base64_decode` folds its output like the encoder, so values of more than 72 bytes do not come back
  from LDIF when they are encoded (`RoundTrip`, `ValueSurvives`), and it reports failure for every input
  whose length is a multiple of three. The byte 0xFF counts as the value zero.
- A contact whose distinguished name needs encoding is not found by the reader (`ContactFound`).
- List entries of a configuration lose everything from a NUL on, and an entry that begins with a list's
  keyword starts that list instead (`SavedLoads`). Keys with white space in them are not found again.
- Keys of two applications can be the same if their names have hyphens (`KeysMeet`).
- A dump with its column of characters can read back with additional bytes (`LetterIsReadAsNumber`).
- An overwritten record keeps its type and id: the packet has no place for them
  (`OverwriteReplacesExactly`). A database the stream has no record for is not cleared by
  ERASE_ALL_WRITE_ALL.
- `append_from` can deadlock for ever, exactly if queues are appended in a cycle, also of one or two
  (`DeadlockExactly`, `StuckForEver`).
- A `.cod` file with an empty module loads only the modules in front of it (`SaveThenLoad`).

## Model

| member | source | states |
|---|---|---|
| `DataBuffer.Data.constructor` | src/data.cc:81-91 | a new buffer is empty, zeroed, and has the prepend space asked for in memory of its own |
| `DataBuffer.Data.External` | src/data.cc:93-102 | a buffer over read-only memory shows exactly that memory and owns no block yet |
| `DataBuffer.Data.Copy` | src/data.cc:104-116 | a copy has the same state in fresh memory; a copy of an external buffer shares only the read-only bytes |
| `DataBuffer.Data.MakeSpace` | src/data.cc:135-187 | the new state is the one of the value model, in the old block or a fresh one |
| `DataBuffer.Data.Relocate` | src/data.cc:158-186 | the data is moved as if read before it is written, also inside one block |
| `DataBuffer.Data.GetBuffer` | src/data.cc:269-278 | zero asks for the current size, anything else for that many bytes |
| `DataBuffer.Data.ReleaseBuffer` | src/data.cc:290-300 | succeeds exactly for sizes within an own block, and changes nothing otherwise |
| `DataBuffer.Data.ReleaseToLastByte` | src/data.cc:302-307 | the size -1: the data then ends in front of the last byte that is not zero, so that byte is not part of it |
| `DataBuffer.Data.Zap` | src/data.cc:325-330 | zeroes an own block, leaves external memory alone, drops the data |
| `DataBuffer.Data.Assign` | src/data.cc:332-355 | assigns content and endpoint; assigning to itself changes nothing; the source stays as it was |
| `DataBuffer.Data.MemCpy` | src/data.cc:357-366 | the new state of the value model and the advanced offset |
| `DataBuffer.Data.Append` | src/data.cc:368-372 | the content grows by exactly the bytes given, at its end |
| `DataBuffer.Data.Prepend` | src/data.cc:374-380 | the content grows by exactly the bytes given, in front |
| `DataBuffer.Data.Prechop` | src/data.cc:385-401 | the new state of the value model: the front is dropped without moving anything |
| `DataBuffer.MutateACopy` | src/data.cc:104-116 | whatever list of operations is done to a copy, assigning its source to it among them, the source and all assigned objects keep their whole state and the copy has the bytes that the list means |
| `BufferModel.MakeSpaceFits` | src/data.cc:123-187 | MakeSpace loses no byte of data, gives the wanted room behind and in front of it, and leaves an own block behind |
| `BufferRefinement.MemCpyContent` | src/data.cc:357-366 | byte by byte: MemCpy at any offset writes its range and keeps everything else |
| `BufferRefinement.MemCpyRefines` | src/data.cc:357-366 | MemCpy inside the data is an overwrite of the byte string |
| `BufferRefinement.AppendRefines` | src/data.cc:368-372 | Append is concatenation |
| `BufferRefinement.PrependRefines` | src/data.cc:374-380 | Prepend is concatenation in front |
| `BufferRefinement.PrechopRefines` | src/data.cc:385-401 | Prechop drops bytes, at most all of them |
| `BufferRefinement.AssignRefines` | src/data.cc:332-355 | after an assignment both have the same content |
| `BufferRefinement.PrechopMakesRoom` | src/data.cc:385-401 | what is chopped off is room in front afterwards, and nothing is moved |
| `BufferRefinement.ZapClears` | src/data.cc:325-330 | after Zap every byte of an own block is zero, also whatever is then asked for and released; external memory is not touched |
| `BufferRefinement.MakeSpaceExactly` | src/data.cc:135-187 | when the data is moved, where to, and how large the block is then, in numbers; otherwise nothing changes |
| `BufferRefinement.RunRefines` | src/data.cc:104-401 | any sequence of operations from any state acts on the content as on a plain byte string, and the data stays inside its block |
| `BufferRefinement.SettledExactly` | src/data.cc:135-187 | exactly when a request for room changes nothing at all |
| `BufferRefinement.RequestSettles` | src/data.cc:135-187 | after one request, no request that is not larger moves or clears anything, also past the data size |
| `BufferRefinement.UnsettledLoses` | src/data.cc:152-186 | a request that does need a new block clears everything past the data size |
| `HexDump.DumpHexLine` | src/data.cc:226-260 | one line: address, sixteen places for numbers, and if wanted the characters |
| `HexDump.DumpHex` | src/data.cc:262-267 | all lines of a dump, sixteen bytes each |
| `HexDump.ReadNumbers` | src/data.cc:209-213 | the loop reads at most sixteen numbers and stops at the first thing that is none |
| `HexDump.InputHexLine` | src/data.cc:197-224 | a line without address changes nothing; otherwise its bytes are written at the address |
| `HexDump.NumberRead` | src/data.cc:226-245 | a printed number is read back as itself |
| `HexRoundTrip.LineParsed` | src/data.cc:197-260 | a printed line is read as its address, its bytes, and whatever its column of characters adds to them |
| `HexMeaning.Columns` | src/data.cc:226-260 | what is in every column of a line: eight digits of the address, two of each byte, blanks, and the characters from column 63 on |
| `HexMeaning.LinesAre16` | src/data.cc:262-267 | the k-th line is for the sixteen bytes from 16 k on, or those that are left |
| `HexMeaning.NumberIs` | src/data.cc:197-213 | which numbers are read, and as what: hexadecimal in either case, behind white space, a sign and 0x; what does not fit is refused |
| `HexMeaning.InputPuts` | src/data.cc:197-224 | the bytes of a line are put at its address, and all other data stays |
| `HexRoundTrip.DumpIsRead` | src/data.cc:197-267 | a dump read line by line into an empty buffer restores the data exactly if the last line is full, shows no characters, or shows some that do not begin with a hexadecimal number |
| `HexRoundTrip.LetterIsReadAsNumber` | src/data.cc:209-223 | an input for which it does not: one byte that is shown as the letter a |
| `FieldCodec.BuildField` | src/record.cc:165-206 | writes one field at the offset and nothing else; empty fields are skipped as the source skips them |
| `FieldCodec.BuiltExactlyWhenRoom` | src/record.cc:165-206 | fields built one by one into an emptied buffer, at any offset, come out as their layout exactly when there is room by a formula in the start and the length of the block, the first field and the total |
| `FieldCodec.GrowthLoses` | src/record.cc:165-206 | once the block is replaced, the bytes in front of the field then written are zero |
| `ContentStore.ContentStoreRecord.ParseField` | src/r_cstore.cc:64-123 | one field: size fields, contents in blocks, unknown fields, and fields that reach past the end |
| `ContentStore.ContentStoreRecord.ParseFields` | src/r_cstore.cc:130-135 | all fields of a record, in order, up to the first that does not fit |
| `ContentStore.ContentStoreRecord.BuildFields` | src/r_cstore.cc:145-197 | refuses exactly records without name or, for files, without content; otherwise writes name, flag or descriptor, size, blocks and unknowns |
| `ContentStore.ContentStoreRecord.BuildContent` | src/r_cstore.cc:172-188 | content of any length goes out in blocks of at most 0xfffe bytes |
| `ContentStoreProofs.ParsedLayout` | src/r_cstore.cc:64-135 | the parser takes any laid out list of fields apart again |
| `ContentStoreProofs.RoundTrip` | src/r_cstore.cc:64-197 | a record comes back from its own layout exactly when it is restorable: its name does not end in a NUL, a folder has nothing but a name, and unknown fields have data and a type of their own |
| `ContentStoreMeaning.FolderBytes` | src/r_cstore.cc:145-197 | a folder, byte by byte |
| `ContentStoreMeaning.FileBytes` | src/r_cstore.cc:145-197 | a file, byte by byte |
| `ContentStoreMeaning.ChunksAre` | src/r_cstore.cc:172-188 | the k-th block is the 0xfffe bytes of the content from 0xfffe k on, or those that are left |
| `ContentStoreMeaning.ParsedMeaning` | src/r_cstore.cc:64-135 | any fields in any order: the last name, descriptor and folder flag count, and unknown fields are kept in order |
| `ContentStoreMeaning.ContentIsJoined` | src/r_cstore.cc:96-110 | the content is all that follows the size in fields of its kind, whatever is between them |
| `ContentStoreMeaning.CutIsParsed` | src/r_cstore.cc:64-77 | of a record that is cut off anywhere, the fields in front of the cut are read and the piece is not |
| `ContentStoreLoss.BuiltExactlyWhenRoomForRecord` | src/r_cstore.cc:145-197 | what BuildFields leaves in a buffer, any buffer, is that layout exactly when the same formula holds for the name and the whole record |
| `ContentStoreLoss.FreshBufferBound` | src/r_cstore.cc:145-197 | for a default buffer that is a total of at most 0x3f00 bytes, or of 0x300 more than a name field beyond that |
| `ContentStoreLoss.SurvivesExactly` | src/r_cstore.cc:64-197 | a record that is built into any buffer at any offset and parsed from there is the same if and only if it is restorable and there was room for it: where fields are lost, whatever the parser makes of the rest cannot be the record |
| `ContentStoreLoss.LargeFileIsDamaged` | src/r_cstore.cc:64-197 | a file of 0x4000 bytes, whatever they are, does not come back from a default buffer |
| `PppFilter.PppFilter.Filter` | src/pppfilter.cc:46-76 | the nested loops write exactly the transducer output behind the destination offset, without leaving the buffer asked for once |
| `PppFilter.PppFilter.Write` | src/pppfilter.cc:86-107 | passes data through until a write begins with 0x7e, and filters from then on |
| `PppFilter.PppFilter.WriteWithPrepend` | src/pppfilter.cc:116-137 | the same into the write buffer, behind the prepend space |
| `PppFilter.Session` | src/pppfilter.cc:33-137 | any writes through a new filter: up to the first that begins with 0x7e they pass, and from then on all outputs together are the framed repair of all inputs together |
| `PppTransducer.AnyChunking` | src/pppfilter.cc:46-76 | however a stream is cut into writes, the total output is that of the whole stream |
| `PppTransducer.InsertionsAreRare` | src/pppfilter.cc:49-73 | two inserted flags are at least two consumed bytes apart |
| `PppTransducer.WorstCase` | src/pppfilter.cc:49-50 | the output never exceeds the size computed in advance, from either state |
| `PppTransducer.AcceptedIsFramed` | src/pppfilter.cc:46-76 | the streams the filter leaves alone are those in which every frame has an opening and a closing flag of its own |
| `PppTransducer.OutputIsFramed` | src/pppfilter.cc:46-76 | every output of a new filter is framed |
| `PppTransducer.Idempotent` | src/pppfilter.cc:46-76 | a stream passes unchanged exactly if it is framed; filtering twice is filtering once |
| `PppTransducer.OnlyFlagsAdded` | src/pppfilter.cc:46-76 | nothing but flags is inserted, nothing is removed or moved |
| `PppTransducer.FewestFlags` | src/pppfilter.cc:46-76 | no other repair by inserting flags is shorter |
| `RecordState.RecordStateTable.ParseField` | src/r_recordstate.cc:46-65 | one table entry of twelve bytes, unless it reaches past the end |
| `RecordState.RecordStateTable.Parse` | src/r_recordstate.cc:67-79 | all whole entries behind the header; later entries of the same index win |
| `RecordState.RecordStateTable.GetIndex` | src/r_recordstate.cc:90-101 | finds an id exactly if some entry has it, and then the least such index |
| `RecordState.RecordStateTable.MakeNewRecordId` | src/r_recordstate.cc:105-122 | terminates although it starts over at each collision, with the next 32 bit id after the last one that no entry uses, wrapping past zero |
| `RecordStateProofs.TableRoundTrip` | src/r_recordstate.cc:46-79 | whatever table the device sends is the table the parser holds |
| `RecordStateProofs.PacketRoundTrip` | src/r_recordstate.cc:67-79 | and so it is behind any twelve bytes of header |
| `RecordStateProofs.NewIdIsFree` | src/r_recordstate.cc:105-122 | no new id is in the table |
| `RecordStateProofs.NewIdsDistinctExactly` | src/r_recordstate.cc:105-122 | new ids repeat only after all 32 bit ids have been used up: distinct if and only if used and new ones fit together |
| `Desktop.Desktop.Execute` | src/m_desktop.cc:228-237 | the device obeys the bytes it is sent: it refuses exactly what it is not willing to do or has no place for, and then nothing changes |
| `Desktop.Desktop.AddRecord` | src/m_desktop.cc:212-238 | through the packet that is built: one record more, with the type, the id and the payload of the one given, at an index that was free, exactly unless the device is unwilling or its database full |
| `Desktop.Desktop.SetRecord` | src/m_desktop.cc:298-327 | through the packet that is built: the payload of the record given for an index, exactly if there is such an index and the device is willing; type and id stay |
| `Desktop.Desktop.ClearDatabase` | src/m_desktop.cc:404-427 | an empty database, exactly unless the device is unwilling or has none of that number |
| `Desktop.Desktop.GetRecordStateTable` | src/m_desktop.cc:186-202 | the table holds index and id of every record of the database |
| `DeviceBuilder.DBLoader.StartDBLoad` | src/m_desktop.cc:488-513 | the first record in the answer of the device, past other packets, or its end, or an exception |
| `DeviceBuilder.DBLoader.GetNextRecord` | src/m_desktop.cc:515-535 | the next record; nothing any more once the end was received |
| `Sending.SentIsRead` | src/packet.cc:527-546 | of the packets a device makes of its records, byte by byte, with any others between them, exactly those records are read, each with its type, its id and its bytes |
| `Sending.CutIsRead` | src/protocol.cc:36-52 | a packet that was cut off anywhere is noticed, and the records in front of it are read |
| `DeviceBuilder.DeviceBuilder.Add` | src/m_desktop.cc:557-568 | adds a database exactly if the device lists it |
| `DeviceBuilder.DeviceBuilder.FetchRecord` | src/m_desktop.cc:607-641 | takes the first of the remaining records and no other, counts each end once, and makes progress in a lexicographic measure |
| `Pipe.Pipe.PumpEntry` | src/pipe.cc:35-44 | fetches one record and hands it on; records parsed and still to come stay the same together; an exception has a cause, silence or malformed data at the end of what can be read, or a refusal of the target |
| `Pipe.Pipe.PumpSeries` | src/pipe.cc:48-52 | one database to its end, or an exception for one of these causes, with the records in front of it parsed |
| `Pipe.Pipe.PumpFile` | src/pipe.cc:56-61 | terminates, and succeeds if and only if everything can be read and the target refuses nothing; then every record of every added database is parsed once, in order, under its own database name, and every end is received once; otherwise exactly the records in front of the failure are |
| `DeviceParser.DeviceParser.WriteNext` | src/m_desktop.cc:704-759 | one record under each write mode, as the merge relation has it; a sound record fails only if the target refuses it, and then nothing has changed |
| `DeviceParser.DeviceParser.StartDB` | src/m_desktop.cc:663-702 | a new database name: unknown names are dropped, known ones cleared or their table read; fails only if the target refuses |
| `DeviceParser.DeviceParser.ParseRecord` | src/m_desktop.cc:761-769 | for sound records it succeeds if and only if the target refuses nothing; the target is always what a run of the merge relation over the records parsed so far has made of it, and after a failure at most the erasure for the failed record more |
| `MergeProofs.BlockStep` | src/m_desktop.cc:704-759 | inside one database, each record keeps the invariant that ties device, state table snapshot and records so far together |
| `MergeRuns.StreamMerges` | src/m_desktop.cc:663-769 | a stream that brings each database in one piece is merged database by database, and no other database changes |
| `MergeRuns.UnnamedUntouched` | src/m_desktop.cc:663-769 | in any order and repetition: a database no record names is never changed |
| `MergeRuns.NothingLost` | src/m_desktop.cc:663-769 | without erasing, no stream removes a record or changes its id or type; without overwriting, no payload either |
| `MergeViews.EraseAllMeaning` | src/m_desktop.cc:681-686 | ERASE_ALL_WRITE_ALL leaves the records of the stream and nothing else |
| `MergeViews.OverwriteMeaning` | src/m_desktop.cc:726-736 | INDIVIDUAL_OVERWRITE leaves the old records with the payloads of the stream, and its other records |
| `MergeViews.OverwriteReplacesExactly` | src/m_desktop.cc:726-736 | that is the old records replaced by the stream if and only if every record that is overwritten has the type of the one in the stream |
| `MergeViews.NoOverwriteMeaning` | src/m_desktop.cc:738-744 | ADD_BUT_NO_OVERWRITE leaves the stream overridden by the old records |
| `MergeViews.NewIdMeaning` | src/m_desktop.cc:746-750 | ADD_WITH_NEW_ID keeps every old record and adds one for each of the stream, all ids distinct as long as free ids last |
| `Transfer.ReadsExactly` | src/m_desktop.cc:488-535 | a database is read in full exactly when its end comes before a silence or a malformed packet |
| `Transfer.TransferMerges` | src/pipe.cc:56-61 | what a pumped transfer leaves on the target is the merge of each source database into the one of the same name |
| `Transfer.SentIsTransferred` | src/m_desktop.cc:488-535 | what is merged is what the sender has stored, database by database |
| `Transfer.CutStream` | src/pipe.cc:56-61 | a stream of databases that is cut off anywhere is the stream of the first of them, the last one in part |
| `Transfer.PartMerges` | src/pipe.cc:56-61 | so what a transfer has parsed when it stops is merged database by database as well |
| `Transfer.StoppedKeeps` | src/m_desktop.cc:663-769 | a transfer that stops loses nothing of the target either, unless the mode erases |
| `Transfer.TransferDatabases` | src/pipe.cc:35-61 | the whole way from an empty builder to the end of the pump: success if and only if all can be read and nothing is refused, then the merge of every source database into the one of its name; otherwise the merge of the records in front of the failure |
| `RecordBuilder.BuildRecord` | src/builder.cc:42-67 | moves a record to any other offset with its bytes unchanged; fails exactly if it would have to move a record that begins past its data |
| `RecordBuilder.PayloadStays` | src/builder.cc:59-64 | asking for the buffer again before releasing it does not move what was written past the data size |
| `RecordBuilder.AddRecord` | src/packet.cc:424-453 | whatever the send buffer held before, the packet says to add exactly this record, and its header is given byte by byte |
| `RecordBuilder.SetRecordByIndex` | src/packet.cc:360-389 | the packet replaces the payload at an index and carries neither type nor id; its header is given byte by byte |
| `JavaLoader.CodFileBuilder.WriteNextHeader` | src/cod.cc:119-194 | a local header and a directory entry with the position of that header; nothing for a lone module |
| `JavaLoader.CodFileBuilder.WriteFooter` | src/cod.cc:196-218 | directory and end record; nothing for a lone module |
| `JavaLoader.SaveData` | src/m_javaloader.cc:838-885 | the chunks of one module put together behind its header |
| `JavaLoader.Reassemble` | src/m_javaloader.cc:855-881 | chunks copied into a growing buffer give their concatenation |
| `JavaLoader.Save` | src/m_javaloader.cc:887-944 | the whole file for all sibling modules |
| `JavaLoader.SeekNextCod` | src/cod.cc:45-105 | size and begin of the next module, the end of the modules, or a malformed file |
| `JavaLoader.SendStream` | src/m_javaloader.cc:453-491 | the size, then consecutive chunks; stops where the file ends too early |
| `JavaLoader.LoadApp` | src/m_javaloader.cc:493-499 | terminates for files below 4 GiB with the session of the value model |
| `CodFormat.LocalFields` | src/cod.cc:153-170 | every field of a local header is read back at its place, the checksum and both sizes among them |
| `CodFormat.EntryFields` | src/cod.cc:178-190 | and every field of a directory entry |
| `CodFormat.EndFields` | src/cod.cc:196-218 | the fields of the end record are read back; counts keep 16 bits |
| `CodRoundTrip.InstalledAll` | src/m_javaloader.cc:453-499 | a device that obeys the commands for a list of modules holds exactly those modules |
| `CodRoundTrip.ChunksFitPacket` | src/m_javaloader.cc:455-490 | no chunk is empty or longer than 0x7f8 bytes |
| `CodRoundTrip.LoadBody` | src/cod.cc:45-105 | the modules of a packed file are sent in order, up to the first empty one or to whatever follows them |
| `CodRoundTrip.LoneLoads` | src/cod.cc:81-98 | a lone module arrives if and only if it has four bytes and the signature |
| `CodRoundTrip.SaveThenLoad` | src/m_javaloader.cc:493-944 | loading a saved file installs what was saved, if and only if no module is empty and a lone one has its signature |
| `CodDirectory.UnzipSaved` | src/cod.cc:119-218 | a PKZIP reader that checks the checksum and the sizes of each module in its header and in the directory finds exactly the modules, under their names, if and only if there are fewer than 2^16 |
| `CodDirectory.NamesDistinct` | src/cod.cc:138-143 | no two modules get the same file name |
| `CodMeaning.FileNameIs` | src/cod.cc:137-142 | the first module has the plain name, the others their decimal number behind a hyphen |
| `CodMeaning.ChunksAre` | src/m_javaloader.cc:455-490 | the k-th chunk is the 0x7f8 bytes from 0x7f8 k on, or those that are left |
| `CodMeaning.OddIsRefused` | src/cod.cc:99-104 | a file with no known signature is refused before anything is sent |
| `CodMeaning.CutFileFails` | src/m_javaloader.cc:453-499 | a saved file that was cut inside a module fails after all modules in front of the cut were sent, and at most a part of that one |
| `CodMeaning.AnyFileLoads` | src/cod.cc:45-105 | packed files of any other writer are loaded as well, with whatever names, extra fields and other header fields |
| `Base64.Output.Put` | src/base64.cc:63-73 | output is folded after every 72 bytes that are followed by more |
| `Base64.Codec.FillEncode` | src/base64.cc:81-91 | the first 64 places of the shared table become the alphabet, whatever was there |
| `Base64.Codec.FillDecode` | src/base64.cc:152-167 | every place becomes the value of its character, whatever was there; the last place is never written |
| `Base64.Codec.EncodeStream` | src/base64.cc:77-128 | the loop puts out the groups of the input, padded at its end |
| `Base64.Insig` | src/base64.cc:132-144 | the next character above the space, if there is one |
| `Base64.Codec.DecodeStream` | src/base64.cc:148-201 | the loop puts out what the groups stand for, and stops where and as the source does |
| `Base64.Base64Encode` | src/base64.cc:204-210 | the encoding depends on the input only, not on earlier calls |
| `Base64.Base64Decode` | src/base64.cc:212-218 | so do decoding and its result |
| `Base64.RoundTrip` | src/base64.cc:204-218 | decoding an encoding gives the input folded at 72 bytes, so the input itself exactly up to that length, and reports success exactly if the length is no multiple of three |
| `Base64.FoldingIsSkipped` | src/base64.cc:132-144 | folding an encoded text does not change what it decodes to |
| `LdifMeaning.ThreeBytes` | src/base64.cc:77-128 | three bytes are four letters of the alphabet of RFC 1341: the same number in base 256 and in base 64 |
| `LdifMeaning.LastBytes` | src/base64.cc:77-128 | one or two bytes at the end are filled up with zero bits and padding |
| `LdifMeaning.GroupAt` | src/base64.cc:77-128 | the k-th group is for the three bytes from 3 k on, or those that are left |
| `LdifMeaning.FoldedAt` | src/base64.cc:49-75 | where every character of a folded text is, and how long it is |
| `LdifMeaning.FoldedBreak` | src/base64.cc:49-75 | the two characters in front of every line but the first are a line end and a blank |
| `Base64.AcceptedCharacters` | src/base64.cc:152-188 | the decoder accepts the alphabet, the padding and, as its table is not set there, the byte 0xFF |
| `Ldif.CheckEncoding` | src/ldif.cc:837-860 | true exactly for values that are no SAFE-STRING of RFC 2849 |
| `LdifMeaning.EncodedExactly` | src/ldif.cc:809-860 | a value is printed plainly if and only if it is a SAFE-STRING by the grammar of RFC 2849 |
| `Ldif.MakeLdifData` | src/ldif.cc:809-826 | a value as it is, or in base64 behind a second colon |
| `Ldif.DumpLdif` | src/ldif.cc:659-699 | nothing without a first or last name; otherwise one line per field with a value, with its object class, and an empty line at the end |
| `Ldif.ContactLdif.SplitLine` | src/ldif.cc:748-756 | attribute and value around the first colon, without the blanks and colons behind it |
| `Ldif.ContactLdif.ReadLdif` | src/ldif.cc:701-778 | the line loop with its pending base64 field writes what the line by line meaning writes, and leaves the stream behind the record |
| `LdifRoundTrip.CodedField` | src/ldif.cc:726-745 | a folded base64 value is collected whole, however many lines it has |
| `LdifRoundTrip.ReadContact` | src/ldif.cc:659-778 | a printed contact is read back field by field, whatever follows it in the file |
| `LdifRoundTrip.ContactFound` | src/ldif.cc:659-719 | a contact is found again exactly if it has a first or last name and the name it is printed under is not empty and needs no encoding |
| `LdifRoundTrip.ReadPrinted` | src/ldif.cc:659-778 | a file of contacts is read back contact by contact, without those that have no name |
| `LdifReading.AnyLayout` | src/ldif.cc:701-778 | a record in any layout, with any blanks behind the colons, coded values broken into lines anywhere, and lines that are no attributes: every attribute is written in order |
| `LdifRoundTrip.ValueSurvives` | src/ldif.cc:809-860 | a value survives exactly if it is printed plainly or has at most 72 bytes |
| `LdifOrder.SameExactlyByName` | src/ldif.cc:97-115 | two attributes count as one exactly if they have the same name |
| `LdifOrder.InOrderExactly` | src/ldif.cc:97-115 | a list of attributes whose neighbours are in order is in order throughout if and only if no name comes twice; dn can only be at its head |
| `LdifOrder.OrderDetermined` | src/ldif.cc:97-115 | attributes have only one such list, so the printed order does not depend on how they were added |
| `LdifOrder.TransitiveExactly` | src/ldif.cc:109-110 | the order is transitive except between attributes of the same name |
| `LdifMeaning.BeforeExactly` | src/ldif.cc:109-110 | names are ordered by their first different byte, or the shorter one first |
| `LdifOrder.Reordered` | src/ldif.cc:109-110 | an attribute given another order lies on both sides of a third one |
| `ConfigFile.DeviceConfig.Load` | src/configfile.cc:118-181 | the line loop gives the line by line meaning of the file; only the path survives from before |
| `ConfigFile.DeviceConfig.LoadLine` | src/configfile.cc:134-177 | one line: a list begins, an entry is added to the current list, or a setting ends the list |
| `ConfigFile.DeviceConfig.Save` | src/configfile.cc:184-223 | refuses exactly if the path cannot be used; otherwise lists, name, path and flags |
| `TextLines.LinesAre` | src/configfile.cc:133-134 | getline delivers the text, cut at its newlines, whether or not it ends with one |
| `ConfigMeaning.WordsOf` | src/configfile.cc:135-137 | the keyword is the first word of a line, its argument all from the second word on |
| `ConfigMeaning.FlagIs` | src/configfile.cc:167-176 | a flag is set exactly by a number other than zero |
| `ConfigMeaning.ListsAre` | src/configfile.cc:134-150 | for any file: a list is what is indented under its keyword, and any other line ends it |
| `ConfigMeaning.SettingsAre` | src/configfile.cc:151-177 | for any file: each setting has what the last line for it says that is no entry of a list |
| `ConfigRoundTrip.LoadedIsClean` | src/configfile.cc:118-181 | from any file at all: no loaded entry has a newline or NUL, no loaded name or path begins with white space, except the single space of an ignored name |
| `ConfigRoundTrip.RunCount` | src/configfile.cc:140-147 | no line adds more than one entry, and lines whose first word begins a list add none |
| `ConfigRoundTrip.SavedLoads` | src/configfile.cc:118-223 | a configuration is the same after saving and loading if and only if no entry has a newline, a NUL or a list keyword as first word, and name and path have no newline and begin with something visible |
| `GlobalConfig.GlobalConfigFile.Load` | src/configfile.cc:345-384 | the line loop gives the line by line meaning; keys and flag from before stay |
| `GlobalConfig.GlobalConfigFile.Save` | src/configfile.cc:387-415 | refuses exactly if the path cannot be used; otherwise device, flag and every key once |
| `GlobalConfig.GlobalConfigFile.SetKey` | src/configfile.cc:417-427 | refuses without application name and for values with line ends; otherwise sets one key and no other |
| `GlobalConfig.GlobalConfigFile.GetKey` | src/configfile.cc:429-440 | the value of the full key or the default |
| `ConfigMeaning.SharedIs` | src/configfile.cc:345-384 | for any file: the keys are the keywords that begin with X and a hyphen, each with the argument of its last line |
| `ConfigMeaning.KeysApart` | src/configfile.cc:417-440 | the keys of one application do not collide, nor those of applications without hyphens in their names |
| `ConfigMeaning.KeysMeet` | src/configfile.cc:417-440 | with hyphens they can |
| `ConfigMeaning.SetIsFound` | src/configfile.cc:345-440 | what an application sets is found after saving and loading, and all other keys are as they were |
| `GlobalConfig.LoadedIsGood` | src/configfile.cc:345-384 | from any file at all: keys without white space, values that do not begin with any |
| `GlobalConfig.SavedLoads` | src/configfile.cc:345-415 | the shared configuration is the same after saving and loading, in whatever order its keys are written, if and only if no key has white space and no value a newline or white space in front |
| `DataQueue.DataQueue.AppendFrom` | src/dataqueue.cc:177-189 | the loop moves everything over in order and leaves the other queue empty |
| `DataQueue.DataQueue.RawPop` | src/dataqueue.cc:65-73 | the first item, or none exactly if the queue is empty |
| `QueueThreads.StepInv` | src/dataqueue.cc:84-189 | every step of every thread keeps the order of each queue, the locks and what is on its way between two queues |
| `QueueThreads.AlwaysFifo` | src/dataqueue.cc:84-189 | over all interleavings: what left a queue followed by what is in it is what entered it, in order |
| `QueueThreads.OldestIsReturned` | src/dataqueue.cc:65-161 | over all interleavings: whoever gets an item gets the oldest one that has entered the queue and not been taken, and whoever gets none has come when everything that ever entered was taken |
| `QueueCalls.CallEnds` | src/dataqueue.cc:104-161 | a call is over exactly when it returns something; otherwise it waits on for the same queue; one that waits for ever does not return without an item |
| `QueueCalls.CallsReturnOnce` | src/dataqueue.cc:104-161 | over any run each call of pop and wait_pop returns once, unless it is still waiting |
| `QueueCalls.PoppedIsReturned` | src/dataqueue.cc:65-161 | over any run the items popped are the items returned, each to one call |
| `QueueCalls.CallsBegin` | src/dataqueue.cc:84-189 | in every reachable state an idle thread can push, pop, wait and append exactly if no thread is inside append_from with that queue |
| `QueueThreads.AppendIsAtomic` | src/dataqueue.cc:177-189 | while one thread appends, nobody else changes either queue; at its end the one holds all of both in order and the other nothing |
| `QueueThreads.NothingLost` | src/dataqueue.cc:84-189 | what was pushed was popped or is in exactly one queue, also in the middle of append_from |
| `QueueLocks.DeadlockExactly` | src/dataqueue.cc:177-189 | for the pairs of queues that a program appends, and any number of threads: some run ends in a state in which no thread inside append_from can go on, if and only if the pairs have a cycle of at most as many queues as there are threads |
| `QueueLocks.StuckHasShortCycle` | src/dataqueue.cc:177-189 | such a state shows the cycle |
| `QueueLocks.CycleDeadlocks` | src/dataqueue.cc:177-189 | and each cycle gives a run that leads there |
| `QueueLocks.StuckForEver` | src/dataqueue.cc:177-189 | whatever the other threads do afterwards, none of these ever leaves append_from |
| `Bitmap.FindUnit` | src/bmp.cc:100-107 | terminates, and accepts exactly two or four bytes for a pixel |
| `Bitmap.ReadPixel` | src/bmp.cc:122-162 | the index computed for an inverted image is the pixel of the mirrored row |
| `Bitmap.DrawRow` | src/bmp.cc:118-166 | one row of the image behind the rows before it, everything else untouched |
| `Bitmap.ScreenshotToRGB` | src/bmp.cc:70-170 | accepts exactly fitting sizes and depths; then the image stands behind the offset, and the bytes in front of it are what the buffer held there |
| `BitmapFile.ImageAt` | src/bmp.cc:115-166 | where each pixel of the image is, and which pixel of the screenshot it shows |
| `BitmapFile.ShortPixel` | src/bmp.cc:127-143 | a 16 bit pixel is blue in five bits, green in six and red in five, each scaled to 255, and opaque or with the alpha value asked for |
| `BitmapFile.LongPixel` | src/bmp.cc:144-162 | a 32 bit pixel keeps its colours; its alpha value is kept, replaced or dropped |
| `BitmapFile.Involution` | src/bmp.cc:115-166 | 32 bit images that keep their alpha are copied, and inverting them twice gives them back |
| `BitmapFile.ColoursStayApart` | src/bmp.cc:131-144 | scaling up to 8 bits merges no two of the 16 bit colours |
| `BitmapFile.HeadersStay` | src/bmp.cc:200-262 | headers written before the second request for the buffer survive it |
| `BitmapFile.ScreenshotToBitmap` | src/bmp.cc:184-263 | the file is headers and inverted image, for exactly the sizes that are accepted |
| `BitmapFile.ShownUpright` | src/bmp.cc:184-263 | a viewer that checks every field of the headers shows every pixel where it was on the screen, in its colours |

## Left out

- USB, sockets, controller, probe, modem and the debugger protocol: I/O against code outside these files, with fragmentation and routing.
- Exceptions are results: where the C++ code throws, the method returns false or a value for it, and the object is afterwards only claimed to be what the contract says.
- Desktop.Desktop.Execute: whether the device is willing to do its k-th write is any fixed answer. The answer packets themselves, and reconnecting after an error, are not modelled. The device behind the Java loader acknowledges everything.
- Desktop.Desktop.AddRecord: which of the free indices a new record gets is the device's choice.
- DECIDE_BY_CALLBACK: the callback is asked more than once for a record, and the table may not have been read when its first answer was to drop.
- DeviceBuilder::BuildRecord, and Add for a whole database list: the former advances its offset twice.
- DeviceBuilder.DeviceBuilder.Add: `m_current` is an index here and an iterator in C++, which adding after the first fetch may invalidate; that is excluded.
- Records with an empty database name, which the parser takes for the database it dropped last.
- Dirty flags of the record state table, and everything of a record that is not index, id, type or payload.
- DataBuffer.Data.Copy: a block of a copied external buffer is uninitialised in C++ and zero here; nothing ever reads it.
- DataBuffer.Data.ReleaseBuffer: the size -1 is a method of its own, `ReleaseToLastByte`, which excludes an own block without a byte behind its start: there the size wraps in C++.
- RecordBuilder.AddRecord: a record that already has the right offset but begins past its data is excluded; the C++ code then writes a header past the data.
- RecordBuilder.SetRecordByIndex: the same.
- ContentStore.ContentStoreRecord.ParseField: a size field shorter than eight bytes reads on into what follows it in memory, here zero past the end of the record.
- ContentStoreLoss.SurvivesExactly: supposes that the block left by the name has room for the descriptor and the size, or the folder flag. Otherwise only the bytes are known to differ from the layout (`BuiltExactlyWhenRoomForRecord`).
- JavaLoader.LoadApp: files of 4 GiB and more are excluded, because the size of a lone module is cut to 32 bits and a cut size can make the loop start over for ever.
- The structures are written and read in the byte order of a little endian host, in which the unconverted name length and directory offset are right.
- Sizes are unbounded: no `size_t` overflows. Memory is always available.
- The checksum is an uninterpreted function of the module.
- White space, digits and printable characters are those of the C locale. A number that cannot be read sets its variable to zero, as since C++11; a variable that is never set holds an arbitrary value, the same for one object.
- ConfigFile: file system checks are an arbitrary predicate on paths that does not change between saving and loading; the default path is any path that can itself be saved. Write errors are not modelled. Enlighten and the setters are left out.
- GlobalConfig.GlobalConfigFile.Save: keys are written in an arbitrary order, of which the order of the C++ map is one.
- Ldif: contacts are lists of attributes with their values; the table of getters and setters and the address labels are left out. An attribute that needs no encoding but begins with a space, or holds a colon or newline, is outside the round trip.
- Ldif.ContactLdif.ReadLdif: what is written to the contact is a list of attributes with their values; the heuristics that afterwards make up names from them are left out.
- Ldif.DumpLdif: the value of `dn` is given, and printed first; an attribute with several values is several fields.
- HexDump: reading an address of more than 64 bits, or a number of more than 32, fails as it does in the library.
- DataQueue: timeouts and signals are not modelled, a wake-up may come at any time; that a waiting thread is ever woken is not claimed.
- Bitmap.ScreenshotToRGB: images of more than 2^31 pixels overflow an index in C++ and are excluded, as are screenshots without pixels but with data, for which the search for the pixel size does not end.
- BitmapFile.ScreenshotToBitmap: images whose size in bytes overflows an `int` are excluded.
- AddJDW appenders, other record classes, ALX files, character set conversion, translations, time and pin formatting, stream output for people.
