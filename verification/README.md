# simplerest: records upload, store and snapshot, in Dafny

simplerest is a small REST service that keeps *records* (a primary key, a
name, a description and an update timestamp) in an in-memory store. A CSV
file posted to the `upload` route is parsed into records and saved, skipping
keys that are already present. `get` and `delete` look a record up by its
primary key. When the server stops, the store is written to `storage.db` with
Java serialisation; when it starts, the store is read back from there.

This project models the core of that service:

- `java_text.dfy` (module `JavaText`) holds the pieces of `java.lang.String`
  and `java.lang.Long` the parser relies on:
  - `trim`;
  - `split(",")`, which drops trailing empty fields;
  - `replace(",", ", ")`;
  - `Long.parseLong` and the decimal rendering of integers.
- `records.dfy` (module `Records`) holds:
  - the record and `RecordFactory.createRecord`;
  - `toString`;
  - the byte layout that `writeObject`/`readObject` give a record: three
    `writeUTF` strings, then a `writeLong`;
  - classes for the output stream (the bytes written so far) and the input
    stream (its bytes and read position).
- `records_uploader.dfy` (module `RecordsUploader`) holds the upload parser:
  - the header check (`validateHeaderLine`, `checkHeaderField`);
  - the per-line reader (`readInNextRecord`);
  - the reading loop of `tryRetrieveRecords`, as a method proved equal to a
    recursive specification.
  - Lemmas state what files are accepted, what records they give, and which
    message each kind of bad file produces.
- `storage_factory.dfy` (module `StorageFactory`) holds:
  - `SimpleStorage`, a class over a key-to-record map (`save`,
    `findByPrimaryKey`, `delete`, `getAllRecords`);
  - `loadStorage` and `closeStorage` over the bytes of the snapshot file;
  - the round trip: loading what was closed gives back the same map.
- `front_controller.dfy` (module `FrontController`) holds what the `upload`,
  `delete` and `get` routes do with the store.

A file arrives as its sequence of lines: `BufferedReader.readLine` is not
modelled. The snapshot file is a byte sequence, or `None` when it cannot be
opened. Java's `null` appears only where the code tests for it, as `Option`.
Exceptions are `Result`/`Outcome` values carrying the exception's message.

## Model

| member | source | states |
|---|---|---|
| JavaText.Trim | src/main/java/com/markocki/converter/RecordsUploader.java:65-68 | the result has no white space (chars up to U+0020) at either end, and is empty exactly when the input is all white space |
| JavaText.TrimIsSlice | src/main/java/com/markocki/converter/RecordsUploader.java:65-68 | `trim` returns a slice of its input: exactly the white space before that slice and after it is removed |
| JavaText.BlankIffTrimsToEmpty | src/main/java/com/markocki/converter/RecordsUploader.java:24 | `"".equals(s.trim())` holds exactly when every char of `s` is white space |
| JavaText.TrimIdempotent | src/main/java/com/markocki/converter/RecordsUploader.java:65-68 | trimming an already trimmed field changes nothing |
| JavaText.SplitAll | src/main/java/com/markocki/converter/RecordsUploader.java:52 | splitting at every comma gives one field more than there are commas |
| JavaText.SplitAllNoComma | src/main/java/com/markocki/converter/RecordsUploader.java:52 | no field of the split at every comma holds a comma |
| JavaText.JoinSplitAll | src/main/java/com/markocki/converter/RecordsUploader.java:52 | joining the fields split at every comma with commas gives back the line |
| JavaText.SplitAllJoin | src/main/java/com/markocki/converter/RecordsUploader.java:95 | splitting comma-free fields joined with commas gives back those fields |
| JavaText.DropTrailingEmpty | src/main/java/com/markocki/converter/RecordsUploader.java:95 | the fields kept are a prefix of the fields; the last kept field is non-empty and every dropped field is empty |
| JavaText.JavaSplitMeaning | src/main/java/com/markocki/converter/RecordsUploader.java:95 | `JavaSplit`, i.e. `split(",")`: no field holds a comma, and a string without a comma is its own single field |
| JavaText.JavaSplitWithComma | src/main/java/com/markocki/converter/RecordsUploader.java:95 | `JavaSplit` of a string with a comma: the result is empty or ends in a non-empty field, it has at most one field more than commas, and padding it with the dropped empty fields joins back to the string |
| JavaText.ReplaceComma | src/main/java/com/markocki/converter/RecordsUploader.java:52 | `replace(",", ", ")` keeps the number of commas |
| JavaText.SplitAllOfReplaceComma | src/main/java/com/markocki/converter/RecordsUploader.java:52 | after `replace(",", ", ")` the split at every comma keeps the first field and gives every later field one leading blank |
| JavaText.SplitOfReplaceComma | src/main/java/com/markocki/converter/RecordsUploader.java:52 | `line.replace(",", ", ").split(",")` always yields one field per comma plus one, and each trims to the same string as the plain field at that position |
| JavaText.ParseLong | src/main/java/com/markocki/converter/RecordsUploader.java:77 | an accepted string is an optional sign followed by ASCII digits only, and a value read after `-` is not positive |
| JavaText.ParseLongToString | src/main/java/com/markocki/converter/RecordsUploader.java:77 | `Long.parseLong` reads back `LongToString` (`Long.toString`), the decimal rendering, of every `long` |
| JavaText.NatToStringDigits | src/main/java/com/markocki/converter/RecordsUploader.java:56-57 | the decimal rendering of a number is a non-empty digit string whose value is that number |
| Records.CreateRecord | src/main/java/com/markocki/model/RecordFactory.java:10-17 | fails, with the factory's message, exactly when the key is null or blank; otherwise the record holds the four arguments unchanged |
| Records.ToString | src/main/java/com/markocki/model/RecordFactory.java:27-30 | the text is `{primaryKey:`, the key, `, name:`, the name, `, description:`, the description, `, updatedTimestamp:`, the decimal timestamp and `}`, each at the position the lengths before it give |
| Records.ToStringTimestamp | src/main/java/com/markocki/model/RecordFactory.java:28-29 | the timestamp printed just before the closing brace reads back as the record's timestamp |
| Records.DecodeUtfOfEncode | src/main/java/com/markocki/model/RecordFactory.java:56-58 | `readUTF` returns what `writeUTF` wrote and leaves the following bytes to be read |
| Records.DecodeUtfCanonical | src/main/java/com/markocki/model/RecordFactory.java:63-65 | whatever `readUTF` accepts is exactly the `writeUTF` bytes of the string it returns |
| Records.DecodeLongOfEncode | src/main/java/com/markocki/model/RecordFactory.java:59 | `readLong` returns the `long` that `writeLong` wrote, negative values included |
| Records.DecodeLongCanonical | src/main/java/com/markocki/model/RecordFactory.java:66 | the eight bytes `readLong` consumes are exactly `writeLong` of the value it returns |
| Records.EncodeRecord | src/main/java/com/markocki/model/RecordFactory.java:55-60 | a record is written as 14 bytes of framing plus its three strings' payloads |
| Records.DecodeEncodeRecord | src/main/java/com/markocki/model/RecordFactory.java:55-67 | `readObject` restores the record `writeObject` wrote, whatever follows it |
| Records.DecodeRecordCanonical | src/main/java/com/markocki/model/RecordFactory.java:62-67 | bytes that `readObject` accepts are that record's `writeObject` bytes followed by the rest |
| Records.EncodingDeterministic | src/main/java/com/markocki/model/RecordFactory.java:55-60 | two record writes followed by anything are equal only for equal records and equal continuations |
| Records.NoProperPrefixDecodes | src/main/java/com/markocki/model/RecordFactory.java:62-67 | no proper prefix of a complete record's bytes reads as a record |
| Records.TruncatedRecordFails | src/main/java/com/markocki/model/RecordFactory.java:62-67 | a record cut short anywhere fails to read |
| Records.EncodeUtf | src/main/java/com/markocki/model/RecordFactory.java:56 | `writeUTF` writes a string as a 2-byte length followed by 3 bytes per char |
| Records.DecodeUtf | src/main/java/com/markocki/model/RecordFactory.java:63 | a successful `readUTF` consumes a non-empty part of the bytes and leaves the rest as it was |
| Records.EncodeLong | src/main/java/com/markocki/model/RecordFactory.java:59 | `writeLong` writes exactly eight bytes |
| Records.DecodeLong | src/main/java/com/markocki/model/RecordFactory.java:66 | a successful `readLong` consumes exactly eight bytes |
| Records.DecodeRecord | src/main/java/com/markocki/model/RecordFactory.java:62-67 | a successful `readObject` consumes a non-empty part of the bytes and leaves the rest |
| Records.ObjectOutput.WriteUtf | src/main/java/com/markocki/model/RecordFactory.java:56 | appends the string's encoding when it fits the 16-bit length; otherwise fails and writes nothing |
| Records.ObjectOutput.WriteLong | src/main/java/com/markocki/model/RecordFactory.java:59 | appends the eight bytes of the value |
| Records.ObjectInput.ReadUtf | src/main/java/com/markocki/model/RecordFactory.java:63 | returns the next string and advances past it, or fails as `DecodeUtf` says |
| Records.ObjectInput.ReadLong | src/main/java/com/markocki/model/RecordFactory.java:66 | returns the next `long` and advances eight bytes, or fails at end of data |
| Records.WriteRecord | src/main/java/com/markocki/model/RecordFactory.java:55-60 | succeeds exactly when all three strings fit, and then the stream grows by exactly the record's encoding; in every case the stream grows by exactly `ObjectBytes`, so on failure what was written before is kept and followed by the encodings of the fields before the first string that does not fit |
| Records.ReadRecord | src/main/java/com/markocki/model/RecordFactory.java:62-67 | returns the record the remaining bytes start with and consumes exactly it; fails with the first field that cannot be read |
| RecordsUploader.CheckHeaderField | src/main/java/com/markocki/converter/RecordsUploader.java:114-119 | passes exactly when the field equals the expected name, untrimmed; otherwise the message names the index, the expected and the actual value |
| RecordsUploader.ValidateHeaderLine | src/main/java/com/markocki/converter/RecordsUploader.java:91-112 | passes exactly when the split header equals the four names. A null or blank line fails with the empty-header message, a field count other than 4 with the count message, otherwise the first mismatching field in index order fails |
| RecordsUploader.HeaderAccepted | src/main/java/com/markocki/converter/RecordsUploader.java:95-108 | the header is accepted exactly when it is `PRIMARY_KEY,NAME,DESCRIPTION,UPDATED_TIMESTAMP` followed by zero or more commas |
| RecordsUploader.ReadInNextRecordMeaning | src/main/java/com/markocki/converter/RecordsUploader.java:48-89 | `ReadInNextRecord` (`readInNextRecord`), in terms of the line's commas: not exactly 3 commas fails with count commas+1; then a blank key fails; then a bad timestamp fails. A line is accepted exactly otherwise, giving the trimmed fields with an empty timestamp read as 0; the key is non-blank and trimmed; the record-creation error is never reached |
| RecordsUploader.TrailingEmptyFieldsKept | src/main/java/com/markocki/converter/RecordsUploader.java:51-52 | `ala,,,` gives a record with an empty name and description and timestamp 0 |
| RecordsUploader.TryRetrieveRecords | src/main/java/com/markocki/converter/RecordsUploader.java:13-46 | returns exactly `Parse(lines)`, the specification whose meaning the lemmas below state |
| RecordsUploader.ReadBody | src/main/java/com/markocki/converter/RecordsUploader.java:19-45 | the loop with `emptyLineRead` and `lineNumber` computes `ParseBody` from line 2 on, for any line reader |
| RecordsUploader.ParseBodyMeaning | src/main/java/com/markocki/converter/RecordsUploader.java:20-45 | `ParseBody`, the reading loop's outcome: the body is accepted exactly when it is non-blank lines that each give a record, then one or more blank lines and nothing else; the records are those lines', in order, one each |
| RecordsUploader.ParseMeaning | src/main/java/com/markocki/converter/RecordsUploader.java:13-46 | `Parse`, the outcome of `tryRetrieveRecords`: a file is accepted exactly when its header passes and its body has the shape above; record i comes from line i+2 read as line number i+2, duplicate keys kept |
| RecordsUploader.ParseHeaderFails | src/main/java/com/markocki/converter/RecordsUploader.java:16-17 | a missing or rejected header fails the upload with the header's own message |
| RecordsUploader.BlankTailSucceeds | src/main/java/com/markocki/converter/RecordsUploader.java:23-41 | `BlankTail`: after the first blank line the parse succeeds, adding no record, exactly when every further line is blank |
| RecordsUploader.BlankTailFails | src/main/java/com/markocki/converter/RecordsUploader.java:30-33 | a non-blank line after blank ones is reported against the line number of the blank line just before it |
| RecordsUploader.FirstBadLine | src/main/java/com/markocki/converter/RecordsUploader.java:27-28 | for any line reader, the first non-blank line that fails to read fails the loop with its own message |
| RecordsUploader.ParseFirstBadLine | src/main/java/com/markocki/converter/RecordsUploader.java:27-28 | the first body line that `readInNextRecord` rejects fails the upload with that line's message |
| RecordsUploader.TrailingContent | src/main/java/com/markocki/converter/RecordsUploader.java:30-33 | for any line reader, content after a blank line fails the loop with the trailing-content message |
| RecordsUploader.ParseTrailingContent | src/main/java/com/markocki/converter/RecordsUploader.java:30-33 | content after a blank line fails the upload, naming line number j for the non-blank line at index j |
| RecordsUploader.MissingTerminator | src/main/java/com/markocki/converter/RecordsUploader.java:39-45 | for any line reader, good lines without a blank line after them fail with the missing-terminator message |
| RecordsUploader.ParseMissingTerminator | src/main/java/com/markocki/converter/RecordsUploader.java:39-45 | a file of good lines not ending in a blank line fails with the missing-terminator message |
| StorageFactory.ListsEachOnce | src/main/java/com/markocki/storage/StorageFactory.java:45-51 | a key-distinct list that adds up to the store has one entry per stored key, each the record stored under it |
| StorageFactory.AddAllContents | src/main/java/com/markocki/storage/StorageFactory.java:97-98 | saving distinct keys in turn files each record under its key and keeps the other entries |
| StorageFactory.SimpleStorage.constructor | src/main/java/com/markocki/storage/StorageFactory.java:66 | a new store is empty |
| StorageFactory.SimpleStorage.FindByPrimaryKey | src/main/java/com/markocki/storage/StorageFactory.java:69-77 | the stored record, or the no-record error naming the key; the store is unchanged |
| StorageFactory.SimpleStorage.Delete | src/main/java/com/markocki/storage/StorageFactory.java:80-90 | removes the argument's key and returns the record that was stored there; an absent key is an error and changes nothing |
| StorageFactory.SimpleStorage.Save | src/main/java/com/markocki/storage/StorageFactory.java:93-103 | an absent key is inserted; a present one is an error and the stored record is kept; every entry stays filed under its own key |
| StorageFactory.SimpleStorage.GetAllRecords | src/main/java/com/markocki/storage/StorageFactory.java:105-107 | a record is listed exactly when it is the one stored under its own key |
| StorageFactory.ReplayKeepsEntries | src/main/java/com/markocki/storage/StorageFactory.java:27-32 | `Replay`, the read-and-save loop: loading only adds entries, never replaces one, and files each under its key |
| StorageFactory.ReplayEncoded | src/main/java/com/markocki/storage/StorageFactory.java:27-29 | reading written records with distinct new keys saves them all and carries on with what follows |
| StorageFactory.LoadStorage | src/main/java/com/markocki/storage/StorageFactory.java:23-41 | a fresh valid store holding what replaying the file gives; a missing file gives an empty store |
| StorageFactory.LoadMissingOrEmpty | src/main/java/com/markocki/storage/StorageFactory.java:26-38 | a missing or empty file gives an empty store |
| StorageFactory.LoadStopsAtDuplicate | src/main/java/com/markocki/storage/StorageFactory.java:28-32 | a record whose key was already loaded ends the loading; the records before it are kept and nothing after it is read |
| StorageFactory.LoadStopsAtBadData | src/main/java/com/markocki/storage/StorageFactory.java:35-38 | bytes that do not read as a record end the loading; the records before them are kept |
| StorageFactory.CloseStorage | src/main/java/com/markocki/storage/StorageFactory.java:43-60 | succeeds exactly when every stored record can be written. The records written are distinct stored records, each under its own key. On success they are all the stored records, and the file holds exactly their encodings in the order of the collection of values. On failure fewer than all were written, and the file starts with their encodings |
| StorageFactory.LoadAfterClose | src/main/java/com/markocki/storage/StorageFactory.java:23-60 | `Loaded`, the store `loadStorage` builds: loading a file that `closeStorage` wrote, in any order, gives back exactly the stored map |
| FrontController.SaveBatchContents | src/main/java/com/markocki/web/FrontController.java:96-104 | `SaveBatch`, the save loop of `upload`: an upload adds exactly the batch's keys, keeps every record already stored, and files each new key under its first record in the batch |
| FrontController.SaveBatchDuplicates | src/main/java/com/markocki/web/FrontController.java:95-104 | `duplicatesFound` stays false exactly when no batch key was stored before and the batch keys are distinct |
| FrontController.SaveBatchWithoutDuplicates | src/main/java/com/markocki/web/FrontController.java:96-104 | a batch without duplicates stores each of its records under its own key |
| FrontController.SaveBatchKeyed | src/main/java/com/markocki/web/FrontController.java:96-104 | saving a batch keeps every entry filed under its own key |
| FrontController.Upload | src/main/java/com/markocki/web/FrontController.java:93-113 | a parse error is answered with its message and saves nothing. Otherwise the records are saved in order, and the answer is the duplicates error or the clean-upload message |
| FrontController.Delete | src/main/java/com/markocki/web/FrontController.java:50-58 | a stored key is removed and confirmed; an absent one is answered with the no-record error and changes nothing |
| FrontController.Get | src/main/java/com/markocki/web/FrontController.java:66-72 | the record stored under the key, or the no-record error; the store is unchanged |

## Left out

- The HTTP layer is not modelled: Spark routes, the multipart request, the JSON rendering of responses, and the `IOException`/`ServletException` answers of `upload`. The routes return a `Response` value instead.
- `BufferedReader.readLine` is not modelled: a file is given as its list of lines, and an `IOException` while reading it is not modelled.
- File paths, `storage.db` and file-system errors are reduced to an optional byte sequence for loading and a result byte sequence for closing. An `IOException` on opening the output file is not modelled.
- The framing that Java serialisation puts around each object is not modelled: the stream header, class descriptors and block-data markers. Nor is `ClassNotFoundException`. A record is only its `writeObject` field layout, and the model keeps the behaviour this framing leads to: loading stops at the first failure.
- Records.Encodable: `writeUTF`'s modified UTF-8, which takes 1 to 3 bytes per char, is replaced by a fixed 3 bytes per code point. As a result, the 65535-byte limit rejects some strings that Java would write. For the same reason, `readUTF` accepts only the model's 3-byte form.
- StorageFactory.CloseStorage: on a record too long to write, the contract says that the file starts with the encodings of the records written before it, but not which bytes of the failing record follow them.
- The `closeStorage` branch for a store that is not a `SimpleStorage` only logs an error and is not modelled. `SimpleStorage` is the only store.
- Logging (`logger.error`) is not modelled.
- The read position of a stream after a failed read is not modelled: the model leaves it unspecified because the loop stops there.
- Concurrency is not modelled (`ConcurrentHashMap` and simultaneous requests): every operation is atomic.
- JavaText.ParseLong: Java also accepts non-ASCII Unicode digits, which the model rejects. Its own contract states only the shape of an accepted string; its exact value is stated by `ParseLongToString` for every `long`.
- Null `name` or `description` values are not modelled; only the primary key's null case, which `createRecord` tests, is an `Option`.
- `RecordsUploader.ReadBody` is stated for any line reader, not only `readInNextRecord`. This keeps the loop proof separate from the reader's details; `TryRetrieveRecords` instantiates it with `readInNextRecord`.
- The record getters and the `RecordImpl` constructor are the fields of the `Record` datatype and carry no separate members.
