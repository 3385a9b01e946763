# MsgParser: the recursive `.msg` message builder

This project models `MsgParser`, the core of the MsgViewer `.msg` reader, in Dafny.
`MsgParser` turns the directory tree of an Outlook `.msg` compound file (Microsoft [MS-OXMSG]) into a `Message`.
The model starts from a directory tree that has already been extracted from the container.

For each message storage, the parser does the following:

- It opens the `__properties_version1.0` stream.
- It skips 8 reserved bytes.
- It reads four little-endian 32-bit counters: next recipient id, next attachment id, recipient count and attachment count.
- At the top level only (a directory without a parent), it skips 8 more bytes.
- For each index below the recipient count, it reads the storage `__recip_version1.0_#` plus `%08X` of the index. A recipient holds that storage's records, read after its 8 reserved bytes.
- For each index below the attachment count, it reads the storage `__attach_version1.0_#` plus `%08X` of the index.
  - If that storage holds the entry `__substg1.0_3701000D`, the attachment is an embedded message. It is parsed recursively as a message with a parent, so its header is 24 bytes.
  - Otherwise it is a file attachment holding the storage's own records.
- Finally it decodes the message's own property records, from where the header left the cursor to the end of the stream.

The modules follow that structure:

- `Results`: a `Result` type with a single `Fail`. Every exception and invalid cast of the source becomes `Fail`.
- `Names`:
  - the fixed entry names;
  - the `%08X` formatting, with its inverse `HexValue`;
  - the storage names built from an index.
- `Storage`:
  - the directory tree, as `Entry = Dir(children) | Doc(bytes)`;
  - lookups by name;
  - signed little-endian 32-bit integers with their encoding;
  - the `DocumentStream` class, a byte stream with a cursor offering `Skip`, `ReadInt` and `Available`.
- `Properties`:
  - property records;
  - the record decoder, which is a parameter `decode` constrained by `Advances`: an accepted record takes at least one byte and no more than remain;
  - `Walk`, the records a "decode while bytes are available" loop reads.
- `MsgFormat`: the specification, as pure functions.
  - `MessageOf`, `RecipientsOf`, `RecipientAt`, `RecipientOf`, `AttachmentsOf`, `AttachmentAt`, `AttachmentOf`, `EmbeddedMessageOf` and `EntityProperties` describe what each parse produces, or that it fails.
  - Their recursion follows the finite directory tree, and Dafny proves that it terminates.
- `MsgFacts`: the properties of that specification.
- `MsgParser`: the imperative parser.
  - The `Message` class has `setProperty`, `addRecipient` and `addAttachment`.
  - One method per source method reads a `DocumentStream` and fills the `Message` in place.
  - Each method is proved to produce exactly what the `MsgFormat` functions describe: `ok` exactly when the specification succeeds, and then each list of the message grows by the specified entries.

All source paths are under `msgparser/src/main/java/com/auxilii/msgparser/`. The table cites them in full.

## Model

| member | source | states |
|---|---|---|
| Names.HexDigit | msgparser/src/main/java/com/auxilii/msgparser/MsgParser.java:124 | a `%X` digit is an upper-case hexadecimal character whose value is the digit |
| Names.PaddedHex | msgparser/src/main/java/com/auxilii/msgparser/MsgParser.java:124 | the padded form of `n` has exactly `width` characters, all upper-case hexadecimal digits; it agrees with `%0<width>X` whenever `n < 16^width` |
| Names.PaddedHexRoundTrip | msgparser/src/main/java/com/auxilii/msgparser/MsgParser.java:124 | the `width` padded hexadecimal digits of any `n < 16^width` consist of hexadecimal characters only and read back as `n` |
| Names.HexValueRoundTrip | msgparser/src/main/java/com/auxilii/msgparser/MsgParser.java:124 | every string of hexadecimal digits is the padded form of its own value (the inverse direction) |
| Names.Hex8Value | msgparser/src/main/java/com/auxilii/msgparser/MsgParser.java:124 | `%08X` of any 32-bit index is eight hexadecimal digits denoting the index |
| Names.Hex8 | msgparser/src/main/java/com/auxilii/msgparser/MsgParser.java:124 | `%08X` of an index is eight upper-case hexadecimal digits |
| Names.PaddedHexAt | msgparser/src/main/java/com/auxilii/msgparser/MsgParser.java:124 | character `j` of the padded form is the digit `width-1-j` places from the least significant |
| Names.IndexedNameParts | msgparser/src/main/java/com/auxilii/msgparser/MsgParser.java:124 | a formatted storage name is exactly its prefix followed by `%08X` of the index |
| Names.IndexedName | msgparser/src/main/java/com/auxilii/msgparser/MsgParser.java:124-128 | a storage name built from a prefix and an index has length prefix + 8, begins with the prefix and ends in hexadecimal digits |
| Names.RecipientStorageName | msgparser/src/main/java/com/auxilii/msgparser/MsgParser.java:124 | the name of recipient storage `index` is `__recip_version1.0_#` followed by eight hexadecimal digits |
| Names.AttachmentStorageName | msgparser/src/main/java/com/auxilii/msgparser/MsgParser.java:128 | the name of attachment storage `index` is `__attach_version1.0_#` followed by eight hexadecimal digits |
| Names.StorageNameParts | msgparser/src/main/java/com/auxilii/msgparser/MsgParser.java:124-128 | recipient and attachment storage names have length prefix + 8, begin with their prefix, and their last eight characters are hexadecimal digits denoting the index |
| Names.StorageNamesDistinct | msgparser/src/main/java/com/auxilii/msgparser/MsgParser.java:111-128 | two recipient names (or two attachment names) are equal exactly when their indices are; a recipient name is never an attachment name, the property stream name or the embedded-message marker, and neither is an attachment name |
| Storage.GetDirectory | msgparser/src/main/java/com/auxilii/msgparser/MsgParser.java:124 | `(DirectoryEntry) dir.getEntry(name)`: fails when the entry is missing (`getEntry` throws) or is a stream (the cast fails), and otherwise gives that storage; its definition is the contract, as it has no `ensures` |
| Storage.GetDocument | msgparser/src/main/java/com/auxilii/msgparser/MsgParser.java:111 | `(DocumentEntry) dir.getEntry(name)` and the stream opened on it: fails when the entry is missing or is a storage, and otherwise gives the stream's bytes; its definition is the contract, as it has no `ensures` |
| Storage.HasEntry | msgparser/src/main/java/com/auxilii/msgparser/MsgParser.java:175 | `dir.hasEntry(name)`: whether an entry of that name exists, of either kind; its definition is the contract, as it has no `ensures` |
| Storage.DocumentStream.Available | msgparser/src/main/java/com/auxilii/msgparser/MsgParser.java:131 | `available()`: the number of bytes after the cursor; its definition is the contract, as it has no `ensures` |
| Storage.Int32At | msgparser/src/main/java/com/auxilii/msgparser/MsgParser.java:114-117 | the little-endian value at an offset is a Java `int`, negative exactly when the top byte has its high bit set |
| Storage.Int32RoundTrip | msgparser/src/main/java/com/auxilii/msgparser/MsgParser.java:114-117 | reading an `int` back from its four encoded bytes, wherever they sit in a stream, gives the value written |
| Storage.DocumentStream.constructor | msgparser/src/main/java/com/auxilii/msgparser/MsgParser.java:112 | a new stream is over the document's bytes with the cursor at 0 |
| Storage.DocumentStream.Skip | msgparser/src/main/java/com/auxilii/msgparser/MsgParser.java:113 | `skip(n)` succeeds exactly when `n` bytes remain and then moves the cursor by `n`; otherwise the cursor stays (a short stream is a failure: see the `Storage.DocumentStream.Skip` line under Left out) |
| Storage.DocumentStream.ReadInt | msgparser/src/main/java/com/auxilii/msgparser/MsgParser.java:114-117 | `readInt()` succeeds exactly when four bytes remain, returns the little-endian `int` at the cursor and moves the cursor by 4 |
| Properties.Walk | msgparser/src/main/java/com/auxilii/msgparser/MsgParser.java:131-133 | a successful walk decodes no more records than bytes remain, and none exactly when no byte remains |
| Properties.WalkStep | msgparser/src/main/java/com/auxilii/msgparser/MsgParser.java:131-133 | a walk not yet at the end is the record at the cursor followed by the walk from just after it |
| Properties.FixedStrideWalk | msgparser/src/main/java/com/auxilii/msgparser/MsgParser.java:131-133 | with records of fixed size `k`, the walk succeeds exactly when the remaining bytes are a multiple of `k`, and then decodes (remaining bytes)/`k` records |
| MsgFormat.HeaderLength | msgparser/src/main/java/com/auxilii/msgparser/MsgParser.java:113-121 | the records start at offset 32 at the top level and at 24 in a directory with a parent |
| MsgFormat.DecodeHeader | msgparser/src/main/java/com/auxilii/msgparser/MsgParser.java:113-121 | the header decodes exactly when the stream holds the header; the four counters are the `int`s at offsets 8, 12, 16, 20 in the order next recipient id, next attachment id, recipient count, attachment count, and the cursor is then at the header length |
| MsgFormat.HeaderRoundTrip | msgparser/src/main/java/com/auxilii/msgparser/MsgParser.java:113-121 | decoding an encoded header followed by any records gives back the four counters, whatever its reserved and padding bytes hold, and leaves the cursor at the first record |
| MsgFormat.Iterations | msgparser/src/main/java/com/auxilii/msgparser/MsgParser.java:123-130 | a counted loop over a signed count runs `count` times when it is positive and not at all otherwise |
| MsgFormat.EntityProperties | msgparser/src/main/java/com/auxilii/msgparser/MsgParser.java:148-153 | the records of a recipient or file-attachment storage come only from a property stream that has its 8 reserved bytes, with at least one byte per record after them |
| MsgFormat.RecipientAt | msgparser/src/main/java/com/auxilii/msgparser/MsgParser.java:124-125 | recipient `index` parses only when the storage named `__recip_version1.0_#` plus `%08X` of the index exists and is a storage |
| MsgFormat.RecipientOf | msgparser/src/main/java/com/auxilii/msgparser/MsgParser.java:146-157 | a parsed recipient's storage has a property stream with the 8 reserved bytes and at least one byte per record after them |
| MsgFormat.RecipientsOf | msgparser/src/main/java/com/auxilii/msgparser/MsgParser.java:123-126 | `n` turns of the recipient loop that succeed yield exactly `n` recipients |
| MsgFormat.AttachmentAt | msgparser/src/main/java/com/auxilii/msgparser/MsgParser.java:128-129 | attachment `index` parses only when the storage named `__attach_version1.0_#` plus `%08X` of the index exists and is a storage |
| MsgFormat.AttachmentOf | msgparser/src/main/java/com/auxilii/msgparser/MsgParser.java:174-180 | a parsed attachment is a message attachment exactly when the storage has a `__substg1.0_3701000D` entry; a file attachment's storage has a property stream holding its records after the 8 reserved bytes |
| MsgFormat.EmbeddedMessageOf | msgparser/src/main/java/com/auxilii/msgparser/MsgParser.java:182-191 | an embedded message parses only when the marker entry is a storage |
| MsgFormat.AttachmentsOf | msgparser/src/main/java/com/auxilii/msgparser/MsgParser.java:127-130 | `n` turns of the attachment loop that succeed yield exactly `n` attachments |
| MsgFormat.MessageOf | msgparser/src/main/java/com/auxilii/msgparser/MsgParser.java:110-135 | a parsed message has a property stream at least as long as its header, exactly `max(count, 0)` recipients and attachments for the counters at offsets 16 and 20, and no more own records than bytes after the header |
| MsgFacts.RecipientsLength | msgparser/src/main/java/com/auxilii/msgparser/MsgParser.java:123-126 | a successful recipient loop of `n` turns yields exactly `n` recipients |
| MsgFacts.RecipientOrderAt | msgparser/src/main/java/com/auxilii/msgparser/MsgParser.java:123-126 | recipient `i` of the loop result is the one read from the storage of index `i` |
| MsgFacts.RecipientsFailAt | msgparser/src/main/java/com/auxilii/msgparser/MsgParser.java:123-126 | one failing recipient below `n` makes the loop fail |
| MsgFacts.RecipientsSucceed | msgparser/src/main/java/com/auxilii/msgparser/MsgParser.java:123-126 | when every recipient below `n` parses, the loop succeeds |
| MsgFacts.RecipientsInOrder | msgparser/src/main/java/com/auxilii/msgparser/MsgParser.java:123-126 | the recipient loop succeeds if and only if every recipient below `n` parses, and then yields exactly `n` recipients in index order |
| MsgFacts.RecipientStep | msgparser/src/main/java/com/auxilii/msgparser/MsgParser.java:123-126 | one more turn appends the recipient of that index |
| MsgFacts.AttachmentsLength | msgparser/src/main/java/com/auxilii/msgparser/MsgParser.java:127-130 | a successful attachment loop of `n` turns yields exactly `n` attachments |
| MsgFacts.AttachmentOrderAt | msgparser/src/main/java/com/auxilii/msgparser/MsgParser.java:127-130 | attachment `i` of the loop result is the one read from the storage of index `i`, whatever its kind |
| MsgFacts.AttachmentsFailAt | msgparser/src/main/java/com/auxilii/msgparser/MsgParser.java:127-130 | one failing attachment below `n` makes the loop fail |
| MsgFacts.AttachmentsSucceed | msgparser/src/main/java/com/auxilii/msgparser/MsgParser.java:127-130 | when every attachment below `n` parses, the loop succeeds |
| MsgFacts.AttachmentsInOrder | msgparser/src/main/java/com/auxilii/msgparser/MsgParser.java:127-130 | the attachment loop succeeds if and only if every attachment below `n` parses, and then yields exactly `n` attachments in index order |
| MsgFacts.AttachmentStep | msgparser/src/main/java/com/auxilii/msgparser/MsgParser.java:127-130 | one more turn appends the attachment of that index |
| MsgFacts.MessageLayout | msgparser/src/main/java/com/auxilii/msgparser/MsgParser.java:110-135 | a parsed message has a property stream at least as long as its header, `max(count, 0)` recipients and attachments from the counters at offsets 16 and 20, in index order, and its own records are exactly the walk of the main stream from the end of the header, at most one per remaining byte |
| MsgFacts.MessageOfSucceeds | msgparser/src/main/java/com/auxilii/msgparser/MsgParser.java:110-135 | a message parses if and only if its property stream exists and holds the header, every indexed recipient and attachment parses, and the records after the header decode |
| MsgFacts.RecipientFailureStops | msgparser/src/main/java/com/auxilii/msgparser/MsgParser.java:123-126 | a recipient below the count that fails makes the whole message fail |
| MsgFacts.AttachmentFailureStops | msgparser/src/main/java/com/auxilii/msgparser/MsgParser.java:127-130 | an attachment below the count that fails, of either kind, makes the whole message fail |
| MsgFacts.MissingStorageFails | msgparser/src/main/java/com/auxilii/msgparser/MsgParser.java:124-128 | an indexed recipient or attachment storage that is missing or is a stream makes the whole message fail |
| MsgFacts.EmbeddedMessageRule | msgparser/src/main/java/com/auxilii/msgparser/MsgParser.java:174-191 | a parsed attachment is a message attachment exactly when its storage holds `__substg1.0_3701000D`; the message is then the parse of that entry as a message with a parent, and a file attachment holds the storage's own records |
| MsgFacts.AttachmentKindAt | msgparser/src/main/java/com/auxilii/msgparser/MsgParser.java:127-130 | a parsed attachment comes from a storage of its own; it is a message attachment exactly when that storage holds the marker, and the nested message's records then start after a 24-byte header |
| MsgFacts.AttachmentKinds | msgparser/src/main/java/com/auxilii/msgparser/MsgParser.java:127-130 | in a parsed message, attachment `i` is the one of index `i`, its storage exists, and the marker decides its kind |
| MsgFacts.RootPadding | msgparser/src/main/java/com/auxilii/msgparser/MsgParser.java:118-121 | the top-level message takes its records from the root property stream after a 32-byte header |
| MsgFacts.EntityLayout | msgparser/src/main/java/com/auxilii/msgparser/MsgParser.java:146-157 | a recipient or file attachment takes its records from its own property stream after 8 reserved bytes to the end of that stream, at most one per remaining byte |
| MsgParser.Message.constructor | msgparser/src/main/java/com/auxilii/msgparser/MsgParser.java:105 | a new message has no records, recipients or attachments |
| MsgParser.Message.SetProperty | msgparser/src/main/java/com/auxilii/msgparser/MsgParser.java:132 | appends one record to the message's own list and changes nothing else |
| MsgParser.Message.AddRecipient | msgparser/src/main/java/com/auxilii/msgparser/MsgParser.java:156 | appends one recipient and changes nothing else |
| MsgParser.Message.AddAttachment | msgparser/src/main/java/com/auxilii/msgparser/MsgParser.java:190 | appends one attachment and changes nothing else |
| MsgParser.ReadProperty | msgparser/src/main/java/com/auxilii/msgparser/MsgParser.java:132 | decoding a record succeeds exactly when the decoder accepts it at the cursor and moves the cursor past it; a rejected record leaves the cursor in place |
| MsgParser.ReadRecords | msgparser/src/main/java/com/auxilii/msgparser/MsgParser.java:151-153 | the records loop returns exactly the walk from the cursor, and on success leaves no byte available |
| MsgParser.OpenEntityStream | msgparser/src/main/java/com/auxilii/msgparser/MsgParser.java:148-150 | opening a storage's property stream and skipping 8 bytes succeeds exactly when the stream exists with at least 8 bytes, leaving a fresh stream over its bytes at offset 8 |
| MsgParser.ParseRecipient | msgparser/src/main/java/com/auxilii/msgparser/MsgParser.java:146-157 | succeeds exactly when the recipient specification does, then appends exactly that recipient and leaves the other lists unchanged |
| MsgParser.ParseFileAttachment | msgparser/src/main/java/com/auxilii/msgparser/MsgParser.java:193-205 | succeeds exactly when the storage's records decode, then appends one file attachment holding them and leaves the other lists unchanged |
| MsgParser.ParseAttachment | msgparser/src/main/java/com/auxilii/msgparser/MsgParser.java:174-180 | succeeds exactly when the attachment specification does, then appends exactly that attachment |
| MsgParser.ParseEmbeddedMessage | msgparser/src/main/java/com/auxilii/msgparser/MsgParser.java:182-191 | succeeds exactly when the marker entry is a storage whose message parses with a parent, then appends that message as a message attachment |
| MsgParser.ReadHeader | msgparser/src/main/java/com/auxilii/msgparser/MsgParser.java:113-121 | the stream reads succeed exactly when the header decodes; they return its four counters and leave the cursor at the header length |
| MsgParser.ParseRecipients | msgparser/src/main/java/com/auxilii/msgparser/MsgParser.java:123-126 | the recipient loop succeeds exactly when the recipients specification for `max(count, 0)` turns does, then appends exactly those recipients in order and leaves the other lists unchanged |
| MsgParser.ParseAttachments | msgparser/src/main/java/com/auxilii/msgparser/MsgParser.java:127-130 | the attachment loop succeeds exactly when the attachments specification for `max(count, 0)` turns does, then appends exactly those attachments in order and leaves the other lists unchanged |
| MsgParser.ParseMsg | msgparser/src/main/java/com/auxilii/msgparser/MsgParser.java:110-135 | `parseMsg(dir, msg)` succeeds exactly when `MessageOf` does, and then each of the three lists of `msg` grows by exactly the specified records, recipients and attachments |
| MsgParser.ParseMessageTree | msgparser/src/main/java/com/auxilii/msgparser/MsgParser.java:98-108 | parsing from the root into a new message gives exactly `MessageOf(root, topLevel = true)` |

## Left out

- Opening a file or an input stream, and the closing done by try-with-resources (`MsgParser.java:72-89`), are I/O and are not modelled.
- Building the compound file with `POIFSFileSystem` and finding its root (`MsgParser.java:103-104`) belong to an external library. The model takes the directory tree as input.
- The property record decoder (`new Property(propertyStream, dir)`) is not part of this model. It is a parameter, and the model relies only on its contract: an accepted record takes at least one byte and no more than remain. The layout of tags and values is not modelled.
- The internals of `Message.setProperty`, `RecipientEntry`, `FileAttachment.setProperty` and `MsgAttachment` are not part of this model. Each is modelled as appending to a sequence, so no overwrite or duplicate-tag policy is stated.
- Storage.DocumentStream.Skip: skipping past the end of a stream is a failure, while POI's `skip` stops at the end quietly. The model and the source therefore differ on two kinds of input. A root property stream of 24 to 31 bytes parses in the source, whose second `skip(8)` (`MsgParser.java:120`) stops at the end and leaves no root records, while `MessageOf(root, true)` fails. A recipient or file-attachment property stream shorter than 8 bytes (`MsgParser.java:150`, `197`) yields an entity with no records in the source, while the model fails.
- Every exception, and every invalid cast of an entry to a storage or to a stream, is collapsed into one `Fail`.
- After a failure, the state of the partly filled `Message` is left unspecified. The source throws, so callers never see that state.
- MsgParser.ParseEmbeddedMessage: it appends a snapshot value of the nested message once that message is parsed. The source links the `MsgAttachment` to the nested `Message` object before parsing it. No other code runs in between, so the result is the same, but object identity and aliasing are not modelled.
- MsgParser.ReadHeader, MsgParser.ParseRecipients, MsgParser.ParseAttachments: the header reads and the two counted loops of `parseMsg` are separate methods, each called once from `MsgParser.ParseMsg`. The loop over the main stream's records stays inside `ParseMsg`.
- The two counter fields `nextRecipientId` and `nextAttachmentId` are read and returned. The source never uses them, and neither does the model.
- The counters are Java `int`s, modelled as signed 32-bit integers, so a negative count means the loop does not run. This follows the code. Some descriptions of the format call the counters unsigned.
