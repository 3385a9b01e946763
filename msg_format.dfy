/** What `MsgParser.parseMsg` builds from a storage of a `.msg` file, as pure
    functions over the directory tree, and the properties of that result:
    header layout, recipient and attachment counts and order, the
    embedded-message rule and where each property list comes from. */
module MsgFormat {
  import opened Results
  import opened Names
  import opened Storage
  import opened Properties

  datatype RecipientEntry = RecipientEntry(properties: seq<Property>)

  datatype Attachment =
    | FileAttachment(properties: seq<Property>)
    | MsgAttachment(message: MessageValue)

  datatype MessageValue = MessageValue(
    properties: seq<Property>,
    recipients: seq<RecipientEntry>,
    attachments: seq<Attachment>)

  /** The four counters of a `__properties_version1.0` header, in stream order. */
  datatype Header = Header(nextRecipientId: int, nextAttachmentId: int, recipientCount: int, attachmentCount: int)

  /** A decoded header and the position of the first property record. */
  datatype HeaderRead = HeaderRead(header: Header, cursor: nat)

  /** The reserved bytes that open every property stream. */
  const ReservedLength: nat := 8
  /** The four 32-bit counters of a message's property stream. */
  const CountersLength: nat := 16
  /** The reserved bytes only the top-level message's header has. */
  const RootPaddingLength: nat := 8

  /** Where the property records of a message's stream start: after a 32-byte
      header at the top level (section 2.4.1.1 of [MS-OXMSG]) and after a
      24-byte header in an embedded message (section 2.4.1.2). */
  function HeaderLength(topLevel: bool): (n: nat)
    ensures n == if topLevel then 32 else 24
  {
    ReservedLength + CountersLength + (if topLevel then RootPaddingLength else 0)
  }

  /** The header `parseMsg` reads: `skip(8)`, four `readInt()`s, and `skip(8)`
      more when the directory has no parent. A stream too short for this fails. */
  function DecodeHeader(bytes: seq<byte>, topLevel: bool): (r: Result<HeaderRead>)
    ensures r.Ok? <==> |bytes| >= HeaderLength(topLevel)
    ensures r.Ok? ==> r.value.cursor == HeaderLength(topLevel)
    ensures r.Ok? ==>
              r.value.header == Header(Int32At(bytes, 8), Int32At(bytes, 12), Int32At(bytes, 16), Int32At(bytes, 20))
  {
    if |bytes| < HeaderLength(topLevel) then Fail
    else
      var counters := ReservedLength;
      Ok(HeaderRead(
        Header(Int32At(bytes, counters), Int32At(bytes, counters + 4),
               Int32At(bytes, counters + 8), Int32At(bytes, counters + 12)),
        HeaderLength(topLevel)))
  }

  /** The header a writer puts in front of a message's property records:
      the reserved bytes, the four counters and, at the top level, the
      padding. */
  function EncodeHeader(h: Header, reserved: seq<byte>, padding: seq<byte>): seq<byte>
    requires IsInt32(h.nextRecipientId) && IsInt32(h.nextAttachmentId)
    requires IsInt32(h.recipientCount) && IsInt32(h.attachmentCount)
  {
    reserved
      + Int32Bytes(h.nextRecipientId) + Int32Bytes(h.nextAttachmentId)
      + Int32Bytes(h.recipientCount) + Int32Bytes(h.attachmentCount)
      + padding
  }

  /** Decoding an encoded header gives back its four counters, in order,
      whatever its reserved and padding bytes hold, and leaves the cursor on
      the first record that follows it. */
  lemma HeaderRoundTrip(h: Header, topLevel: bool, reserved: seq<byte>, padding: seq<byte>, records: seq<byte>)
    requires IsInt32(h.nextRecipientId) && IsInt32(h.nextAttachmentId)
    requires IsInt32(h.recipientCount) && IsInt32(h.attachmentCount)
    requires |reserved| == ReservedLength
    requires |padding| == if topLevel then RootPaddingLength else 0
    ensures |EncodeHeader(h, reserved, padding)| == HeaderLength(topLevel)
    ensures DecodeHeader(EncodeHeader(h, reserved, padding) + records, topLevel)
         == Ok(HeaderRead(h, HeaderLength(topLevel)))
  {
    var z := reserved;
    var b0, b1 := Int32Bytes(h.nextRecipientId), Int32Bytes(h.nextAttachmentId);
    var b2, b3 := Int32Bytes(h.recipientCount), Int32Bytes(h.attachmentCount);
    var pad := padding + records;
    var bytes := EncodeHeader(h, reserved, padding) + records;
    assert bytes == z + b0 + (b1 + b2 + b3 + pad);
    Int32RoundTrip(z, h.nextRecipientId, b1 + b2 + b3 + pad);
    assert bytes == z + b0 + b1 + (b2 + b3 + pad);
    Int32RoundTrip(z + b0, h.nextAttachmentId, b2 + b3 + pad);
    assert bytes == z + b0 + b1 + b2 + (b3 + pad);
    Int32RoundTrip(z + b0 + b1, h.recipientCount, b3 + pad);
    assert bytes == z + b0 + b1 + b2 + b3 + pad;
    Int32RoundTrip(z + b0 + b1 + b2, h.attachmentCount, pad);
  }

  /** How many turns a counted loop from 0 up to a signed `count` makes. */
  function Iterations(count: int): (n: nat)
    ensures IsInt32(count) ==> n < 0x8000_0000
    ensures count <= 0 ==> n == 0
    ensures count >= 0 ==> n == count
  {
    if count > 0 then count else 0
  }

  /** The records `parseRecipient` and `ParseFileAttachment` read from a
      storage: its property stream past the 8 reserved bytes, to the end. */
  function EntityProperties(decode: Decoder, storage: map<string, Entry>): (r: Result<seq<Property>>)
    requires Advances(decode)
    ensures r.Ok? ==> HoldsRecords(storage, |r.value|)
  {
    var bytes :- GetDocument(storage, PropertiesStreamName);
    if |bytes| < ReservedLength then Fail
    else Walk(decode, storage, bytes, ReservedLength)
  }

  /** The storage has a property stream past whose 8 reserved bytes there
      is at least one byte per record for `count` records. */
  predicate HoldsRecords(storage: map<string, Entry>, count: nat) {
    && GetDocument(storage, PropertiesStreamName).Ok?
    && |GetDocument(storage, PropertiesStreamName).value| >= ReservedLength
    && count <= |GetDocument(storage, PropertiesStreamName).value| - ReservedLength
  }

  /** Recipient `index` of a message directory: the storage named for the
      index must exist and be a storage, and `parseRecipient` reads it. */
  function RecipientAt(decode: Decoder, dir: Entry, index: nat): (r: Result<RecipientEntry>)
    requires Advances(decode)
    requires dir.Dir?
    requires index < 0x1_0000_0000
    ensures r.Ok? ==> GetDirectory(dir.children, RecipientStorageName(index)).Ok?
  {
    var storage :- GetDirectory(dir.children, RecipientStorageName(index));
    RecipientOf(decode, storage)
  }

  /** `parseRecipient`: a recipient holding the storage's own records. */
  function RecipientOf(decode: Decoder, storage: Entry): (r: Result<RecipientEntry>)
    requires Advances(decode)
    requires storage.Dir?
    ensures r.Ok? ==> HoldsRecords(storage.children, |r.value.properties|)
  {
    var properties :- EntityProperties(decode, storage.children);
    Ok(RecipientEntry(properties))
  }

  /** The recipients the first `n` turns of the recipient loop append. */
  function RecipientsOf(decode: Decoder, dir: Entry, n: nat): (r: Result<seq<RecipientEntry>>)
    requires Advances(decode)
    requires dir.Dir?
    requires n <= 0x1_0000_0000
    ensures r.Ok? ==> |r.value| == n
  {
    if n == 0 then Ok([])
    else
      var init :- RecipientsOf(decode, dir, n - 1);
      var last :- RecipientAt(decode, dir, n - 1);
      Ok(init + [last])
  }

  /** `parseMsg(dir, msg)` on a fresh message: header, recipients,
      attachments, then the message's own records from the main stream. */
  function MessageOf(decode: Decoder, dir: Entry, topLevel: bool): (r: Result<MessageValue>)
    requires Advances(decode)
    requires dir.Dir?
    ensures r.Ok? ==> GetDocument(dir.children, PropertiesStreamName).Ok?
    ensures r.Ok? ==>
              var bytes := GetDocument(dir.children, PropertiesStreamName).value;
              && |bytes| >= HeaderLength(topLevel)
              && |r.value.recipients| == Iterations(Int32At(bytes, 16))
              && |r.value.attachments| == Iterations(Int32At(bytes, 20))
              && |r.value.properties| <= |bytes| - HeaderLength(topLevel)
    decreases dir, 2, 0
  {
    var bytes :- GetDocument(dir.children, PropertiesStreamName);
    var h :- DecodeHeader(bytes, topLevel);
    var recipients :- RecipientsOf(decode, dir, Iterations(h.header.recipientCount));
    var attachments :- AttachmentsOf(decode, dir, Iterations(h.header.attachmentCount));
    var properties :- Walk(decode, dir.children, bytes, h.cursor);
    Ok(MessageValue(properties, recipients, attachments))
  }

  /** The attachments the first `n` turns of the attachment loop append. */
  function AttachmentsOf(decode: Decoder, dir: Entry, n: nat): (r: Result<seq<Attachment>>)
    requires Advances(decode)
    requires dir.Dir?
    requires n <= 0x1_0000_0000
    ensures r.Ok? ==> |r.value| == n
    decreases dir, 1, n + 1
  {
    if n == 0 then Ok([])
    else
      var init :- AttachmentsOf(decode, dir, n - 1);
      var last :- AttachmentAt(decode, dir, n - 1);
      Ok(init + [last])
  }

  /** Attachment `index` of a message directory: the storage named for the
      index must exist and be a storage, and `parseAttachment` reads it. */
  function AttachmentAt(decode: Decoder, dir: Entry, index: nat): (r: Result<Attachment>)
    requires Advances(decode)
    requires dir.Dir?
    requires index < 0x1_0000_0000
    ensures r.Ok? ==> GetDirectory(dir.children, AttachmentStorageName(index)).Ok?
    decreases dir, 1, 0
  {
    var name := AttachmentStorageName(index);
    if name in dir.children && dir.children[name].Dir? then AttachmentOf(decode, dir.children[name])
    else Fail
  }

  /** `parseAttachment`: an embedded message when the storage has the marker
      entry, a file attachment otherwise. */
  function AttachmentOf(decode: Decoder, storage: Entry): (r: Result<Attachment>)
    requires Advances(decode)
    requires storage.Dir?
    ensures r.Ok? ==> (r.value.MsgAttachment? <==> HasEntry(storage.children, EmbeddedMessageMarker))
    ensures r.Ok? && r.value.FileAttachment? ==> HoldsRecords(storage.children, |r.value.properties|)
    decreases storage, 0, 1
  {
    if HasEntry(storage.children, EmbeddedMessageMarker) then
      var message :- EmbeddedMessageOf(decode, storage);
      Ok(MsgAttachment(message))
    else
      var properties :- EntityProperties(decode, storage.children);
      Ok(FileAttachment(properties))
  }

  /** `parseEmbeddedMessage`: the message held by the marker storage, which
      has a parent and so a 24-byte header. */
  function EmbeddedMessageOf(decode: Decoder, storage: Entry): (r: Result<MessageValue>)
    requires Advances(decode)
    requires storage.Dir?
    ensures r.Ok? ==> GetDirectory(storage.children, EmbeddedMessageMarker).Ok?
    decreases storage, 0, 0
  {
    var marker := EmbeddedMessageMarker;
    if marker in storage.children && storage.children[marker].Dir? then
      MessageOf(decode, storage.children[marker], false)
    else Fail
  }
}
