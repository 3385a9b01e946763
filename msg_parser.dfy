/** The parser itself: `MsgParser.parseMsg` and the methods it calls, which
    open one property stream per storage, advance its cursor through the
    header and the property records, and fill a `Message` in place. Each
    method is proved to build exactly what the functions of `MsgFormat`
    describe. */
module MsgParser {
  import opened Results
  import opened Names
  import opened Storage
  import opened Properties
  import opened MsgFormat
  import opened MsgFacts

  /** The parts of a `Message` the parser fills: its own property records,
      its recipients and its attachments, each list in the order added. */
  class Message {
    var properties: seq<Property>
    var recipients: seq<RecipientEntry>
    var attachments: seq<Attachment>

    /** `new Message()`: nothing added yet. */
    constructor ()
      ensures properties == [] && recipients == [] && attachments == []
    {
      properties := [];
      recipients := [];
      attachments := [];
    }

    /** The message as a value. */
    function Value(): MessageValue
      reads this
    {
      MessageValue(properties, recipients, attachments)
    }

    /** `setProperty(property)`: adds one record to the message's own list. */
    method SetProperty(property: Property)
      modifies this
      ensures properties == old(properties) + [property]
      ensures recipients == old(recipients) && attachments == old(attachments)
    {
      properties := properties + [property];
    }

    /** `addRecipient(recipient)`: appends one recipient. */
    method AddRecipient(recipient: RecipientEntry)
      modifies this
      ensures recipients == old(recipients) + [recipient]
      ensures properties == old(properties) && attachments == old(attachments)
    {
      recipients := recipients + [recipient];
    }

    /** `addAttachment(attachment)`: appends one attachment. */
    method AddAttachment(attachment: Attachment)
      modifies this
      ensures attachments == old(attachments) + [attachment]
      ensures properties == old(properties) && recipients == old(recipients)
    {
      attachments := attachments + [attachment];
    }
  }

  /** `new Property(propertyStream, dir)`: decodes the record at the cursor
      and moves the cursor past it; a rejected record leaves it in place. */
  method ReadProperty(decode: Decoder, dir: map<string, Entry>, stream: DocumentStream) returns (r: Result<Property>)
    requires Advances(decode)
    requires stream.Valid()
    modifies stream
    ensures stream.Valid()
    ensures r.Ok? <==> decode(dir, stream.bytes, old(stream.pos)).Ok?
    ensures r.Ok? ==>
              && r.value == decode(dir, stream.bytes, old(stream.pos)).value.property
              && stream.pos == decode(dir, stream.bytes, old(stream.pos)).value.next
    ensures r.Fail? ==> stream.pos == old(stream.pos)
  {
    var d := decode(dir, stream.bytes, stream.pos);
    if d.Fail? {
      return Fail;
    }
    stream.pos := d.value.next;
    r := Ok(d.value.property);
  }

  /** The records loop of `parseRecipient` and `ParseFileAttachment`: the
      records from the cursor to the end of the stream, which it leaves
      exhausted. */
  method ReadRecords(decode: Decoder, dir: map<string, Entry>, stream: DocumentStream) returns (r: Result<seq<Property>>)
    requires Advances(decode)
    requires stream.Valid()
    modifies stream
    ensures stream.Valid()
    ensures r == Walk(decode, dir, stream.bytes, old(stream.pos))
    ensures r.Ok? ==> stream.Available() == 0
  {
    var records: seq<Property> := [];
    PrependNothing(Walk(decode, dir, stream.bytes, stream.pos));
    while stream.Available() > 0
      invariant stream.Valid() && old(stream.pos) <= stream.pos
      invariant Walk(decode, dir, stream.bytes, old(stream.pos))
             == Prepend(records, Walk(decode, dir, stream.bytes, stream.pos))
      decreases stream.Available()
    {
      var pos := stream.pos;
      var property := ReadProperty(decode, dir, stream);
      if property.Fail? {
        return Fail;
      }
      WalkStep(decode, dir, stream.bytes, pos, records);
      records := records + [property.value];
    }
    assert records + [] == records;
    r := Ok(records);
  }

  /** Opens the property stream of a recipient or file-attachment storage and
      skips its 8 reserved bytes. */
  method OpenEntityStream(storage: map<string, Entry>) returns (r: Result<DocumentStream>)
    ensures r.Ok? <==>
              GetDocument(storage, PropertiesStreamName).Ok?
              && |GetDocument(storage, PropertiesStreamName).value| >= ReservedLength
    ensures r.Ok? ==>
              && fresh(r.value) && r.value.Valid()
              && r.value.bytes == GetDocument(storage, PropertiesStreamName).value
              && r.value.pos == ReservedLength
  {
    var document := GetDocument(storage, PropertiesStreamName);
    if document.Fail? {
      return Fail;
    }
    var stream := new DocumentStream(document.value);
    var ok := stream.Skip(ReservedLength);
    if !ok {
      return Fail;
    }
    r := Ok(stream);
  }

  /** `parseRecipient`: one recipient holding the storage's own records,
      appended to the message. */
  method ParseRecipient(decode: Decoder, storage: Entry, msg: Message) returns (ok: bool)
    requires Advances(decode)
    requires storage.Dir?
    modifies msg
    ensures ok <==> RecipientOf(decode, storage).Ok?
    ensures ok ==> msg.recipients == old(msg.recipients) + [RecipientOf(decode, storage).value]
    ensures msg.properties == old(msg.properties) && msg.attachments == old(msg.attachments)
  {
    var stream := OpenEntityStream(storage.children);
    if stream.Fail? {
      return false;
    }
    var records := ReadRecords(decode, storage.children, stream.value);
    if records.Fail? {
      return false;
    }
    msg.AddRecipient(RecipientEntry(records.value));
    ok := true;
  }

  /** `ParseFileAttachment`: one file attachment holding the storage's own
      records, appended to the message. */
  method ParseFileAttachment(decode: Decoder, storage: Entry, msg: Message) returns (ok: bool)
    requires Advances(decode)
    requires storage.Dir?
    modifies msg
    ensures ok <==> EntityProperties(decode, storage.children).Ok?
    ensures ok ==> msg.attachments == old(msg.attachments) + [FileAttachment(EntityProperties(decode, storage.children).value)]
    ensures msg.properties == old(msg.properties) && msg.recipients == old(msg.recipients)
  {
    var stream := OpenEntityStream(storage.children);
    if stream.Fail? {
      return false;
    }
    var records := ReadRecords(decode, storage.children, stream.value);
    if records.Fail? {
      return false;
    }
    msg.AddAttachment(FileAttachment(records.value));
    ok := true;
  }

  /** `parseAttachment`: an embedded message when the storage holds the
      marker entry, a file attachment otherwise. */
  method ParseAttachment(decode: Decoder, storage: Entry, msg: Message) returns (ok: bool)
    requires Advances(decode)
    requires storage.Dir?
    modifies msg
    ensures ok <==> AttachmentOf(decode, storage).Ok?
    ensures ok ==> msg.attachments == old(msg.attachments) + [AttachmentOf(decode, storage).value]
    ensures msg.properties == old(msg.properties) && msg.recipients == old(msg.recipients)
    decreases storage, 0, 1
  {
    if HasEntry(storage.children, EmbeddedMessageMarker) {
      ok := ParseEmbeddedMessage(decode, storage, msg);
    } else {
      ok := ParseFileAttachment(decode, storage, msg);
    }
  }

  /** `parseEmbeddedMessage`: parses the marker storage into a new message
      and appends it to the message as a message attachment. */
  method ParseEmbeddedMessage(decode: Decoder, storage: Entry, msg: Message) returns (ok: bool)
    requires Advances(decode)
    requires storage.Dir?
    modifies msg
    ensures ok <==> EmbeddedMessageOf(decode, storage).Ok?
    ensures ok ==> msg.attachments == old(msg.attachments) + [MsgAttachment(EmbeddedMessageOf(decode, storage).value)]
    ensures msg.properties == old(msg.properties) && msg.recipients == old(msg.recipients)
    decreases storage, 0, 0
  {
    var entry := GetDirectory(storage.children, EmbeddedMessageMarker);
    if entry.Fail? {
      return false;
    }
    var attachmentMsg := new Message();
    ok := ParseMsg(decode, entry.value, false, attachmentMsg);
    if !ok {
      return;
    }
    EmptyPrefix(attachmentMsg, MessageOf(decode, entry.value, false).value);
    msg.AddAttachment(MsgAttachment(attachmentMsg.Value()));
  }

  /** The header part of `parseMsg`: `skip(8)`, the four `readInt()`s in
      stream order, and `skip(8)` more at the top level; it leaves the cursor
      on the first property record. */
  method ReadHeader(stream: DocumentStream, topLevel: bool) returns (r: Result<Header>)
    requires stream.Valid() && stream.pos == 0
    modifies stream
    ensures stream.Valid()
    ensures r.Ok? <==> DecodeHeader(stream.bytes, topLevel).Ok?
    ensures r.Ok? ==>
              && r.value == DecodeHeader(stream.bytes, topLevel).value.header
              && stream.pos == DecodeHeader(stream.bytes, topLevel).value.cursor
  {
    var ok := stream.Skip(ReservedLength);
    if !ok {
      return Fail;
    }
    var nextRecipientId := stream.ReadInt();
    if nextRecipientId.Fail? {
      return Fail;
    }
    var nextAttachmentId := stream.ReadInt();
    if nextAttachmentId.Fail? {
      return Fail;
    }
    var recipientCount := stream.ReadInt();
    if recipientCount.Fail? {
      return Fail;
    }
    var attachmentCount := stream.ReadInt();
    if attachmentCount.Fail? {
      return Fail;
    }
    if topLevel {
      ok := stream.Skip(RootPaddingLength);
      if !ok {
        return Fail;
      }
    }
    r := Ok(Header(nextRecipientId.value, nextAttachmentId.value, recipientCount.value, attachmentCount.value));
  }

  /** The recipient loop of `parseMsg`: for each index below the count, the
      storage named `__recip_version1.0_#%08X` must be a storage, and
      `parseRecipient` appends it. */
  method ParseRecipients(decode: Decoder, dir: Entry, recipientCount: int, msg: Message) returns (ok: bool)
    requires Advances(decode)
    requires dir.Dir?
    requires IsInt32(recipientCount)
    modifies msg
    ensures ok <==> RecipientsOf(decode, dir, Iterations(recipientCount)).Ok?
    ensures ok ==> msg.recipients == old(msg.recipients) + RecipientsOf(decode, dir, Iterations(recipientCount)).value
    ensures msg.properties == old(msg.properties) && msg.attachments == old(msg.attachments)
  {
    var index := 0;
    while index < recipientCount
      invariant 0 <= index <= Iterations(recipientCount)
      invariant RecipientsOf(decode, dir, index).Ok?
      invariant msg.recipients == old(msg.recipients) + RecipientsOf(decode, dir, index).value
      invariant msg.properties == old(msg.properties) && msg.attachments == old(msg.attachments)
      decreases recipientCount - index
    {
      var entry := GetDirectory(dir.children, RecipientStorageName(index));
      if entry.Fail? {
        RecipientsFailAt(decode, dir, index, Iterations(recipientCount));
        return false;
      }
      ok := ParseRecipient(decode, entry.value, msg);
      if !ok {
        RecipientsFailAt(decode, dir, index, Iterations(recipientCount));
        return;
      }
      RecipientStep(decode, dir, index);
      AppendAssoc(old(msg.recipients), RecipientsOf(decode, dir, index).value,
                  [RecipientAt(decode, dir, index).value]);
      index := index + 1;
    }
    assert index == Iterations(recipientCount);
    ok := true;
  }

  /** The attachment loop of `parseMsg`: for each index below the count, the
      storage named `__attach_version1.0_#%08X` must be a storage, and
      `parseAttachment` appends it. */
  method ParseAttachments(decode: Decoder, dir: Entry, attachmentCount: int, msg: Message) returns (ok: bool)
    requires Advances(decode)
    requires dir.Dir?
    requires IsInt32(attachmentCount)
    modifies msg
    ensures ok <==> AttachmentsOf(decode, dir, Iterations(attachmentCount)).Ok?
    ensures ok ==> msg.attachments == old(msg.attachments) + AttachmentsOf(decode, dir, Iterations(attachmentCount)).value
    ensures msg.properties == old(msg.properties) && msg.recipients == old(msg.recipients)
    decreases dir, 1, 0
  {
    var index := 0;
    while index < attachmentCount
      invariant 0 <= index <= Iterations(attachmentCount)
      invariant AttachmentsOf(decode, dir, index).Ok?
      invariant msg.attachments == old(msg.attachments) + AttachmentsOf(decode, dir, index).value
      invariant msg.properties == old(msg.properties) && msg.recipients == old(msg.recipients)
      decreases attachmentCount - index
    {
      var entry := GetDirectory(dir.children, AttachmentStorageName(index));
      if entry.Fail? {
        AttachmentsFailAt(decode, dir, index, Iterations(attachmentCount));
        return false;
      }
      ok := ParseAttachment(decode, entry.value, msg);
      if !ok {
        AttachmentsFailAt(decode, dir, index, Iterations(attachmentCount));
        return;
      }
      AttachmentStep(decode, dir, index);
      AppendAssoc(old(msg.attachments), AttachmentsOf(decode, dir, index).value, [AttachmentAt(decode, dir, index).value]);
      index := index + 1;
    }
    assert index == Iterations(attachmentCount);
    ok := true;
  }

  /** `parseMsg(dir, msg)`: reads the header of the directory's property
      stream, adds the recipients and the attachments in index order, then
      the records that follow the header, to the end of the stream. */
  method ParseMsg(decode: Decoder, dir: Entry, topLevel: bool, msg: Message) returns (ok: bool)
    requires Advances(decode)
    requires dir.Dir?
    modifies msg
    ensures ok <==> MessageOf(decode, dir, topLevel).Ok?
    ensures ok ==>
              var m := MessageOf(decode, dir, topLevel).value;
              && msg.properties == old(msg.properties) + m.properties
              && msg.recipients == old(msg.recipients) + m.recipients
              && msg.attachments == old(msg.attachments) + m.attachments
    decreases dir, 2, 0
  {
    var document := GetDocument(dir.children, PropertiesStreamName);
    if document.Fail? {
      return false;
    }
    var bytes := document.value;
    var stream := new DocumentStream(bytes);
    var header := ReadHeader(stream, topLevel);
    if header.Fail? {
      return false;
    }
    var recipientCount, attachmentCount := header.value.recipientCount, header.value.attachmentCount;

    ok := ParseRecipients(decode, dir, recipientCount, msg);
    if !ok {
      return;
    }
    ok := ParseAttachments(decode, dir, attachmentCount, msg);
    if !ok {
      return;
    }

    ghost var records: seq<Property> := [];
    ghost var recipients, attachments := msg.recipients, msg.attachments;
    PrependNothing(Walk(decode, dir.children, bytes, stream.pos));
    while stream.Available() > 0
      invariant stream.Valid() && HeaderLength(topLevel) <= stream.pos
      invariant Walk(decode, dir.children, bytes, HeaderLength(topLevel))
             == Prepend(records, Walk(decode, dir.children, bytes, stream.pos))
      invariant msg.properties == old(msg.properties) + records
      invariant msg.recipients == recipients && msg.attachments == attachments
      decreases stream.Available()
    {
      var pos := stream.pos;
      var property := ReadProperty(decode, dir.children, stream);
      if property.Fail? {
        return false;
      }
      WalkStep(decode, dir.children, bytes, pos, records);
      msg.SetProperty(property.value);
      records := records + [property.value];
    }
    assert records + [] == records;
    ok := true;
  }

  lemma AppendAssoc<T>(a: seq<T>, b: seq<T>, c: seq<T>)
    ensures a + b + c == a + (b + c)
  {
  }

  /** A message built from nothing holds exactly what was added to it. */
  lemma EmptyPrefix(msg: Message, m: MessageValue)
    requires msg.properties == [] + m.properties
    requires msg.recipients == [] + m.recipients
    requires msg.attachments == [] + m.attachments
    ensures msg.Value() == m
  {
    assert [] + m.properties == m.properties;
    assert [] + m.recipients == m.recipients;
    assert [] + m.attachments == m.attachments;
  }

  /** `parseMsg(InputStream)` once the compound file is opened: parses the
      root storage, which has no parent, into a new message. */
  method ParseMessageTree(decode: Decoder, root: Entry) returns (r: Result<MessageValue>)
    requires Advances(decode)
    requires root.Dir?
    ensures r == MessageOf(decode, root, true)
  {
    var msg := new Message();
    var ok := ParseMsg(decode, root, true, msg);
    if ok {
      EmptyPrefix(msg, MessageOf(decode, root, true).value);
      r := Ok(msg.Value());
    } else {
      r := Fail;
    }
  }
}
