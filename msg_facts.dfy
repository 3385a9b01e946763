/** Properties of what the parser builds from a message directory, stated for
    every directory tree and every property decoder that keeps its contract. */
module MsgFacts {
  import opened Results
  import opened Names
  import opened Storage
  import opened Properties
  import opened MsgFormat

  /** The recipient loop yields one recipient per turn. */
  lemma {:induction false} RecipientsLength(decode: Decoder, dir: Entry, n: nat)
    requires Advances(decode)
    requires dir.Dir?
    requires n <= 0x1_0000_0000
    requires RecipientsOf(decode, dir, n).Ok?
    ensures |RecipientsOf(decode, dir, n).value| == n
  {
    if n > 0 {
      RecipientsLength(decode, dir, n - 1);
    }
  }

  /** Recipient `i` of a successful loop is the one read from the storage of
      index `i`. */
  lemma {:induction false} RecipientOrderAt(decode: Decoder, dir: Entry, n: nat, i: nat)
    requires Advances(decode)
    requires dir.Dir?
    requires i < n <= 0x1_0000_0000
    requires RecipientsOf(decode, dir, n).Ok?
    ensures |RecipientsOf(decode, dir, n).value| == n
    ensures RecipientAt(decode, dir, i) == Ok(RecipientsOf(decode, dir, n).value[i])
  {
    RecipientsLength(decode, dir, n);
    var init, last := RecipientsOf(decode, dir, n - 1), RecipientAt(decode, dir, n - 1);
    assert init.Ok? && last.Ok?;
    assert RecipientsOf(decode, dir, n).value == init.value + [last.value];
    if i < n - 1 {
      RecipientOrderAt(decode, dir, n - 1, i);
      assert (init.value + [last.value])[i] == init.value[i];
    }
  }

  /** One recipient that fails stops the recipient loop. */
  lemma {:induction false} RecipientsFailAt(decode: Decoder, dir: Entry, k: nat, n: nat)
    requires Advances(decode)
    requires dir.Dir?
    requires k < n <= 0x1_0000_0000
    requires RecipientAt(decode, dir, k).Fail?
    ensures RecipientsOf(decode, dir, n).Fail?
  {
    if k < n - 1 {
      RecipientsFailAt(decode, dir, k, n - 1);
    }
  }

  /** When every recipient parses, so does the loop. */
  lemma {:induction false} RecipientsSucceed(decode: Decoder, dir: Entry, n: nat)
    requires Advances(decode)
    requires dir.Dir?
    requires n <= 0x1_0000_0000
    requires forall i :: 0 <= i < n ==> RecipientAt(decode, dir, i).Ok?
    ensures RecipientsOf(decode, dir, n).Ok?
  {
    if n > 0 {
      RecipientsSucceed(decode, dir, n - 1);
      assert RecipientAt(decode, dir, n - 1).Ok?;
    }
  }

  /** The recipient loop succeeds exactly when every one of its `n`
      recipients does, and then yields exactly `n` recipients, recipient `i`
      read from the storage named with index `i`. */
  lemma RecipientsInOrder(decode: Decoder, dir: Entry, n: nat)
    requires Advances(decode)
    requires dir.Dir?
    requires n <= 0x1_0000_0000
    ensures RecipientsOf(decode, dir, n).Ok? <==>
              forall i :: 0 <= i < n ==> RecipientAt(decode, dir, i).Ok?
    ensures RecipientsOf(decode, dir, n).Ok? ==>
              && |RecipientsOf(decode, dir, n).value| == n
              && forall i :: 0 <= i < n ==> RecipientAt(decode, dir, i) == Ok(RecipientsOf(decode, dir, n).value[i])
  {
    if forall i :: 0 <= i < n ==> RecipientAt(decode, dir, i).Ok? {
      RecipientsSucceed(decode, dir, n);
    } else {
      var k :| 0 <= k < n && RecipientAt(decode, dir, k).Fail?;
      RecipientsFailAt(decode, dir, k, n);
    }
    if RecipientsOf(decode, dir, n).Ok? {
      RecipientsLength(decode, dir, n);
      forall i | 0 <= i < n
        ensures RecipientAt(decode, dir, i) == Ok(RecipientsOf(decode, dir, n).value[i])
      {
        RecipientOrderAt(decode, dir, n, i);
      }
    }
  }

  /** The attachment loop yields one attachment per turn. */
  lemma {:induction false} AttachmentsLength(decode: Decoder, dir: Entry, n: nat)
    requires Advances(decode)
    requires dir.Dir?
    requires n <= 0x1_0000_0000
    requires AttachmentsOf(decode, dir, n).Ok?
    ensures |AttachmentsOf(decode, dir, n).value| == n
  {
    if n > 0 {
      AttachmentsLength(decode, dir, n - 1);
    }
  }

  /** Attachment `i` of a successful loop is the one read from the storage of
      index `i`. */
  lemma {:induction false} AttachmentOrderAt(decode: Decoder, dir: Entry, n: nat, i: nat)
    requires Advances(decode)
    requires dir.Dir?
    requires i < n <= 0x1_0000_0000
    requires AttachmentsOf(decode, dir, n).Ok?
    ensures |AttachmentsOf(decode, dir, n).value| == n
    ensures AttachmentAt(decode, dir, i) == Ok(AttachmentsOf(decode, dir, n).value[i])
  {
    AttachmentsLength(decode, dir, n);
    var init, last := AttachmentsOf(decode, dir, n - 1), AttachmentAt(decode, dir, n - 1);
    assert init.Ok? && last.Ok?;
    assert AttachmentsOf(decode, dir, n).value == init.value + [last.value];
    if i < n - 1 {
      AttachmentOrderAt(decode, dir, n - 1, i);
      assert (init.value + [last.value])[i] == init.value[i];
    }
  }

  /** One attachment that fails stops the attachment loop. */
  lemma {:induction false} AttachmentsFailAt(decode: Decoder, dir: Entry, k: nat, n: nat)
    requires Advances(decode)
    requires dir.Dir?
    requires k < n <= 0x1_0000_0000
    requires AttachmentAt(decode, dir, k).Fail?
    ensures AttachmentsOf(decode, dir, n).Fail?
  {
    if k < n - 1 {
      AttachmentsFailAt(decode, dir, k, n - 1);
    }
  }

  /** When every attachment parses, so does the loop. */
  lemma {:induction false} AttachmentsSucceed(decode: Decoder, dir: Entry, n: nat)
    requires Advances(decode)
    requires dir.Dir?
    requires n <= 0x1_0000_0000
    requires forall i :: 0 <= i < n ==> AttachmentAt(decode, dir, i).Ok?
    ensures AttachmentsOf(decode, dir, n).Ok?
  {
    if n > 0 {
      AttachmentsSucceed(decode, dir, n - 1);
      assert AttachmentAt(decode, dir, n - 1).Ok?;
    }
  }

  /** The attachment loop succeeds exactly when every one of its `n`
      attachments does, whatever their kind, and then yields exactly `n`
      attachments in index order. */
  lemma AttachmentsInOrder(decode: Decoder, dir: Entry, n: nat)
    requires Advances(decode)
    requires dir.Dir?
    requires n <= 0x1_0000_0000
    ensures AttachmentsOf(decode, dir, n).Ok? <==>
              forall i :: 0 <= i < n ==> AttachmentAt(decode, dir, i).Ok?
    ensures AttachmentsOf(decode, dir, n).Ok? ==>
              && |AttachmentsOf(decode, dir, n).value| == n
              && forall i :: 0 <= i < n ==> AttachmentAt(decode, dir, i) == Ok(AttachmentsOf(decode, dir, n).value[i])
  {
    if forall i :: 0 <= i < n ==> AttachmentAt(decode, dir, i).Ok? {
      AttachmentsSucceed(decode, dir, n);
    } else {
      var k :| 0 <= k < n && AttachmentAt(decode, dir, k).Fail?;
      AttachmentsFailAt(decode, dir, k, n);
    }
    if AttachmentsOf(decode, dir, n).Ok? {
      AttachmentsLength(decode, dir, n);
      forall i | 0 <= i < n
        ensures AttachmentAt(decode, dir, i) == Ok(AttachmentsOf(decode, dir, n).value[i])
      {
        AttachmentOrderAt(decode, dir, n, i);
      }
    }
  }

  /** When the parse of a message directory succeeds, its property stream
      holds at least the header; the message has one recipient per index below
      the recipient count at offset 16 and one attachment per index below the
      attachment count at offset 20, in index order; and its own records are
      those decoded from the property stream from the end of the header to
      the end of the stream, so none of them comes from a recipient or
      attachment storage, and there are no more of them than bytes after the
      header. */
  lemma MessageLayout(decode: Decoder, dir: Entry, topLevel: bool)
    requires Advances(decode)
    requires dir.Dir?
    requires MessageOf(decode, dir, topLevel).Ok?
    ensures GetDocument(dir.children, PropertiesStreamName).Ok?
    ensures |GetDocument(dir.children, PropertiesStreamName).value| >= HeaderLength(topLevel)
    ensures var bytes, m := GetDocument(dir.children, PropertiesStreamName).value, MessageOf(decode, dir, topLevel).value;
            && |m.recipients| == Iterations(Int32At(bytes, 16))
            && (forall i :: 0 <= i < |m.recipients| ==> RecipientAt(decode, dir, i) == Ok(m.recipients[i]))
            && |m.attachments| == Iterations(Int32At(bytes, 20))
            && (forall i :: 0 <= i < |m.attachments| ==> AttachmentAt(decode, dir, i) == Ok(m.attachments[i]))
            && Walk(decode, dir.children, bytes, HeaderLength(topLevel)) == Ok(m.properties)
            && |m.properties| <= |bytes| - HeaderLength(topLevel)
  {
    var bytes := GetDocument(dir.children, PropertiesStreamName).value;
    var h := DecodeHeader(bytes, topLevel).value;
    RecipientsInOrder(decode, dir, Iterations(h.header.recipientCount));
    AttachmentsInOrder(decode, dir, Iterations(h.header.attachmentCount));
  }

  /** The parse of a message directory succeeds exactly when its property
      stream exists and holds the header, every indexed recipient and every
      indexed attachment parses, and the records after the header decode. */
  lemma MessageOfSucceeds(decode: Decoder, dir: Entry, topLevel: bool)
    requires Advances(decode)
    requires dir.Dir?
    ensures MessageOf(decode, dir, topLevel).Ok? <==>
              && GetDocument(dir.children, PropertiesStreamName).Ok?
              && var bytes := GetDocument(dir.children, PropertiesStreamName).value;
                 && |bytes| >= HeaderLength(topLevel)
                 && (forall i :: 0 <= i < Iterations(Int32At(bytes, 16)) ==> RecipientAt(decode, dir, i).Ok?)
                 && (forall i :: 0 <= i < Iterations(Int32At(bytes, 20)) ==> AttachmentAt(decode, dir, i).Ok?)
                 && Walk(decode, dir.children, bytes, HeaderLength(topLevel)).Ok?
  {
    var doc := GetDocument(dir.children, PropertiesStreamName);
    if doc.Ok? && |doc.value| >= HeaderLength(topLevel) {
      var h := DecodeHeader(doc.value, topLevel).value;
      RecipientsInOrder(decode, dir, Iterations(h.header.recipientCount));
      AttachmentsInOrder(decode, dir, Iterations(h.header.attachmentCount));
    }
  }

  /** One more turn of the recipient loop appends the recipient read from
      the storage of that index. */
  lemma RecipientStep(decode: Decoder, dir: Entry, k: nat)
    requires Advances(decode)
    requires dir.Dir?
    requires k < 0x1_0000_0000
    requires RecipientsOf(decode, dir, k).Ok?
    requires RecipientAt(decode, dir, k).Ok?
    ensures RecipientsOf(decode, dir, k + 1) == Ok(RecipientsOf(decode, dir, k).value + [RecipientAt(decode, dir, k).value])
  {
  }

  /** One more turn of the attachment loop appends the attachment read from
      the storage of that index. */
  lemma AttachmentStep(decode: Decoder, dir: Entry, k: nat)
    requires Advances(decode)
    requires dir.Dir?
    requires k < 0x1_0000_0000
    requires AttachmentsOf(decode, dir, k).Ok?
    requires AttachmentAt(decode, dir, k).Ok?
    ensures AttachmentsOf(decode, dir, k + 1) == Ok(AttachmentsOf(decode, dir, k).value + [AttachmentAt(decode, dir, k).value])
  {
  }

  /** A recipient below the recipient count that fails to parse makes the
      whole parse fail. */
  lemma RecipientFailureStops(decode: Decoder, dir: Entry, topLevel: bool, index: nat)
    requires Advances(decode)
    requires dir.Dir?
    requires GetDocument(dir.children, PropertiesStreamName).Ok?
    requires var bytes := GetDocument(dir.children, PropertiesStreamName).value;
             && |bytes| >= HeaderLength(topLevel)
             && index < Iterations(Int32At(bytes, 16))
    requires RecipientAt(decode, dir, index).Fail?
    ensures MessageOf(decode, dir, topLevel).Fail?
  {
    var bytes := GetDocument(dir.children, PropertiesStreamName).value;
    var n := Iterations(DecodeHeader(bytes, topLevel).value.header.recipientCount);
    RecipientsFailAt(decode, dir, index, n);
  }

  /** An attachment below the attachment count that fails to parse, of
      either kind, makes the whole parse fail. */
  lemma AttachmentFailureStops(decode: Decoder, dir: Entry, topLevel: bool, index: nat)
    requires Advances(decode)
    requires dir.Dir?
    requires GetDocument(dir.children, PropertiesStreamName).Ok?
    requires var bytes := GetDocument(dir.children, PropertiesStreamName).value;
             && |bytes| >= HeaderLength(topLevel)
             && index < Iterations(Int32At(bytes, 20))
    requires AttachmentAt(decode, dir, index).Fail?
    ensures MessageOf(decode, dir, topLevel).Fail?
  {
    var bytes := GetDocument(dir.children, PropertiesStreamName).value;
    var n := Iterations(DecodeHeader(bytes, topLevel).value.header.attachmentCount);
    AttachmentsFailAt(decode, dir, index, n);
  }

  /** In particular an indexed recipient or attachment storage that is
      missing, or is a stream rather than a storage, makes the whole parse
      fail. */
  lemma MissingStorageFails(decode: Decoder, dir: Entry, topLevel: bool, index: nat)
    requires Advances(decode)
    requires dir.Dir?
    requires GetDocument(dir.children, PropertiesStreamName).Ok?
    requires var bytes := GetDocument(dir.children, PropertiesStreamName).value;
             && |bytes| >= HeaderLength(topLevel)
             && (|| (index < Iterations(Int32At(bytes, 16)) && GetDirectory(dir.children, RecipientStorageName(index)).Fail?)
                 || (index < Iterations(Int32At(bytes, 20)) && GetDirectory(dir.children, AttachmentStorageName(index)).Fail?))
    ensures MessageOf(decode, dir, topLevel).Fail?
  {
    var bytes := GetDocument(dir.children, PropertiesStreamName).value;
    if index < Iterations(Int32At(bytes, 16)) && GetDirectory(dir.children, RecipientStorageName(index)).Fail? {
      RecipientFailureStops(decode, dir, topLevel, index);
    } else {
      AttachmentFailureStops(decode, dir, topLevel, index);
    }
  }

  /** The embedded-message rule: an attachment storage that holds the
      `__substg1.0_3701000D` entry yields a message attachment, built by
      parsing that entry as a message with a parent; any other storage yields
      a file attachment holding the storage's own records. */
  lemma EmbeddedMessageRule(decode: Decoder, storage: Entry)
    requires Advances(decode)
    requires storage.Dir?
    requires AttachmentOf(decode, storage).Ok?
    ensures AttachmentOf(decode, storage).value.MsgAttachment? <==> EmbeddedMessageMarker in storage.children
    ensures AttachmentOf(decode, storage).value.MsgAttachment? ==>
              && storage.children[EmbeddedMessageMarker].Dir?
              && MessageOf(decode, storage.children[EmbeddedMessageMarker], false)
                 == Ok(AttachmentOf(decode, storage).value.message)
    ensures AttachmentOf(decode, storage).value.FileAttachment? ==>
              EntityProperties(decode, storage.children) == Ok(AttachmentOf(decode, storage).value.properties)
  {
  }

  /** An attachment that parses is read from a storage of its own; it is a
      message attachment exactly when that storage holds the embedded-message
      marker, and the nested message's own records then start after a 24-byte
      header. */
  lemma AttachmentKindAt(decode: Decoder, dir: Entry, index: nat)
    requires Advances(decode)
    requires dir.Dir?
    requires index < 0x1_0000_0000
    requires AttachmentAt(decode, dir, index).Ok?
    ensures var a, name := AttachmentAt(decode, dir, index).value, AttachmentStorageName(index);
            && name in dir.children
            && dir.children[name].Dir?
            && (a.MsgAttachment? <==> EmbeddedMessageMarker in dir.children[name].children)
            && (a.MsgAttachment? ==>
                  var nested := dir.children[name].children[EmbeddedMessageMarker];
                  && nested.Dir?
                  && GetDocument(nested.children, PropertiesStreamName).Ok?
                  && var bytes := GetDocument(nested.children, PropertiesStreamName).value;
                     && |bytes| >= 24
                     && Walk(decode, nested.children, bytes, 24) == Ok(a.message.properties))
  {
    var storage := dir.children[AttachmentStorageName(index)];
    assert AttachmentAt(decode, dir, index) == AttachmentOf(decode, storage);
    EmbeddedMessageRule(decode, storage);
    if AttachmentOf(decode, storage).value.MsgAttachment? {
      MessageLayout(decode, storage.children[EmbeddedMessageMarker], false);
    }
  }

  /** In a successfully parsed message the rule holds for every attachment. */
  lemma AttachmentKinds(decode: Decoder, dir: Entry, topLevel: bool)
    requires Advances(decode)
    requires dir.Dir?
    requires MessageOf(decode, dir, topLevel).Ok?
    ensures |MessageOf(decode, dir, topLevel).value.attachments| < 0x8000_0000
    ensures var m := MessageOf(decode, dir, topLevel).value;
            forall i :: 0 <= i < |m.attachments| ==>
              && AttachmentAt(decode, dir, i) == Ok(m.attachments[i])
              && AttachmentStorageName(i) in dir.children
              && (m.attachments[i].MsgAttachment? <==>
                    EmbeddedMessageMarker in dir.children[AttachmentStorageName(i)].children)
  {
    var m := MessageOf(decode, dir, topLevel).value;
    MessageLayout(decode, dir, topLevel);
    forall i | 0 <= i < |m.attachments|
      ensures AttachmentAt(decode, dir, i) == Ok(m.attachments[i])
      ensures AttachmentStorageName(i) in dir.children
      ensures m.attachments[i].MsgAttachment? <==>
                EmbeddedMessageMarker in dir.children[AttachmentStorageName(i)].children
    {
      AttachmentKindAt(decode, dir, i);
    }
  }

  /** The message of a whole `.msg` file takes its own records from the root
      property stream after a 32-byte header. */
  lemma RootPadding(decode: Decoder, root: Entry)
    requires Advances(decode)
    requires root.Dir?
    requires MessageOf(decode, root, true).Ok?
    ensures GetDocument(root.children, PropertiesStreamName).Ok?
    ensures var bytes := GetDocument(root.children, PropertiesStreamName).value;
            && |bytes| >= 32
            && Walk(decode, root.children, bytes, 32) == Ok(MessageOf(decode, root, true).value.properties)
  {
    MessageLayout(decode, root, true);
  }

  /** A recipient or file attachment takes its records from its own property
      stream, after the 8 reserved bytes and up to the end of the stream, and
      has no more of them than bytes after those 8. */
  lemma EntityLayout(decode: Decoder, storage: map<string, Entry>)
    requires Advances(decode)
    requires EntityProperties(decode, storage).Ok?
    ensures GetDocument(storage, PropertiesStreamName).Ok?
    ensures var bytes := GetDocument(storage, PropertiesStreamName).value;
            && |bytes| >= 8
            && Walk(decode, storage, bytes, 8) == EntityProperties(decode, storage)
            && |EntityProperties(decode, storage).value| <= |bytes| - 8
  {
  }
}
