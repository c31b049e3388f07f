/**
 * The two tag procedures of the activity, as functions of the tag and of what the
 * detection event reports: `writeTag` (format-or-write with its checks) and
 * `readMessage` (pick a record, decrypt it, say what happened).
 */
module TagIO {
  import opened Java
  import opened Ndef
  import opened Library

  // The texts `writeTag` and `readMessage` display.
  const ReadOnlyNotice := "Read-only tag."
  const NoPermissionNotice := "Cannot write to NFC tag without permission"
  const NoSpaceNotice := "Tag doesn't have enough free space."
  const WrittenNotice := "Tag written successfully."
  const FormattedNotice := "Tag written successfully!\nClose this app and scan tag."
  const FormatFailedNotice := "Unable to format tag to NDEF."
  const UnsupportedNotice := "Tag doesn't appear to support NDEF format."
  const WriteFailedNotice := "Failed to write tag"
  const ReadPrefix := "The message on this card says:\n"
  // One message; written in two parts only so that proofs can index into it.
  const CannotDecryptNotice := "Message cannot be decrypted! " + "Incorrect key or corrupted message error"

  /**
   * How a transport call on a formatable tag (`connect` or `format`) ends: normally,
   * with an IOException, or with another exception (a SecurityException for a tag
   * that has left the field, say).
   */
  datatype CallOutcome = Returns | ThrowsIOException | ThrowsOther

  /**
   * A scanned tag, as far as `writeTag` can observe it: which technology it offers
   * and how each transport call on it ends.
   */
  datatype Tag =
      /** `Ndef.get(tag) != null`. */
    | NdefTag(connects: bool, writable: bool, maxSize: int, writeSucceeds: bool)
      /** Not NDEF, but `NdefFormatable.get(tag) != null`. */
    | FormatableTag(connectOutcome: CallOutcome, formatOutcome: CallOutcome)
      /** Neither. */
    | UnsupportedTag

  /** The one transport call that changes a tag, if `writeTag` made it. */
  datatype TransportCall =
    | NoCall
    | WriteNdefCall(message: NdefMessage)
    | FormatCall(pending: Option<NdefMessage>)

  /** `writeTag`'s return value, the text it displayed, and the call it made on the tag. */
  datatype WriteReport = WriteReport(written: bool, notice: string, call: TransportCall)

  /** The tag is NDEF, connects, is writable and a message is pending. */
  predicate ReadyForNdefWrite(tag: Option<Tag>, pending: Option<NdefMessage>) {
    tag.Some? && tag.value.NdefTag? && tag.value.connects && tag.value.writable && pending.Some?
  }

  /**
   * `writeTag(tag)` with `pending` as the field `ndefMessage`. An NDEF tag is connected,
   * then checked for writability, then the pending message is measured (a null one
   * throws) and compared with the tag's capacity, and only then written. A tag that is
   * not NDEF but formatable is connected and formatted with the pending message; an
   * IOException from either call is caught there. Any other exception, including a
   * null tag, ends in "Failed to write tag".
   */
  function WriteTag(lib: Platform, tag: Option<Tag>, pending: Option<NdefMessage>): (r: WriteReport)
    // `writeNdefMessage` is called exactly when the tag is ready and the message fits
    ensures r.call.WriteNdefCall? <==>
      ReadyForNdefWrite(tag, pending) && !(tag.value.maxSize < lib.serializedSize(pending.value))
    ensures r.call.WriteNdefCall? ==> r.call.message == pending.value
    // a failing `connect` or `writeNdefMessage` on an NDEF tag ends in the outer catch
    ensures tag.Some? && tag.value.NdefTag? && !tag.value.connects ==>
      r == WriteReport(false, WriteFailedNotice, NoCall)
    ensures r.call.WriteNdefCall? && !tag.value.writeSucceeds ==> r.notice == WriteFailedNotice
    // the capacity gate
    ensures ReadyForNdefWrite(tag, pending) && tag.value.maxSize < lib.serializedSize(pending.value) ==>
      r == WriteReport(false, NoSpaceNotice, NoCall)
    ensures tag.Some? && tag.value.NdefTag? && tag.value.connects && !tag.value.writable ==>
      r == WriteReport(false, ReadOnlyNotice, NoCall)
    ensures tag.Some? && tag.value.NdefTag? && tag.value.connects && tag.value.writable && pending.None? ==>
      r == WriteReport(false, NoPermissionNotice, NoCall)
    // `format` is called with the pending message, null or not, on every formatable tag whose `connect` returns
    ensures r.call.FormatCall? <==> tag.Some? && tag.value.FormatableTag? && tag.value.connectOutcome == Returns
    ensures r.call.FormatCall? ==> r.call.pending == pending
    // only an IOException from `connect` or `format` is caught inside; any other goes to the outer catch
    ensures tag.Some? && tag.value.FormatableTag? && tag.value.connectOutcome == ThrowsIOException ==>
      r == WriteReport(false, FormatFailedNotice, NoCall)
    ensures tag.Some? && tag.value.FormatableTag? && tag.value.connectOutcome == ThrowsOther ==>
      r == WriteReport(false, WriteFailedNotice, NoCall)
    ensures r.call.FormatCall? && tag.value.formatOutcome == ThrowsIOException ==> r.notice == FormatFailedNotice
    ensures r.call.FormatCall? && tag.value.formatOutcome == ThrowsOther ==> r.notice == WriteFailedNotice
    // true only after a successful NDEF write or a successful format
    ensures r.written <==>
      (r.call.WriteNdefCall? && tag.value.writeSucceeds) ||
      (r.call.FormatCall? && tag.value.formatOutcome == Returns)
    ensures r.written <==> r.notice in {WrittenNotice, FormattedNotice}
    // each success has its own text: the format one asks for the tag to be scanned again
    ensures r.written && r.call.WriteNdefCall? ==> r.notice == WrittenNotice
    ensures r.written && r.call.FormatCall? ==> r.notice == FormattedNotice
    ensures tag == Some(UnsupportedTag) ==> r == WriteReport(false, UnsupportedNotice, NoCall)
    ensures tag.None? ==> r == WriteReport(false, WriteFailedNotice, NoCall)
  {
    match tag
    case None => WriteReport(false, WriteFailedNotice, NoCall)
    case Some(NdefTag(connects, writable, maxSize, writeSucceeds)) =>
      if !connects then WriteReport(false, WriteFailedNotice, NoCall)
      else if !writable then WriteReport(false, ReadOnlyNotice, NoCall)
      else if pending.None? then WriteReport(false, NoPermissionNotice, NoCall)
      else if maxSize < lib.serializedSize(pending.value) then WriteReport(false, NoSpaceNotice, NoCall)
      else if !writeSucceeds then WriteReport(false, WriteFailedNotice, WriteNdefCall(pending.value))
      else WriteReport(true, WrittenNotice, WriteNdefCall(pending.value))
    case Some(FormatableTag(connectOutcome, formatOutcome)) =>
      (match connectOutcome
       case ThrowsIOException => WriteReport(false, FormatFailedNotice, NoCall)
       case ThrowsOther => WriteReport(false, WriteFailedNotice, NoCall)
       case Returns =>
         (match formatOutcome
          case Returns => WriteReport(true, FormattedNotice, FormatCall(pending))
          case ThrowsIOException => WriteReport(false, FormatFailedNotice, FormatCall(pending))
          case ThrowsOther => WriteReport(false, WriteFailedNotice, FormatCall(pending))))
    case Some(UnsupportedTag) => WriteReport(false, UnsupportedNotice, NoCall)
  }

  /** What `readMessage` leads to: nothing, a displayed text, or an uncaught exception. */
  datatype ReadOutcome = Silent | Show(text: string) | Uncaught

  /**
   * `readMessage` on the message array the event reports (`None` for a null array):
   * the last message's first record is decrypted with `key`; any exception from the
   * decryption becomes one fixed text.
   */
  function ReadMessage(lib: Platform, key: string, rawMsgs: Option<seq<NdefMessage>>): (r: ReadOutcome)
    ensures r == Silent <==> rawMsgs == Some([])
    ensures r == Uncaught <==>
      rawMsgs.None? || (|rawMsgs.value| > 0 && rawMsgs.value[|rawMsgs.value| - 1].records == [])
    ensures r.Show? ==>
      var records := rawMsgs.value[|rawMsgs.value| - 1].records;
      match DecryptMessage(lib, key, Payload(records[0]))
      case None => r.text == CannotDecryptNotice
      case Some(plain) => r.text == ReadPrefix + lib.decodeText(plain) && r.text != CannotDecryptNotice
  {
    match rawMsgs
    case None => Uncaught
    case Some(msgs) =>
      if |msgs| == 0 then Silent
      else
        var records := msgs[|msgs| - 1].records;
        if |records| == 0 then Uncaught
        else
          match DecryptMessage(lib, key, Payload(records[0]))
          case None => Show(CannotDecryptNotice)
          case Some(plain) =>
            var text := ReadPrefix + lib.decodeText(plain);
            assert text[0] == ReadPrefix[0] == 'T';
            assert CannotDecryptNotice[0] == 'M';
            Show(text)
  }

  /** Only the last of several co-reported messages is read; earlier ones are ignored. */
  lemma LastMessageWins(lib: Platform, key: string, earlier: seq<NdefMessage>, last: NdefMessage)
    ensures ReadMessage(lib, key, Some(earlier + [last])) == ReadMessage(lib, key, Some([last]))
  {
  }

  /**
   * A message framed as by `createMessage` around `encryptMessage(key, text)` reads back,
   * under the same key, as `text`, whatever was reported before it, provided the cipher
   * inverts itself and the default charset round-trips `text`.
   */
  lemma WriteThenRead(lib: Platform, mime: string, key: string, text: string, earlier: seq<NdefMessage>)
    requires CipherInverts(lib)
    requires lib.decodeText(lib.encodeText(text)) == text
    requires EncryptMessage(lib, key, text).Some?
    ensures ReadMessage(lib, key, Some(earlier + [FramedMessage(mime, EncryptMessage(lib, key, text).value)]))
      == Show(ReadPrefix + text)
  {
    var k, plain := lib.encodeText(key), lib.encodeText(text);
    assert lib.aesEncrypt(k, plain).Some?;
  }
}
