/**
 * The activity's event handlers as a state machine: the write-mode flag and the
 * pending message are fields that the button and tag events update.
 */
module Activity {
  import opened Java
  import opened Ndef
  import opened Library
  import opened TagIO
  import Hex

  const WritePrompt := "Touch and hold tag against phone to write."

  /** What an intent delivered to the activity carries (`None` for an absent extra). */
  datatype Intent = Intent(mimeType: Option<string>, tag: Option<Tag>, ndefMessages: Option<seq<NdefMessage>>)

  /** The displayed text after a read: a read that shows nothing leaves it as it was. */
  function AfterRead(shown: string, o: ReadOutcome): string {
    if o.Show? then o.text else shown
  }

  class MainActivity {
    /** The library behaviour the activity runs against. */
    const lib: Platform
    /** `MimeType.NFC_MIME`, the media type of the message record. */
    const nfcMime: string

    /** True while the next scanned tag is to be written. */
    var inWriteMode: bool
    /** The message to write; `None` when the NFC box was unchecked. */
    var ndefMessage: Option<NdefMessage>
    /** The text of the `interactionText` view, set by `displayMessage`. */
    var shown: string
    /** Whether foreground dispatch of tag events to this activity is enabled. */
    var dispatchEnabled: bool

    /** A fresh activity: Java's field defaults. */
    constructor (lib: Platform, nfcMime: string)
      ensures this.lib == lib && this.nfcMime == nfcMime
      ensures !inWriteMode && ndefMessage.None? && shown == "" && !dispatchEnabled
    {
      this.lib := lib;
      this.nfcMime := nfcMime;
      inWriteMode := false;
      ndefMessage := None;
      shown := "";
      dispatchEnabled := false;
    }

    /** `onCreate`: a launch intent of the app's own MIME type is read at once. */
    method OnCreate(launch: Intent, key: string) returns (crashed: bool)
      modifies this`shown
      ensures launch.mimeType == Some(nfcMime) ==>
        var o := TagIO.ReadMessage(lib, key, launch.ndefMessages);
        crashed == o.Uncaught? && shown == AfterRead(old(shown), o)
      ensures launch.mimeType != Some(nfcMime) ==> !crashed && shown == old(shown)
    {
      crashed := false;
      if launch.mimeType.Some? && launch.mimeType.value == nfcMime {
        crashed := ReadMessage(launch, key);
      }
    }

    /** `readMessage(intent)` with `key` as the text of the key field. */
    method ReadMessage(intent: Intent, key: string) returns (crashed: bool)
      modifies this`shown
      ensures var o := TagIO.ReadMessage(lib, key, intent.ndefMessages);
        crashed == o.Uncaught? && shown == AfterRead(old(shown), o)
    {
      var outcome := TagIO.ReadMessage(lib, key, intent.ndefMessages);
      crashed := outcome.Uncaught?;
      if outcome.Show? {
        shown := outcome.text;
      }
    }

    /**
     * `onClick` on the write button: arm write mode, then build the pending message.
     * When encryption fails, `createMessage` hands null to `byte2hex`, whose
     * NullPointerException nothing catches.
     */
    method OnClick(key: string, text: string, nfcChecked: bool) returns (crashed: bool)
      modifies this`shown, this`inWriteMode, this`ndefMessage
      ensures inWriteMode && shown == WritePrompt
      ensures crashed <==> EncryptMessage(lib, key, text).None?
      ensures crashed ==> ndefMessage == old(ndefMessage)
      ensures !crashed ==>
                ndefMessage == if nfcChecked then Some(FramedMessage(nfcMime, EncryptMessage(lib, key, text).value)) else None
    {
      shown := WritePrompt;
      inWriteMode := true;
      crashed := CreateMessage(key, text, nfcChecked);
    }

    /** `createMessage`: encrypt, render in hex (unused), frame, hand to `checkPermissions`. */
    method CreateMessage(key: string, text: string, nfcChecked: bool) returns (crashed: bool)
      modifies this`ndefMessage
      ensures crashed <==> EncryptMessage(lib, key, text).None?
      ensures crashed ==> ndefMessage == old(ndefMessage)
      ensures !crashed ==>
                ndefMessage == if nfcChecked then Some(FramedMessage(nfcMime, EncryptMessage(lib, key, text).value)) else None
    {
      var encrypted := EncryptMessage(lib, key, text);
      if encrypted.None? {
        return true;
      }
      var finalMessage := Hex.Byte2Hex(encrypted.value);
      CheckPermissions(FramedMessage(nfcMime, encrypted.value), nfcChecked);
      crashed := false;
    }

    /** `checkPermissions`: the message becomes pending only when the NFC box is checked. */
    method CheckPermissions(potential: NdefMessage, nfcChecked: bool)
      modifies this`ndefMessage
      ensures ndefMessage == if nfcChecked then Some(potential) else None
    {
      if nfcChecked {
        ndefMessage := Some(potential);
      } else {
        ndefMessage := None;
      }
    }

    /**
     * `onNewIntent`: in write mode the event's tag is written and write mode ends only
     * when `writeTag` returns true; otherwise the event is read, and no transport call
     * that changes a tag is made. The pending message is never changed.
     */
    method OnNewIntent(intent: Intent, key: string) returns (call: TransportCall, crashed: bool)
      modifies this`shown, this`inWriteMode
      ensures old(inWriteMode) ==>
        var r := WriteTag(lib, intent.tag, ndefMessage);
        inWriteMode == !r.written && shown == r.notice && call == r.call && !crashed
      ensures !old(inWriteMode) ==>
        var o := TagIO.ReadMessage(lib, key, intent.ndefMessages);
        !inWriteMode && call == NoCall && crashed == o.Uncaught? && shown == AfterRead(old(shown), o)
    {
      if inWriteMode {
        var report := WriteTag(lib, intent.tag, ndefMessage);
        shown := report.notice;
        call := report.call;
        crashed := false;
        if report.written {
          inWriteMode := false;
        }
      } else {
        call := NoCall;
        crashed := ReadMessage(intent, key);
      }
    }

    /** `onResume`: tag events come to this activity first. */
    method OnResume()
      modifies this`dispatchEnabled
      ensures dispatchEnabled
    {
      dispatchEnabled := true;
    }

    /** `onPause`: foreground dispatch stops; write mode and the pending message stay. */
    method OnPause()
      modifies this`dispatchEnabled
      ensures !dispatchEnabled
      ensures inWriteMode == old(inWriteMode) && ndefMessage == old(ndefMessage)
    {
      dispatchEnabled := false;
    }
  }

  /**
   * One session: press the write button, present a tag one byte too small, then a
   * tag that fits, then read the written message back. The small tag is not written
   * and leaves the device armed; the tag that fits receives exactly the framed message
   * and disarms it; the read shows the plaintext again.
   */
  method ArmWriteReadSession(lib: Platform, nfcMime: string, key: string, text: string)
    returns (smallCall: TransportCall, armedAfterSmall: bool, fitCall: TransportCall, armedAfterFit: bool, readBack: string)
    requires CipherInverts(lib)
    requires lib.decodeText(lib.encodeText(text)) == text
    requires EncryptMessage(lib, key, text).Some?
    ensures smallCall == NoCall && armedAfterSmall
    ensures fitCall == WriteNdefCall(FramedMessage(nfcMime, EncryptMessage(lib, key, text).value))
    ensures !armedAfterFit
    ensures readBack == ReadPrefix + text
  {
    var activity := new MainActivity(lib, nfcMime);
    activity.OnResume();
    var crashed := activity.OnClick(key, text, true);
    var m := FramedMessage(nfcMime, EncryptMessage(lib, key, text).value);
    var size := lib.serializedSize(m);
    var small := Intent(None, Some(NdefTag(true, true, size as int - 1, true)), None);
    smallCall, crashed := activity.OnNewIntent(small, key);
    armedAfterSmall := activity.inWriteMode;
    var fits := Intent(None, Some(NdefTag(true, true, size, true)), None);
    fitCall, crashed := activity.OnNewIntent(fits, key);
    armedAfterFit := activity.inWriteMode;
    var scan := Intent(Some(nfcMime), None, Some([m]));
    var _, _ := activity.OnNewIntent(scan, key);
    WriteThenRead(lib, nfcMime, key, text, []);
    assert [] + [m] == [m];
    readBack := activity.shown;
  }
}
