/**
 * NFC Data Exchange Format (NDEF) messages as the activity builds and reads them:
 * an ordered list of records, and the two-record frame `createMessage` puts around
 * an encrypted payload.
 */
module Ndef {
  import opened Java

  /** The package name the application record names. */
  const AppPackage := "edu.luc.cs.rvetter.NFC"

  /** The US-ASCII code of '?', written for every character US-ASCII cannot encode. */
  const QuestionMark: JByte := 63

  predicate IsAscii(s: string) {
    forall i :: 0 <= i < |s| ==> s[i] as int < 128
  }

  /**
   * `s.getBytes(Charset.forName("US-ASCII"))`: one 7-bit byte per character; a character
   * outside US-ASCII becomes '?'.
   */
  function AsciiBytes(s: string): (b: Bytes)
    ensures |b| == |s|
    ensures forall i :: 0 <= i < |b| ==> 0 <= b[i]
  {
    seq(|s|, i requires 0 <= i < |s| => if s[i] as int < 128 then s[i] as int as JByte else QuestionMark)
  }

  /** Different US-ASCII strings encode to different bytes. */
  lemma AsciiInjective(s: string, t: string)
    requires IsAscii(s) && IsAscii(t)
    requires AsciiBytes(s) == AsciiBytes(t)
    ensures s == t
  {
    forall i | 0 <= i < |s|
      ensures s[i] == t[i]
    {
      assert s[i] as int == AsciiBytes(s)[i] as int == t[i] as int;
    }
  }

  /** A record of an NDEF message. */
  datatype NdefRecord =
      /** `new NdefRecord(TNF_MIME_MEDIA, type, id, payload)`: opaque payload of a media type. */
    | MimeRecord(mimeType: Bytes, id: Bytes, payload: Bytes)
      /** `NdefRecord.createApplicationRecord(packageName)`: an Android Application Record. */
    | ApplicationRecord(packageName: string)
      /** Any other record a tag written elsewhere may carry. */
    | OtherRecord(tnf: nat, recordType: Bytes, id: Bytes, payload: Bytes)

  /** `getPayload()`: the application record carries its package name as text. */
  function Payload(r: NdefRecord): Bytes {
    match r
    case MimeRecord(_, _, p) => p
    case ApplicationRecord(name) => AsciiBytes(name)
    case OtherRecord(_, _, _, p) => p
  }

  /** An NDEF message: its records in order. */
  datatype NdefMessage = NdefMessage(records: seq<NdefRecord>)

  /**
   * The message `createMessage` frames around an encrypted payload: a MIME-media
   * record of type `mime` (its US-ASCII bytes, no id) carrying the payload, then the
   * application record for this app.
   */
  function FramedMessage(mime: string, payload: Bytes): (m: NdefMessage)
    ensures |m.records| == 2
    ensures m.records[0].MimeRecord? && m.records[0].mimeType == AsciiBytes(mime) && m.records[0].id == []
    ensures Payload(m.records[0]) == payload
    ensures m.records[1].ApplicationRecord? && m.records[1].packageName == AppPackage
  {
    NdefMessage([MimeRecord(AsciiBytes(mime), [], payload), ApplicationRecord(AppPackage)])
  }
}
