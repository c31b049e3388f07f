# Encrypted NFC messages: a verified model of `MainActivity`

The Android app writes an AES-encrypted text message onto an NFC tag and reads it back.
All of its logic is in one activity, `MainActivity`. This project models the parts of it that
are not UI plumbing, and proves properties about them:

- `byte2hex`, the hex renderer (module `Hex`). It is a loop method, `Hex.Byte2Hex`, proved equal to
  a recursive specification `Hex.Hex`. Lemmas prove the length, the alphabet and the position of
  each byte's digits, and that `Hex.Unhex` decodes the output (so the rendering is injective).
- The NDEF frame `createMessage` builds (module `Ndef`). It is a MIME-media record carrying the
  encrypted payload, followed by the Android Application Record for `edu.luc.cs.rvetter.NFC`.
- `writeTag` and `readMessage` (module `TagIO`). Each is a pure function over an abstract tag or
  the reported message array. `writeTag` returns what the Java method returns, the text it
  displays, and the one tag-changing transport call it made (`writeNdefMessage` or `format`),
  if any.
- The activity's state (module `Activity`). The class `MainActivity` holds the fields
  `inWriteMode` and `ndefMessage`, the displayed text, and whether foreground dispatch is on.
  Its methods `OnClick`, `CreateMessage`, `CheckPermissions`, `OnNewIntent`, `ReadMessage`,
  `OnCreate`, `OnResume` and `OnPause` update those fields as the Java handlers do.
  `ArmWriteReadSession` runs one session on a fresh activity and proves its outcome.

Foreign behaviour is a value of the datatype `Library.Platform`, and every result holds for any
such value. That covers the default charset (`getBytes()`, `new String(bytes)`), AES
encryption and decryption (`None` where javax.crypto throws) and `NdefMessage.toByteArray().length`.
`Library.EncryptMessage` and `Library.DecryptMessage` model `encryptMessage` and `decryptMessage`
on top of it. The round trip `TagIO.WriteThenRead` needs `Library.CipherInverts` (AES decryption
undoes AES encryption under the same key) and a charset that round-trips the text.

Behaviour of the code worth noting:

- `onPause` does not clear write mode or the pending message.
- While write mode is on, every tag event goes to `writeTag`. No read happens then.
- A failed write (read-only tag, too small, no pending message, I/O error) leaves the device
  armed. Only a `writeTag` that returns true clears write mode.
- No key-length check exists in the activity. Any key failure happens inside the cipher library,
  and the model folds it into the cipher's `None`.
- An empty message array on a read shows nothing (`Silent`). No "no record" error exists.
- When encryption fails, `encryptMessage` returns null and `createMessage` passes it to
  `byte2hex`. The uncaught NullPointerException ends the activity (`crashed` in `OnClick`).
  A null message array in `readMessage` does the same (`Uncaught`).
- A formatable tag is formatted even when the pending message is null. `writeTag` then reports
  success.

## Model

| member | source | states |
|---|---|---|
| Hex.Unsigned | NFC/src/main/java/edu/luc/cs/rvetter/NFC/MainActivity.java:201 | `b & 0xFF` is the one value in 0..255 congruent to the signed byte modulo 256 |
| Hex.ToHexString | NFC/src/main/java/edu/luc/cs/rvetter/NFC/MainActivity.java:201 | `Integer.toHexString(n)` consists of lower-case hex digits only, denotes `n`, has a leading '0' only for zero, and is one digit exactly when `n < 16` |
| Hex.ToUpper | NFC/src/main/java/edu/luc/cs/rvetter/NFC/MainActivity.java:209 | upper-casing keeps the length and turns the lower-case digit of each hex value into the upper-case digit of the same value |
| Hex.Byte2Hex | NFC/src/main/java/edu/luc/cs/rvetter/NFC/MainActivity.java:197-210 | the padding loop followed by upper-casing yields exactly the two-digit-per-byte rendering `Hex(b)` |
| Hex.HexLength | NFC/src/main/java/edu/luc/cs/rvetter/NFC/MainActivity.java:200-208 | the rendering is exactly twice as long as the byte array |
| Hex.HexAt | NFC/src/main/java/edu/luc/cs/rvetter/NFC/MainActivity.java:201-207 | characters 2i and 2i+1 are the high and low upper-case digits of the unsigned value of byte i |
| Hex.HexAlphabet | NFC/src/main/java/edu/luc/cs/rvetter/NFC/MainActivity.java:201-209 | only 0-9 and A-F occur in the rendering |
| Hex.UnhexHex | NFC/src/main/java/edu/luc/cs/rvetter/NFC/MainActivity.java:197-210 | decoding the rendering gives back the original bytes |
| Hex.HexInjective | NFC/src/main/java/edu/luc/cs/rvetter/NFC/MainActivity.java:197-210 | two byte arrays with the same rendering are equal |
| Ndef.AsciiBytes | NFC/src/main/java/edu/luc/cs/rvetter/NFC/MainActivity.java:187 | US-ASCII encoding gives one byte per character, and every byte is a non-negative (7-bit) value |
| Ndef.AsciiInjective | NFC/src/main/java/edu/luc/cs/rvetter/NFC/MainActivity.java:187 | two all-ASCII MIME type strings with the same US-ASCII bytes are equal |
| Ndef.FramedMessage | NFC/src/main/java/edu/luc/cs/rvetter/NFC/MainActivity.java:184-190 | the frame has two records: first a MIME record of the app's type, with no id, whose payload is the encrypted bytes; second the application record for `edu.luc.cs.rvetter.NFC` |
| Library.EncryptMessage | NFC/src/main/java/edu/luc/cs/rvetter/NFC/MainActivity.java:212-234 | the AES call on the default-charset bytes of key and text, `None` where javax.crypto throws; a result it returns decrypts, under the same key bytes, to the text's bytes when AES inverts itself |
| Library.DecryptMessage | NFC/src/main/java/edu/luc/cs/rvetter/NFC/MainActivity.java:104-115 | AES decryption of the payload under the default-charset bytes of the key (`generateKey`), `None` where javax.crypto throws; a payload `encryptMessage` made under the same key decrypts to the text's bytes when AES inverts itself |
| TagIO.WriteTag | NFC/src/main/java/edu/luc/cs/rvetter/NFC/MainActivity.java:266-318 | true only after a successful NDEF write or format. A successful NDEF write shows "Tag written successfully."; a successful format shows "Tag written successfully!\nClose this app and scan tag.". `writeNdefMessage` is called, with the pending message, exactly when an NDEF tag connects, is writable, a message is pending and `maxSize < size` is false. A too-small, read-only or no-message NDEF tag gets its fixed notice and no call. `format` is called with the pending message, null or not, on each formatable tag whose `connect` returns. An IOException from `connect` or `format` shows "Unable to format tag to NDEF."; any other exception there, a failed NDEF `connect` and a throwing `writeNdefMessage` show "Failed to write tag". Unsupported and null tags fail without a call |
| TagIO.ReadMessage | NFC/src/main/java/edu/luc/cs/rvetter/NFC/MainActivity.java:82-102 | nothing is shown exactly when the array is empty. An uncaught exception happens exactly when the array is null or the last message has no records. Otherwise the first record of the last message is decrypted. A decryption failure shows the fixed error text; a success shows the prefix and the decoded plaintext, never the error text |
| TagIO.LastMessageWins | NFC/src/main/java/edu/luc/cs/rvetter/NFC/MainActivity.java:84-87 | messages reported before the last one do not affect the read |
| TagIO.WriteThenRead | NFC/src/main/java/edu/luc/cs/rvetter/NFC/MainActivity.java:82-115 | a frame around `encryptMessage(key, text)` reads back under the same key as `text`, if AES inverts itself and the charset round-trips the text |
| Activity.MainActivity.constructor | NFC/src/main/java/edu/luc/cs/rvetter/NFC/MainActivity.java:33-53 | a new activity is not in write mode, has no pending message and no foreground dispatch |
| Activity.MainActivity.OnCreate | NFC/src/main/java/edu/luc/cs/rvetter/NFC/MainActivity.java:66-69 | a launch intent of the app's MIME type is read as `readMessage` reads it; any other launch changes nothing |
| Activity.MainActivity.ReadMessage | NFC/src/main/java/edu/luc/cs/rvetter/NFC/MainActivity.java:82-102 | the displayed text becomes the read's text, and stays as it was when nothing is shown |
| Activity.MainActivity.OnClick | NFC/src/main/java/edu/luc/cs/rvetter/NFC/MainActivity.java:119-125 | the write button arms write mode, shows the prompt and replaces the pending message. A failed encryption crashes and leaves the old message |
| Activity.MainActivity.CreateMessage | NFC/src/main/java/edu/luc/cs/rvetter/NFC/MainActivity.java:177-194 | the pending message becomes the frame around the encrypted text, or none; it crashes exactly when encryption fails |
| Activity.MainActivity.CheckPermissions | NFC/src/main/java/edu/luc/cs/rvetter/NFC/MainActivity.java:252-260 | the message is pending if the NFC box is checked, and null otherwise |
| Activity.MainActivity.OnNewIntent | NFC/src/main/java/edu/luc/cs/rvetter/NFC/MainActivity.java:143-155 | in write mode the tag is written and write mode ends exactly when `writeTag` returns true. Otherwise the read path runs, write mode stays off and no tag-changing call is made. The pending message never changes |
| Activity.MainActivity.OnResume | NFC/src/main/java/edu/luc/cs/rvetter/NFC/MainActivity.java:127-131 | foreground dispatch is enabled |
| Activity.MainActivity.OnPause | NFC/src/main/java/edu/luc/cs/rvetter/NFC/MainActivity.java:133-137 | foreground dispatch is disabled; write mode and the pending message are unchanged |
| Activity.ArmWriteReadSession | NFC/src/main/java/edu/luc/cs/rvetter/NFC/MainActivity.java:143-155 | after the write button, a tag one byte too small gets no write and the device stays armed. A tag that fits receives exactly the framed message and disarms it. Reading that message back shows the original text |

## Left out

- AES itself (`SecretKeySpec`, `Cipher.getInstance("AES")`, `doFinal`) is an uninterpreted field of `Library.Platform`. The model does not capture block size, padding or key-size rules.
- The default charset of `getBytes()` and `new String(bytes)` is uninterpreted, and so is `NdefMessage.toByteArray()`. Only its length is used.
- The byte layout of the Android Application Record is not modelled. Its payload is taken to be the package name in ASCII, which is what Android writes for this ASCII package name.
- `MimeType.java`, which defines `NFC_MIME`, is not part of this model. The type is a constructor parameter of `MainActivity`.
- `setNdefPushMessage` (Android Beam) in `checkPermissions` is not modelled, and neither is its checkbox.
- `enableForegroundDispatch` and `disableForegroundDispatch` are modelled only as the flag `dispatchEnabled`. Which events the OS then delivers is not modelled.
- `findViewById`, the `v.getId()` test in `onClick`, the `NfcAdapter` lookup (null on a device without NFC) and the widgets are not modelled. The key, the message text and the NFC checkbox are method parameters.
- Hex.ToUpper: models `String.toUpperCase()` on ASCII letters only, because only the digits 0-9 and a-f reach it here.
- Ndef.AsciiBytes: its contract states only the length and the 7-bit range of the bytes; which byte each character gets is left to its definition. A Dafny string holds Unicode scalar values, so it cannot hold a lone surrogate, which Java would encode as '?'. The model does not cover such strings.
- Android's `NdefMessage` refuses an empty record array, so a reported message always has a first record. The model allows an empty one, and the `Uncaught` case of `TagIO.ReadMessage` for it never arises on a device.
- An uncaught exception is reported as `crashed` (or `Uncaught`); what Android does after it is not modelled.
