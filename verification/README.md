# yii2-mailjet: a Dafny model of the message and the mailer

This project models the data-shaping and validation core of the yii2-mailjet
adapter, a Yii2 mailer that sends through the Mailjet API. It covers two
classes.

- `Message` (module `Messages`, `message.dfy`) is the outgoing e-mail. Its
  setters coerce loosely typed arguments into fixed shapes:
  - a bare address becomes a one-entry recipient array;
  - `setFrom` builds the `FromEmail`/`FromName` sender record;
  - the four attach/embed operations append
    `{Content-type, Filename, content}` records to one of two ordered lists;
  - `toString` renders a short text summary.
- `Mailer` (`mailer.dfy` and `tracking.dfy`) does four things:
  - validates the API key and secret, and runs the credential checks of
    `init`;
  - turns a message into the request body that `sendMessage` posts;
  - keeps the event-tracking map filled by `setTracking`;
  - decides the outcome of `activateTracking` from the provider's answers
    to the request it posts, and guards `clearTracking`.

Two supporting modules hold the PHP runtime behaviour the adapter relies on:

- `php.dfy` covers:
  - string-keyed arrays as ordered association lists;
  - `$a[$k] = $v`;
  - `array_merge`;
  - `empty()` on strings;
  - `trim()`;
  - `implode()`.
- `base64.dfy` covers `base64_encode`, following section 4 of RFC 4648. A
  decoder is included so that the encoding can be shown to lose nothing.
  It refuses padded input whose unused bits are not zero, as section 3.5 of
  RFC 4648 allows, so it accepts exactly the encoder's outputs.

`results.dfy` holds the `Option`, `Result` and `Outcome` types. These stand
in for `null` and for thrown exceptions.

Calls into code outside the adapter are replaced by parameters:

- the Mailjet client's `post`, `get` and `delete`;
- the URL validator;
- MIME-type detection;
- reading a file.

Each operation is a pure function of the old state and its arguments and
returns the new state. The one exception is `setTracking`, which is a method
with a loop, because the source stores one entry at a time.

Where the code and its documentation disagree, the model follows the code:

- `setTracking` applies its entries one at a time. An entry that is rejected
  leaves the entries before it stored; the call is not all-or-nothing.
- `setFrom` with a bare address overwrites `FromEmail` only. A `FromName`
  set earlier survives.
- The attach/embed option that overrides the MIME type is the key
  `Content-type`.
- `init` tests `!$apikey`, so a key that trims to `"0"` is accepted by
  `setApikey` and then refused by `init` (`Mailer.InitAfterSetters`).

## Model

| member | source | states |
|---|---|---|
| Php.Set | Mailer.php:210 | `$a[$k] = $v`: the key then maps to the new value and every other key keeps its value. An existing key keeps its position; a new key is appended. Distinct keys are preserved. |
| Php.Merge | Mailer.php:188 | `array_merge` for string keys: a key of the second array maps to that array's value, and any other key to the first array's value. The key set is the union, the first array's keys come first in order, and distinct keys are preserved. |
| Php.MergeSnoc | Mailer.php:202-210 | Merging one more entry equals merging the rest and then assigning that entry. This is why a loop of assignments computes `array_merge`. |
| Php.LookupEntry | Mailer.php:210 | In an array with distinct keys, looking up any entry's key finds that entry's value. |
| Php.Trim | Mailer.php:86 | `trim()` returns a slice of its input with only trim characters outside it, and the result neither starts nor ends with one. |
| Php.TrimEmptyIff | Mailer.php:86-87 | `trim()` gives the empty string exactly when every character is a trim character. |
| Php.TrimIdempotent | Mailer.php:105 | Trimming twice is trimming once, so a stored credential is already trimmed. |
| Php.Join | Mailer.php:166 | `implode` of no parts is `""`, and of one part is that part. With `JoinAppend` this fixes its value for every list. |
| Php.JoinAppend | Mailer.php:166 | `implode` over two non-empty lists is the two joins with one separator between them. |
| Php.JoinLength | Mailer.php:166 | The length of `implode` is the parts' total length plus one separator between each neighbouring pair. |
| Base64.Encode | Message.php:210 | `base64_encode` yields 4·⌈n/3⌉ characters, each a digit of the RFC 4648 alphabet or the pad `=`. |
| Base64.RoundTrip | Message.php:210 | Decoding the encoding of any byte string gives that byte string back. |
| Base64.EncodeInjective | Message.php:197 | No two byte strings share an encoding. |
| Base64.QuantumCanonical | Message.php:210 | A four-character group the decoder accepts is exactly what the encoder writes for the bytes it decodes to. |
| Base64.DecodeCanonical | Message.php:210 | Whatever the decoder accepts is the encoding of the bytes it decodes to, so the decoder accepts nothing but the encoder's output. |
| Base64.DecodeIff | Message.php:210 | A string decodes to a byte string exactly when it is that byte string's encoding. |
| Base64.NonZeroPaddingRefused | Message.php:210 | `"QR=="`, whose unused bits are not zero, is refused; the byte 65 encodes as `"QQ=="`. |
| Messages.SetText | Message.php:48-188 | `setCharset`, `setReplyTo`, `setSubject`, `setTextBody` and `setHtmlBody` store their argument verbatim, so the matching getter returns it. No other field changes, and a well-formed message stays well-formed. |
| Messages.SetTextCallAsWritten | Message.php:48-50 | A simple-setter call as written gives a pair. The first part is the message after the call, which is `SetText`'s result for every setter, so the value is stored even by `setCharset`. The second part is the value the call evaluates to: that same message, or `null` exactly for `setCharset`. |
| Messages.CharsetNotFluent | Message.php:48-50 | A chain that starts with `setCharset` has no message to continue with; one that starts with `setSubject` has the updated message. |
| Messages.SetTextOverwrites | Message.php:155-188 | Setting a field twice keeps only the second value. Setting two different fields gives the same message in either order. |
| Messages.SetFrom | Message.php:62-74 | An array replaces the whole sender record with exactly the keys `FromEmail` and `FromName`, in that order. `FromEmail` is its first key and `FromName` its first value, or both are `null` for an empty array. A bare address overwrites `FromEmail` only and keeps the earlier `FromName`. No other field changes, and a well-formed message stays well-formed. |
| Messages.Recipients | Message.php:87-89 | A bare address becomes the one-entry array `{address: ''}`; an array is taken verbatim. |
| Messages.SetTo | Message.php:86-92 | `to` is replaced, not merged: it becomes `{address: ''}` for a bare address or the array itself. Nothing else changes, and well-formedness is kept. |
| Messages.SetCc | Message.php:119-125 | The same as `SetTo`, for `cc`. |
| Messages.SetBcc | Message.php:137-143 | The same as `SetTo`, for `bcc`. |
| Messages.OptionOr | Message.php:208-209 | `isset($options[k]) ? $options[k] : default`. An option set to a string wins; a missing or `null` option gives the default. |
| Messages.Basename | Message.php:196 | `basename()` has no slash in it and is a whole segment of the path. The segment ends at the last character that is not a slash, and only slashes follow it. |
| Messages.BasenameUnique | Message.php:196 | Any slash-free whole segment that ends at the last character that is not a slash is `basename()`'s result, so the description above fixes the result. |
| Messages.NewAttachment | Message.php:207-211 | The record's type and file name are the options' values or the defaults, and its content is the base 64 encoding of the given bytes, which decodes back to them. |
| Messages.AttachContent | Message.php:206-214 | Exactly one record is appended to the attachments, and the earlier records are kept in order. It is typed `text/plain` and named `attachment.txt` unless the options override them. Its content is the encoding of the input and decodes back to it. Nothing else changes. |
| Messages.Attach | Message.php:193-201 | As `AttachContent`, but the default type is the detected MIME type, the default name is the path's base name, and the content is the encoding of the file's bytes. |
| Messages.EmbedContent | Message.php:232-240 | The same record as `AttachContent`, appended to the inline attachments only, with the regular attachments unchanged. The returned name is the record's `Filename`. |
| Messages.Embed | Message.php:219-227 | As `EmbedContent`, with the detected type and the base name as defaults. It returns the record's `Filename`. |
| Messages.LinesRoundTrip | Message.php:245-249 | Splitting a string at line breaks and joining the pieces with `"\n"` gives it back. |
| Messages.LinesSplit | Message.php:246-248 | Splitting two texts joined by a line break gives the lines of the first, then the lines of the second. |
| Messages.ToString | Message.php:245-249 | For every message, the lines of `toString` are the lines of the comma-joined names of `to`, then those of the subject, then those of the text body. Since joining the lines with `"\n"` restores the text (`LinesRoundTrip`), this fixes the result. When the names and the subject hold no line break, each of them is exactly one line. |
| Mailer.CheckCredential | Mailer.php:100-109 | A non-string is refused with its type name. A string is accepted exactly when it has a character other than a trim character, and the stored value is its trimmed slice. |
| Mailer.SetApikey | Mailer.php:100-110 | On success only the key changes, to the trimmed value; otherwise the error is the check's error. |
| Mailer.SetSecret | Mailer.php:80-92 | On success only the secret changes, to the trimmed value; otherwise the error is the check's error, with the secret's own type name. |
| Mailer.SetSecretAsWritten | Mailer.php:80-92 | A string secret gives exactly `SetSecret`'s result, success or error. A non-string secret is refused, but the reported type is always `"NULL"`. |
| Mailer.SecretTypeMisreported | Mailer.php:83-84 | An integer secret is reported as `"NULL"`, while `setApikey` and the corrected `SetSecret` report `"integer"`. |
| Mailer.Init | Mailer.php:58-64 | `init` passes exactly when both credentials are set and neither is `""` or `"0"`. A falsy key is reported as the key's error; with a good key, a falsy secret is reported as the secret's error. |
| Mailer.InitUnconfigured | Mailer.php:58-60 | A mailer never given credentials fails on its key. |
| Mailer.InitAfterSetters | Mailer.php:58-64 | After both setters succeed, `init` passes exactly when neither trimmed value is `"0"`. |
| Mailer.RenderAddress | Mailer.php:136-142 | A recipient ends in `<email>`. It starts with `"` exactly when the name is not empty in PHP's sense, so a name of `"0"` gets no quoted prefix. The name then sits between the quotes. |
| Mailer.RenderAll | Mailer.php:136-159 | One rendering per recipient, in the array's order. |
| Mailer.AddressListAppend | Mailer.php:166 | The `To` value for `to + more` is the value for `to`, then `", "`, then the value for `more`. |
| Mailer.PresentLookup | Mailer.php:162-186 | Each conditional assignment is found with its value when its condition holds and is absent otherwise, and the assigned keys are distinct. |
| Mailer.MessageBody | Mailer.php:162-186 | `Subject`, `Text-part`, `Html-part` and `To` are always present, with `To` the `", "`-join of the rendered recipients. `Cc`, `Bcc`, `Attachments` and `Inline_attachments` are present exactly when their source is not empty, carrying the join or the list unchanged. `Headers` is `{Reply-to: replyTo}` exactly when `replyTo` is not empty. Keys are distinct and from that set only. |
| Mailer.SenderEntries | Mailer.php:188 | The sender record's keys and values, carried over unchanged and in order. |
| Mailer.RequestBody | Mailer.php:188 | The posted body: a body key has the body's value, any other key the sender's. The sender's keys come first, and keys stay distinct. |
| Mailer.RequestBodyShape | Mailer.php:162-188 | For a well-formed message, `To` is the joined list and each optional key is present exactly when its source is not empty. `FromEmail` and `FromName` are the sender's. |
| Mailer.SingleNamedRecipient | Mailer.php:136-142 | One named recipient gives `To = "Alice" <a@x.com>`; no `Cc`, `Bcc` or `Headers` appear when those fields are empty. |
| Mailer.UnnamedCcRecipient | Mailer.php:144-150 | A recipient with an empty name gives the bare `<b@x.com>`. |
| Tracking.CheckEntry | Mailer.php:204-213 | An entry passes exactly when its event is one of the seven allowed events and its URL is valid. An unknown event is reported as unsupported before the URL is looked at. |
| Tracking.FirstRejected | Mailer.php:202-214 | The index of the first rejected entry: every entry before it passes, and the entry at it fails. |
| Tracking.SetTracking | Mailer.php:195-219 | A non-array leaves the map unchanged and raises. Otherwise the map becomes the old map merged with the entries before the first rejected one. The error, if any, is that entry's. Supplied entries are stored with their URLs; keys not supplied keep their values. Distinct keys are preserved, and a map holding only allowed events with valid URLs keeps that property even when the call fails. |
| Tracking.TrackedSet | Mailer.php:204-210 | Storing an allowed event with a valid URL keeps the map tracked. |
| Tracking.CallbackRequest | Mailer.php:232-235 | The activation request carries exactly `EventType` and `Url`, with the given values. |
| Tracking.ActivateTracking | Mailer.php:230-255 | The result is true when posting the request for the event and URL creates the callback, or when the callback already registered for the event has the requested URL, where `null` equals only `""`. Otherwise it raises, asking for the old callback to be cleared. |
| Tracking.ActivateAll | Mailer.php:220-228 | It succeeds exactly when every stored event activates, in order. Otherwise the error is the first failing event's. |
| Tracking.ActivateAllRegistered | Mailer.php:220-255 | When the provider already holds every stored event with its stored URL, activating them all succeeds. A failure always points at an event registered under another URL. |
| Tracking.ClearTracking | Mailer.php:264-274 | An event is refused exactly when it is not allowed; otherwise it is the event whose callback is deleted. |
| Tracking.ClearAll | Mailer.php:257-262 | It succeeds exactly when every stored event is allowed, and then deletes them in stored order. Otherwise the error names the first event that is not allowed. |
| Tracking.ClearAllTracked | Mailer.php:257-268 | A map filled by `setTracking` is always cleared in full, in stored order. |

The getters are plain field reads of the `Message` record. `Messages.Get`
models the five text getters (`getCharset`, `getReplyTo`, `getSubject`,
`getTextBody`, `getHtmlBody`), and `SetText`'s contract is stated through it.
The address and attachment getters read the record's fields directly.

## Left out

- The Mailjet client: `createMailjet`, the `post`/`get`/`delete` calls, `Response::success`, `getData` and `getResponse`. These belong to a vendor library. Their answers enter only as the `Provider` parameter of `activateTracking`: whether a post creates the callback, and the URL registered for an event. The value `sendMessage` returns is the provider's verdict and is not modelled; the body it posts is.
- `init`'s exception translation and `Yii::error` logging (Mailer.php:66-71). These are logging and foreign construction.
- `UrlValidator::validate` is the parameter `validUrl`; `FileHelper::getMimeType` is the parameter `detectedType`.
- `file_get_contents` in `attach`/`embed` is the parameter `fileBytes`. An unreadable file (`false`) is not modelled.
- Messages.Basename: models `basename()` for `/`-separated paths only. It does not model the locale-dependent multibyte handling or the Windows `\` separator.
- Error handling: the model assumes PHP's default handling of warnings, where a warning does not stop the call. Yii's error handler turns such warnings into an `ErrorException`, and the model does not cover that. Under it, several places raise instead of going on:
  - the `foreach` loops of `sendMessage` over an unset `to`, `cc` or `bcc` (Mailer.php:136, 144, 153);
  - `activateAllTrackings` over the unset tracking map;
  - reading `$responseData[0]['Url']` when the provider lists no callback (Mailer.php:249);
  - the read of the undefined `$apikey` in `setSecret` (Mailer.php:84).
- Unset fields: a `Message` field never set is `null` in PHP and modelled as the empty string or empty array. Under the default handling of warnings, iterating such a field behaves like iterating an empty array. `array_merge` with a `null` sender record (a message without `setFrom`) raises a type error in PHP 8; this is not modelled.
- Values: PHP's loose typing of scalar values is not modelled. The recipient arrays `to`, `cc` and `bcc` map addresses to string names. The charset, reply-to, subject and bodies are strings, and `setCharset` and the other simple setters take strings. Only the sender record and the attach/embed options hold values that may be `null`. A `null` recipient name is not modelled. It would render like `""`, because `empty(null)` holds and `implode` turns `null` into `""`.
- Messages.ToString: when `to` was never set, `implode(',', null)` fails: PHP 8 raises a `TypeError`, and PHP 7 warns and yields `null`. The model reads an unset `to` as the empty array, so it returns `"\n" + subject + "\n" + textBody` there instead.
- Tracking.SetTracking: PHP's conversion of numeric-string keys to integers and `in_array`'s loose comparison are not modelled. Events and URLs are compared as exact strings.
- Tracking.ActivateTracking: PHP's loose `!=` between numeric strings is not modelled. URLs are compared as exact strings, with `null` equal only to `""`.
- Tracking.ActivateAll: the provider's answers are fixed functions of the request and the event. Answers that change with earlier calls are not modelled.
- The tracking map starts as `null` in PHP and is modelled as the empty array. Under the default handling of warnings, `activateAllTrackings` over a `null` map only warns, which is the same as iterating an empty one.
- The wording of error messages is not modelled; errors are kept by cause and subject.
- The Yii `BaseMailer`/`BaseMessage` lifecycle (`compose`, `send`, view rendering, events) is not modelled.

## Findings

| source | as written | input that shows it | evidently intended | confidence | as-written member | corrected member |
|---|---|---|---|---|---|---|
| Mailer.php:84 | `setSecret` reports `gettype($apikey)`, a variable that `setSecret` never defines, so the type is always `"NULL"` | `setSecret(42)`: under plain PHP error settings, the exception says the secret should be a string, `"NULL"` given, instead of `"integer"` given. An error handler that turns the undefined-variable warning into an exception raises that one first | report `gettype($secret)`, as `setApikey` does with its own argument (Mailer.php:103) | high (not executed) | Mailer.SetSecretAsWritten, Mailer.SecretTypeMisreported | Mailer.SetSecret |
| Message.php:48-50 | `setCharset` stores the charset but has no `return $this`, unlike the other setters (Message.php:106, 157, 172, 187) | `$message->setCharset('utf-8')->setSubject('Hi')`: `setCharset` gives `null`, so the chained call fails | return the message, as every other setter does | high (not executed) | Messages.SetTextCallAsWritten, Messages.CharsetNotFluent | Messages.SetText |
