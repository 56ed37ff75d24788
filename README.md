# Attachment upload workflow of the post editor

This project models the attachment workflow of the post editor's browser code
(`assets/js/components/attachments.js`) and proves properties of it. When a
user picks a file, the handler does four things in order:

1. It asks the backend for signing data (an upload policy) for the file's name and type.
2. It posts a signed multipart form straight to the storage service. The form
   holds seven policy values and then the file.
3. It reads the `Location` of the stored object from the storage service's XML
   answer and percent-decodes it with `decodeURIComponent`.
4. It appends a blank line and a Markdown reference to the editor's text, then
   fires a change notification. The reference is an inline image for PNG, JPEG
   and GIF types, and a link for every other type.

The Location is decoded before it goes into the Markdown. So when the
Location holds an escaped space (`%20`, as an encodeURIComponent-style encoder
writes it), the inserted text has a space in its destination. A CommonMark
renderer would read such a snippet as plain text, unless a quoted or
parenthesised title follows the space, rather than as the image or link the
code means to insert. Which Markdown dialect renders the text is not in this
model: previews are rendered by the backend. The lemma
`Markdown.SpaceInLocationIsNoReference` shows only that such a snippet falls
outside the plain form the model's reader accepts.

Modules, one per part of the workflow:

- `Wrappers` (`wrappers.dfy`): `Option` and `Result`.
- `PercentDecoding` (`percent_decoding.dfy`): `decodeURIComponent` as ECMA-262
  defines it. Escapes follow section 2.1 of RFC 3986: `%` and two hex digits of
  either case. A run of escaped octets that forms one well-formed UTF-8 sequence
  becomes one character. Any other escape fails. The module also has a family
  of percent-encoders, each writing every character as itself or as the
  upper-case escapes of its UTF-8 octets, with `encodeURIComponent` among them,
  and the round trip from each of them back through the decoder.
- `Markdown` (`markdown.dfy`): `makeMarkdown`. It also has a conservative
  reader of CommonMark inline links and images (sections 6.3 and 6.4 of the
  CommonMark specification, version 0.31). The reader accepts only link text and
  destinations that CommonMark takes literally and refuses everything else. It
  shows when a snippet says what it should, and when it does not.
- `UploadForm` (`upload_form.dfy`): `uploadToS3`'s form. A `FormData` class is
  filled by eight successive appends. A specification function gives the
  resulting field list. Lemmas show what the storage service reads back from it.
- `Attachments` (`attachments.dfy`): the editor's textarea as a class. It holds
  the text and a ghost count of change notifications. It has `appendToTextArea`
  and the three-step handler that `mount` installs. The backend and the storage
  service are function parameters, and the handler returns the requests it made.

## Model

| member | source | states |
|---|---|---|
| `Markdown.MakeMarkdown` | assets/js/components/attachments.js:38-52 | the snippet starts with `!` exactly for the four image types; the file name follows the `[`, then `](`, and the location sits just before the closing `)` |
| `Markdown.ImageExactlyForImageTypes` | assets/js/components/attachments.js:40-46 | the snippet is `![name](location)` if and only if the MIME type is one of image/png, image/jpeg, image/jpg, image/gif |
| `Markdown.LinkExactlyForOtherTypes` | assets/js/components/attachments.js:47-49 | the snippet is `[name](location)` if and only if the MIME type is none of those four strings |
| `Markdown.NearMissesAreLinks` | assets/js/components/attachments.js:40-49 | matching is exact and case-sensitive: image/PNG, image/webp and image/svg+xml are not image types |
| `Markdown.ImageIsBangLink` | assets/js/components/attachments.js:45-48 | for the same name and location, the image snippet is `!` followed by the link snippet |
| `Markdown.ParseLinkSyntax` | assets/js/components/attachments.js:48 | with a plain file name, the link syntax is read back as the name and the location exactly when the location is a plain destination, and refused otherwise |
| `Markdown.SnippetReading` | assets/js/components/attachments.js:38-52 | with a plain file name, a snippet is read as a reference exactly when the location is a plain destination: no space or control character, no `\`, `&` or `<`, and balanced parentheses (so `https://b/x?a=1&b=2` is refused, though CommonMark would link it) |
| `Markdown.ParseMakeMarkdown` | assets/js/components/attachments.js:38-52 | a snippet with a plain name and a plain location is read back as its file name, its location, and an image exactly for the image types |
| `Markdown.SpaceInLocationIsNoReference` | assets/js/components/attachments.js:58-60 | a decoded location with a space in it (from `%20`) gives a snippet outside the plain form the reader accepts, so the reader does not read it as an image or a link |
| `Markdown.IndexOfAfterPrefix` | assets/js/components/attachments.js:45-48 | in a snippet, the first `]` is the one that closes the file name when the name has none |
| `PercentDecoding.PercentDecode` | assets/js/components/attachments.js:58 | `decodeURIComponent`: a successful decoding is never longer than its input |
| `PercentDecoding.DecodeWithoutPercent` | assets/js/components/attachments.js:58 | text without `%` decodes to itself |
| `PercentDecoding.DecodePlainPrefix` | assets/js/components/attachments.js:58 | text before the first `%` passes through decoding unchanged, and decoding of what follows is unaffected |
| `PercentDecoding.TruncatedEscapeFails` | assets/js/components/attachments.js:58 | a `%` with fewer than two characters after it makes the whole decoding fail, after any prefix that decodes |
| `PercentDecoding.EscapeFails` | assets/js/components/attachments.js:58 | an escape that does not decode makes the whole decoding fail, after any prefix that decodes |
| `PercentDecoding.BadHexFails` | assets/js/components/attachments.js:58 | a `%` followed by a character that is not a hex digit (`%ZZ`) makes decoding fail, after any prefix that decodes |
| `PercentDecoding.LoneContinuationFails` | assets/js/components/attachments.js:58 | an escaped continuation byte where a character should start (`%80`) makes decoding fail, after any prefix that decodes |
| `PercentDecoding.InvalidLeadFails` | assets/js/components/attachments.js:58 | an escaped octet with five or more leading 1 bits (`%F8` to `%FF`) makes decoding fail, after any prefix that decodes |
| `PercentDecoding.BadFollowerFails` | assets/js/components/attachments.js:58 | a lead byte whose follower is missing or not an escaped continuation byte (`%C3`, `%C3%41`, `%E2%82`) makes decoding fail, after any prefix that decodes |
| `PercentDecoding.Utf8EncodeWellFormed` | assets/js/components/attachments.js:58 | the UTF-8 encoding of every character is well-formed by Table 3-7 of the Unicode Standard |
| `PercentDecoding.Utf8DecodeSound` | assets/js/components/attachments.js:58 | octets decode to a character only when they are exactly that character's UTF-8 encoding |
| `PercentDecoding.NotUtf8NoCharacter` | assets/js/components/attachments.js:58 | octets that are not well-formed UTF-8 decode to no character |
| `PercentDecoding.NotUtf8Fails` | assets/js/components/attachments.js:58 | escaped octets that are not well-formed UTF-8 (overlong forms, surrogates, values above U+10FFFF) make decoding fail, after any prefix that decodes |
| `PercentDecoding.OverlongFails` | assets/js/components/attachments.js:58 | the overlong form `%C0%80` makes decoding fail, after any prefix that decodes |
| `PercentDecoding.SurrogateFails` | assets/js/components/attachments.js:58 | the surrogate `%ED%A0%80` makes decoding fail, after any prefix that decodes |
| `PercentDecoding.AboveMaximumFails` | assets/js/components/attachments.js:58 | `%F4%90%80%80`, above U+10FFFF, makes decoding fail, after any prefix that decodes |
| `PercentDecoding.DecodeAfterDecoded` | assets/js/components/attachments.js:58 | after a prefix that decodes, the whole decodes exactly when the rest does, to the two decodings joined; so a malformed escape fails wherever it sits |
| `PercentDecoding.AsciiEscapePrefix` | assets/js/components/attachments.js:58 | an escaped ASCII octet decodes to that character, and decoding goes on after it |
| `PercentDecoding.DecodeLocationParts` | assets/js/components/attachments.js:57-58 | a Location made of a scheme, an escaped `://`, a host, an escaped `/` and a key decodes to the plain URL |
| `PercentDecoding.DecodeLocation` | assets/js/components/attachments.js:57-58 | with no `%` in its parts, `scheme%3A%2F%2Fhost%2Fkey` decodes to `scheme://host/key` (so `https%3A%2F%2Fbucket%2Fabc` reads `https://bucket/abc`) |
| `PercentDecoding.BucketLocation` | assets/js/components/attachments.js:57-58 | the Location `https%3A%2F%2Fbucket%2Fabc` decodes to `https://bucket/abc` |
| `PercentDecoding.DecodeEncodeWith` | assets/js/components/attachments.js:58 | decoding undoes every encoder that escapes `%` and writes each other character as itself or as the upper-case escapes of its UTF-8 octets, for every string |
| `PercentDecoding.DecodeEncode` | assets/js/components/attachments.js:58 | decoding undoes `encodeURIComponent`, for every string |
| `PercentDecoding.EscapeRoundTrip` | assets/js/components/attachments.js:58 | an escaped character, one to four UTF-8 octets, decodes to itself and spans exactly its escapes |
| `PercentDecoding.Utf8RoundTrip` | assets/js/components/attachments.js:58 | the UTF-8 octets of a non-ASCII character have the right lead byte and decode back to the character |
| `PercentDecoding.OctetsRoundTrip` | assets/js/components/attachments.js:58 | a run of `%XY` escapes reads back as the octets it escapes |
| `UploadForm.SignedForm` | assets/js/components/attachments.js:16-24 | the form has eight entries; the file is the last and the only file-valued one, every other value is text |
| `UploadForm.FormData.constructor` | assets/js/components/attachments.js:16 | a new form has no entries |
| `UploadForm.FormData.Append` | assets/js/components/attachments.js:17-24 | each append adds one entry at the end and keeps the earlier ones |
| `UploadForm.BuildUpload` | assets/js/components/attachments.js:16-27 | the eight appends produce exactly the signed form, and the POST goes to the policy's `action` |
| `UploadForm.SignedFormShape` | assets/js/components/attachments.js:16-24 | the form has eight fields named key, AWSAccessKeyId, acl, success_action_status, policy, signature, Content-Type, file in that order, and the file is last |
| `UploadForm.FieldNamesDistinct` | assets/js/components/attachments.js:17-24 | no two form fields share a name |
| `UploadForm.LookupFirst` | assets/js/components/attachments.js:17-24 | reading a form field by name gives the value of the first entry with that name |
| `UploadForm.SignedFormCarriesPolicy` | assets/js/components/attachments.js:17-24 | read by name, the form gives each of the seven policy values unmodified, and the file |
| `UploadForm.SignedFormInjective` | assets/js/components/attachments.js:16-27 | two uploads with the same form and target come from the same policy and file, so no policy value is lost |
| `Attachments.Editor.constructor` | assets/js/components/attachments.js:59 | the editor starts with the textarea's text and no change notifications |
| `Attachments.Editor.AppendToTextArea` | assets/js/components/attachments.js:56-63 | a malformed Location leaves the text and the change count as they were; otherwise the new text is the old text, then `\n\n`, then the snippet for the decoded location (the blank line is added even to an empty text), and exactly one change fires |
| `Attachments.Editor.HandleSelection` | assets/js/components/attachments.js:67-79 | only `files[0]` is used, and an empty file list (where `files[0].name` throws) fails with no request and no change; the upload is requested only after the policy request succeeds, with the signed form and the policy's `action`; the append happens only after the upload succeeds; any failure leaves the text and the change count unchanged; success appends one snippet and fires one change |

## Left out

- `assets/js/components/posts.js` is not part of this model. `decorate` is one call into the syntax-highlighting library. `preview` sends the text to the backend and writes the returned HTML into the page, with no logic of its own.
- `assets/js/app.js` is not part of this model. It only imports stylesheets and polyfills and wires the modules up.
- The backend module (`../api`) is not part of this model. The policy request is a function parameter from (file name, MIME type) to a `Result`, and the policy is a datatype holding the eight fields the handler reads.
- The storage service and the XML parsing of its answer (`$(xml).find("PostResponse Location").text()`) are one function parameter. It maps the POST request to a `Result` carrying the `Location` text. An answer without a `Location` element gives the empty text, which decodes to the empty location.
- jQuery's transport (`processData: false`, `contentType: false`) and the multipart encoding with its boundary are left out. The form is an ordered list of named entries, not bytes.
- `FormData.append` turns a non-string value into a string. The policy values are modelled as strings from the start.
- The registration of the change handler on the file input, and the DOM dispatch of `.change()`, are left out. The notification is a ghost counter on the editor.
- Two selections in quick succession run as separate chains, and their network steps can interleave. This is left out. Each run of the handler, and each append, is treated as atomic.
- Strings are sequences of Unicode scalar values. The browser uses UTF-16 code units. So a decoded character above U+FFFF is one element here and two code units there. A lone surrogate in the input cannot be represented.
- The browser normalises line breaks in a textarea's value. This is not modelled.
- Rejections are never handled or shown to the user. The model returns them as a `Failed` outcome.
- `Markdown.ParseMakeMarkdown`: the round trip is stated for plain names and plain destinations only. The reader refuses link titles, destinations in `<...>`, backslash escapes, entity references, brackets, emphasis, code spans and HTML in the text, all of which CommonMark would interpret. It does not model CommonMark's limit on the nesting depth of parentheses in a destination.
- `PercentDecoding.PercentDecode`: its own contract gives only the length bound. Each way an escape can be malformed is a separate lemma (`BadHexFails` to `NotUtf8Fails`). There is no single predicate that says exactly which inputs decode.
- `PercentDecoding.DecodeEncode`: the storage service's encoding of the Location is not in the source. The round trip is proved for every encoder of the `PercentEncodeWith` form, not for one that writes lower-case hex digits or escapes in some other way.
- `Markdown.SnippetReading`: the reader refuses `&` in a destination because it could start an entity reference. A Location whose query string holds `&` is therefore refused, although CommonMark would take most such destinations literally.
- The worked examples `Attachments.PhotoScenario` and `Attachments.ReportScenario` take the encoded Location as a parameter that decodes to `https://bucket/abc`. `BucketLocation` shows that `https%3A%2F%2Fbucket%2Fabc` is one.
