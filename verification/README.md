# A verified model of gox

gox is a toolkit of small Go packages. This project models the parts of it that carry logic of their own and proves what
they promise: the object stores of `blobx`, message composition and delivery in `emailx`, the Argon2id password strings of
`authx`, the in-memory cache of `cachex`, the field walk of `validx` and the backoff arithmetic of `retryx`.

`dafny verify dfyconfig.toml` checks everything.

## How the model is laid out

| module | models |
|---|---|
| `Text`, `Base64`, `Stream` | what the Go library does to strings, base64 text, writers and readers |
| `Argon2id` | printing, parsing and verifying PHC strings |
| `LineWrap`, `Attachment` | the 76-column line writer, the streaming base64 encoder and the copy loop that feeds them |
| `Headers`, `Email`, `MimeTree`, `Compose` | message validation, the header map, multipart framing with an independent reader, and the tree of a message |
| `Truncation`, `MimeWriter` | what is composed of a message that cannot be composed whole, and `writeMIME` |
| `Smtp` | `Send` against a server with arbitrary replies, judged by an automaton |
| `Cache`, `CacheCalls`, `CacheMemory` | the cache as interleaved critical sections, what each call has done when it returns, and the cache as an object on the heap with its slices |
| `PathClean`, `Keys` | Go's `path.Clean`, object keys, file paths and bucket keys |
| `FileSystem`, `Blob`, `BlobSimulation`, `BlobLaws`, `BlobClashes` | a directory tree, what each call of the two stores means, their agreement, what one call means for the next, and runs in which the stores part |
| `CrashStates`, `CrashSafety` | the states that a crash during a Put can leave, and what readers are told in them |
| `FileStore`, `MemoryStore` | the file store as system calls any of which may fail or be the last, the in-memory store, and both driven side by side |
| `Validx` | the walk that collects the fields to skip |
| `Retry` | the delay of an attempt |

Code that changes things step by step is modelled by classes and methods whose `ensures` tie the new state to a function of
the old one; what is promised is then proved of those functions, over all inputs and all runs.

What comes from outside is a parameter. A writer, a reader, a disk and a mail server each follow a script, and every
behaviour their interface allows is some script: short writes with an error, reads of any size up to the buffer, a failing
system call, a refusal at any command, a context that is done at any turn. Randomness (salts, boundaries, message
identifiers, temporary names) and clocks are arguments. The key derivation, SHA-256, the JSON codec and the library's
address, word, disposition and quoted-printable encoders are function-valued parameters; what a theorem needs of one is
written out as a premise on the values in play (`IsKdf`, `Survives`, `RejectsParts`, `SumsDiffer`, `Framable`, `TakenClean`,
`ValuesOk`).

## Main results

- **Two stores, one behaviour.** Over every run of Put, Get, Stat and Delete with prefix-free keys, metadata that survives
  its encoding and no failing system call, the file store answers exactly as the in-memory one (`MemoryStore.RunBoth`, resting
  on `BlobSimulation.RunSimulates`). For a single call the condition is exact in both directions: `ReadsAgree`, `PutAgrees`
  and `DeleteAgrees` are if-and-only-ifs. The encoding of metadata is a parameter: an object comes back with the content type it
  was stored with if and only if that survives it (`BlobLaws.PutThenGet`).
- **Crash safety.** Whatever fails, wherever a Put stops and whatever name it draws, the disk is in one of a few states, and
  what Get answers is enumerated for each: the old answer, or the complete new body under old, no or new metadata, or, exactly
  when the object's own name was drawn for its temporary file, a part of the body (`FileStore.Store.Put`,
  `CrashSafety.FiveAnswers`, `CrashSafety.TornIff`). Once the temporary file is removed, a failure before the rename has changed
  no answer for any key (`FileStore.ReadsUnchanged`).
- **A delivered message reads back.** `Send` succeeds only if the server took the whole text for exactly To, CC and BCC, in
  order, and that text, read by a parser that knows nothing of the writer, is the message's tree with every attachment's
  bytes and every reserved header intact, when its boundaries are clear of the texts and no attachment's type has a CRLF in it
  (`Smtp.Send`, `Smtp.DeliveredText`, `Compose.ReadsBackIff`).
- **Parsing undoes printing, and the converse.** PHC strings round-trip for every hasher, and a parsed string prints back to
  itself if and only if it is canonical (`Argon2id.VerifyHashed`, `Argon2id.FormatParsed`). Which strings parse, and to what, is
  spelled out (`Argon2id.ParsesExactly`).
- **A cache under every interleaving.** Every call that has returned has made exactly the write or the answer it is for, at a
  moment between its start and its end, and no write or answer is anyone else's (`CacheCalls.CallsAreFulfilled`,
  `CacheCalls.EveryOneIsOwned`, `CacheCalls.NoneIsOwnedTwice`); every answer is justified by the lock order, and lazy eviction is
  invisible (`Cache.AnswersAreJustified`, `Cache.LiveViewIsReference`).
- **No session without its credentials.** With a username every MAIL of a `Send` follows an accepted AUTH, encrypted or to
  localhost, and without one there is no AUTH (`Smtp.Send`, `Smtp.AcceptedIsAuthenticated`, `Smtp.AcceptedIsEncrypted`); a receipt
  is one accepted sender, exactly the recipients and exactly the text (`Smtp.ReceiptMeans`).
- **Blind copies stay blind.** What a header says is spelled out (`Email.HeaderInWords`, `Email.LinesInWords`), and neither it nor
  the tree depends on BCC (`Email.BlindCopiesUnseen`, `Compose.TreeWithoutBlindCopies`).
- **Skip exactly the unset fields.** (`Validx.SkipSetExact`, `Validx.FieldSkippedIff`, with `Validx.OptionRequires`,
  `Validx.RulesAreIndependent`, `Validx.OptionsAreIndependent` and `Validx.ArgumentsDoNotCount` for what a presence rule is.)

## Where the code falls short of the plain statement

Each of these is stated as the code behaves, with the exact condition and an input that shows it.

- A key below another stored key ("a/b" below "a") cannot be read, stored or deleted in the file store; and once "a/b" was
  stored, "a" cannot be stored even after "a/b" is deleted, since directories are never removed. Exact conditions: `Clash` and
  `Shadowed` in `BlobSimulation.ReadsAgree`, `PutAgrees` and `DeleteAgrees`; runs: `BlobClashes.StoresPart` and
  `BlobClashes.DirectoriesOutlive`.
- The temporary file of a Put is named ".blobx-" and a number below 2^32, in the directory of the object. A new object whose own
  name is drawn is torn while it is written: a crash leaves a part of its body where Get finds it (`CrashSafety.TornIff`; input:
  `CrashSafety.TornObject`). And since Put removes its temporary name last of all, the object is then lost although Put reports
  success (`BlobLaws.LostIff`; input: `BlobLaws.LostObject`). Both are if-and-only-ifs on key and tree; no other key is ever torn
  or lost.
- Until it is removed, the temporary file is an object to readers of its name, and in the way of keys below it
  (`CrashSafety.OthersDisturbedIff`; input: `CrashSafety.TempSeen`).
- Body and metadata are not replaced together. A Put that can succeed shows its readers something between the old object and the
  new one, across a crash at some point, unless the object was there before with the same body and without metadata
  (`CrashSafety.AllOrNothingIff`; input: `CrashSafety.SeenApart`): the new body under the old content type and ETag, or under none
  (`CrashSafety.MetadataLags`, `CrashSafety.MetadataTruncated`; every successful `FileStore.Store.Put` passes through both states).
- A message whose attachment has a CRLF in its content type is accepted and does not read back; otherwise, with clear boundaries,
  every message does (`Compose.ReadsBackIff`; input: `Smtp.BrokenTypeIsAccepted`).
- A cache miss can be reported for a key that was live all along, exactly when a Set overtook the Get
  (`Cache.MissUnlessOvertaken`; run: `Cache.MissWhileLive`).
- A parsed salt or key of 2^32 bytes or more is recorded with a wrapped length (`Argon2id.ParsedWithinBounds`; input:
  `Argon2id.LongSaltIsAccepted`).
- `Send` ends the data even when composing the message failed half-way. A server that goes along with everything accepts part of
  a message, while `Send` reports an error, if and only if the envelope can be reached and an attachment cannot be delivered or
  a text is interrupted (`Smtp.Send`). What it accepts lacks up to 4096 bytes more, which the buffer still held; for a short
  message it is empty (`Smtp.AcceptedInPart`; message: `Smtp.TakenInPart`).

## Model

| member | source | states |
|---|---|---|
| `Argon2id.ParseFormat` | authx/argon2id.go:69-79 | parsing any printed string gives back options, salt and key exactly, or the bounds error exactly when the reconstructed options are out of bounds |
| `Argon2id.ParseHashed` | authx/argon2id.go:45-80 | for every constructed hasher, password and salt the hash parses to the hasher's own options, that salt and the derived key |
| `Argon2id.VerifyHashed` | authx/argon2id.go:83-100 | a hasher of any options verifies the string of any other, and accepts exactly the passwords that derive the same key |
| `Argon2id.FormatText` | authx/argon2id.go:69-79 | the string printed is "$argon2id$v=19$m=", the memory, ",t=", the iterations, ",p=", the lanes, and after "$" each the base64 of salt and key |
| `Argon2id.ParsesExactly` | authx/argon2id.go:108-169 | a string parses iff its six fields are empty, argon2id, v= and digits for 19, m=, t= and p= with numbers in bounds, and base64 of a salt and a key of lengths in bounds as 32-bit numbers; then to what these fields say |
| `Argon2id.OtherVersionsRefused` | authx/argon2id.go:113-119 | any other number in the v= field is refused by that number |
| `Argon2id.ParseNumeral` | authx/argon2id.go:171-181 | a printed name=value field of any uint64 parses back to it |
| `Argon2id.DefaultsFill` | authx/argon2id.go:183-200 | zero options give the documented hasher, each field that is set is kept, and a hasher's options make the same hasher again |
| `Argon2id.HasherBounds` | authx/argon2id.go:202-222 | a hasher is made iff, with 65536, 3, 2, 16 and 32 for zeros, memory is from 8 per lane to 262144, iterations to 10, lanes to 16, the salt 8 to 64 and the key 16 to 64 long |
| `Argon2id.ParseFormattedParameters` | authx/argon2id.go:142-169 | printed m, t and p parse back to the same parameters |
| `Argon2id.PrintNumeral` | authx/argon2id.go:171-181 | a parsed field prints back to itself iff it has no leading zero |
| `Argon2id.PrintParameters` | authx/argon2id.go:142-169 | a parsed parameter list prints back to itself iff its numerals are canonical |
| `Argon2id.PrintBytes` | authx/argon2id.go:124-132 | a decoded salt or key field prints back to itself iff it holds no line break |
| `Argon2id.FormatParsed` | authx/argon2id.go:108-140 | a parsed string prints back to itself iff it has no leading zeros and no line breaks in its base64 |
| `Argon2id.ParsedWithinBounds` | authx/argon2id.go:124-138 | a parsed hash is within the validated bounds, with lossless casts, iff the base64 of neither field has the 5726623062 characters, line breaks aside, that 2^32 bytes take; no string shorter than that can |
| `Argon2id.LongSaltIsAccepted` | authx/argon2id.go:133-138 | a salt of 2^32+8 bytes is accepted as one of 8 |
| `Base64.DecodeEncodeRaw` | authx/argon2id.go:68-79 | unpadded decoding undoes encoding for all byte sequences |
| `Base64.EncodeDecodeRaw` | authx/argon2id.go:124-132 | the strict decoder accepts only what encodes back to itself |
| `Base64.DecodeEncodePadded` | emailx/smtp.go:320-322 | padded decoding undoes encoding for all byte sequences |
| `Base64.EncodeConcat` | emailx/smtp.go:320-322 | encoding distributes over concatenation at whole quanta, which is why it can stream |
| `Base64.EncodeShape` | emailx/smtp.go:320-322 | only alphabet characters and padding are written, in the closed-form length |
| `Base64.AlphabetIs` | authx/argon2id.go:68-79 | the characters are those of the table of RFC 4648 |
| `Base64.EncodeIsBits` | authx/argon2id.go:68-79 | the i-th character stands for bits 6i to 6i+5 of the bytes, zeros past the end |
| `LineWrap.WrapConcat` | emailx/smtp.go:425-446 | output of two writes is that of their concatenation, resuming at the column reached |
| `LineWrap.WrapIgnoresChunking` | emailx/smtp.go:425-446 | the output of any sequence of writes depends on their concatenation alone |
| `LineWrap.ColumnAdds` | emailx/smtp.go:428-439 | the column is a closed form of the total length |
| `LineWrap.WrapIsJoinOfChunks` | emailx/smtp.go:425-446 | the stateful wrapper equals joining full 76-character lines and a remainder |
| `LineWrap.ChunkShape` | emailx/smtp.go:425-446 | lines are at most 76 long, all but the last exactly 76, and together are the text |
| `LineWrap.WrappedLines` | emailx/smtp.go:425-446 | the CRLF-separated lines of the output are exactly those chunks |
| `LineWrap.StripWrap` | emailx/smtp.go:425-446 | dropping the line breaks gives the text back, from any column |
| `Attachment.LineWriter.Write` | emailx/smtp.go:425-446 | on success the stream grows by the wrapped data; on error the count is the length of the payload prefix emitted, followed at most by the start of one break; the loop terminates |
| `Attachment.Encoder.Write` | emailx/smtp.go:320-322 | however the input is cut, the stream holds the wrapped encoding of the whole quanta so far and the buffer the rest |
| `Attachment.Encoder.FillQuantum` | emailx/smtp.go:320-322 | the leading fringe: the buffered quantum is completed and emitted, or the buffer holds all of the input |
| `Attachment.Encoder.WriteQuanta` | emailx/smtp.go:320-322 | the interior loop encodes all whole quanta and nothing else |
| `Attachment.Encoder.Emit` | emailx/smtp.go:320-322 | after each emission the stream is the wrapped encoding of all input encoded |
| `Attachment.Encoder.Close` | emailx/smtp.go:322-328 | closing writes the last partial quantum: the stream is the encoding of the whole input |
| `Attachment.CopyWithContext` | emailx/smtp.go:393-418 | success iff the reader ends at end of file uncancelled (with a sound stream); exactly the bytes delivered have passed on, also when it fails |
| `Attachment.WriteBody` | emailx/smtp.go:320-329 | the body is the wrapped encoding of exactly the bytes the reader delivered, also when it then failed (with a sound stream) |
| `Attachment.BodyRoundTrip` | emailx/smtp.go:320-329 | no line is over 76 characters, every character is base64, and without line breaks it decodes to the bytes |
| `Headers.LowerCanon` | emailx/smtp.go:189-191 | MIME canonicalisation changes nothing but case |
| `Headers.CanonIgnoresCase` | emailx/smtp.go:189-191 | names that differ in case only share one canonical key |
| `Headers.NamesAreReserved` | emailx/email.go:58-70 | every header that the composer sets is on the reserved list |
| `Headers.KeysDiffer` | emailx/smtp.go:177-205 | the composer's own headers have distinct keys |
| `Headers.CanonWords` | emailx/smtp.go:177-191 | canonicalisation goes word by word |
| `Headers.KeysAre` | emailx/smtp.go:177-205 | the composer's keys as written: From, To, Cc, Reply-To, Subject, Date, Message-Id, Mime-Version, Content-Type, Content-Transfer-Encoding |
| `Email.CustomKeysDiffer` | emailx/email.go:97-104 | no accepted custom header canonicalises to a key of the composer's |
| `Email.OnlyOwnKeyMatches` | emailx/email.go:97-104 | among the composed keys only the composer's own matches a reserved name, in whatever case |
| `Email.ReservedOnTheWire` | emailx/smtp.go:176-206 | for every accepted message and every map order, a reader finds each of the composer's headers exactly once with the composer's value, and no Bcc |
| `Email.HeaderInWords` | emailx/smtp.go:176-206 | for every accepted message and map order a reader finds, once each: the formatted sender; To, CC and Reply-To joined by commas, the last two if any; encoded subject, date, identifier and version; the type by attachments and texts; an encoding for a single text; no Bcc |
| `Email.LinesInWords` | emailx/smtp.go:345-355 | the lines written for these, character by character |
| `Email.CustomOnTheWire` | emailx/smtp.go:189-191 | a custom header is found once with its value, unless another differs from it in case only |
| `Email.BlindCopiesUnseen` | emailx/smtp.go:176-206 | the same header maps are composed whatever BCC is |
| `Email.CheckedIsValid` | emailx/email.go:72-114 | the checks one after another, over any order of the headers, let through exactly the valid messages |
| `Email.RefusedIff` | emailx/email.go:72-137 | a message is refused iff an address is empty or does not read back, there is no recipient or no text, a header is misnamed, reserved or broken, or an attachment has no name, a broken one or no factory |
| `MimeTree.FramingRoundTrip` | emailx/smtp.go:211-237 | splitting written parts at their boundary gives them back iff no line of a part starts with the delimiter |
| `MimeTree.ReadRender` | emailx/smtp.go:211-237 | reading undoes writing on every well-framed tree of any depth |
| `MimeTree.MultipartIsJoined` | emailx/smtp.go:211-237 | a multipart is its parts joined by CRLF, "--", boundary and CRLF, opened by such a line and closed by one with "--" after it |
| `Compose.Base64IsClean` | emailx/smtp.go:320-329 | no attachment line ever forms a delimiter, whatever the boundary and the bytes |
| `Compose.TopBoundary` | emailx/smtp.go:193-206 | the message's header lines, in any order, announce exactly the boundary of its tree |
| `Compose.TreeIsFramed` | emailx/smtp.go:211-280 | the tree of every message with framable text is well framed, nested alternative included |
| `Compose.MessageRoundTrip` | emailx/smtp.go:170-251 | the composed text, read back line by line, is the message's tree: optional mixed, optional alternative, text before HTML, attachments in order |
| `Compose.ReadsBackIff` | emailx/smtp.go:170-330 | a valid message with clear boundaries reads back iff no attachment's type or disposition has a CRLF in it |
| `Compose.BrokenIsNotRead` | emailx/smtp.go:306-311 | with a CRLF in an attachment's type the tree is never read back, whatever the other headers and boundaries |
| `MimeTree.ReadIsUnbroken` | emailx/smtp.go:211-237 | nothing that is read has a CRLF in a header line |
| `Compose.AttachmentsSurvive` | emailx/smtp.go:300-330 | the i-th attachment in that tree has exactly the lines Content-Disposition, Content-Transfer-Encoding: base64 and Content-Type with its own values, and decodes to exactly the bytes its source delivered |
| `Compose.TextsSurvive` | emailx/smtp.go:253-298 | the encoded texts are found below the attachments' multipart if there is one, plain before HTML if there are both, each under its type; an inner alternative announces its boundary |
| `Compose.TreeWithoutBlindCopies` | emailx/smtp.go:211-246 | the tree does not depend on BCC |
| `MimeWriter.ComposeHeaders` | emailx/smtp.go:176-206 | the map built by in-place sets holds the composer's values under its keys and custom values under all others |
| `MimeWriter.SetCustomHeaders` | emailx/smtp.go:189-191 | ranging over the custom headers in any order sets them all and disturbs no field of the composer's |
| `MimeWriter.WriteHeaders` | emailx/smtp.go:345-355 | each entry is written once, in some order of the map, then an empty line |
| `MimeWriter.MultipartWriter.CreatePart` | emailx/smtp.go:293-296 | the delimiter and header block of the next part are appended |
| `MimeWriter.MultipartWriter.Close` | emailx/smtp.go:224-226 | the stream then holds the framing of exactly the completed parts |
| `MimeWriter.CopyText` | emailx/smtp.go:332-343 | copying a text fails iff the context is found done at one of its turns; what is copied by then is exact |
| `MimeWriter.WriteTextPart` | emailx/smtp.go:289-298 | one more completed part, the rendered text leaf, cut where the context was found done; fails iff it was (with a sound stream) |
| `MimeWriter.WriteAlternative` | emailx/smtp.go:282-287 | the completed parts are the text leaf and then the HTML leaf, as far as the context lasts; fails iff it does not last (with a sound stream) |
| `MimeWriter.WriteBodyParts` | emailx/smtp.go:253-280 | one more completed part, the rendered body entity, itself a multipart when there are both texts; when interrupted, exactly what there is of it, unclosed |
| `MimeWriter.WriteAttachment` | emailx/smtp.go:300-330 | one more completed part holding all delivered bytes, also when reading then fails; fails iff opening or reading fails (with a sound stream); an opened reader is closed on every path |
| `MimeWriter.WriteAttachments` | emailx/smtp.go:219-223 | all attachments in order, all readers closed, failure iff one cannot be delivered, and then exactly the parts begun |
| `MimeWriter.WriteMIME` | emailx/smtp.go:170-251 | on success the stream has grown by exactly the rendering of the message's tree; with a sound stream it fails iff a text is interrupted or an attachment cannot be delivered, and then has grown by exactly the part composed |
| `MimeWriter.WriteContent` | emailx/smtp.go:211-246 | the same of what follows the headers |
| `Stream.ForwardedIs` | emailx/smtp.go:175 | of what a bufio.Writer was given it has passed on all but at most the last 4096 bytes, and nothing while everything fits |
| `Stream.HeldExactly` | emailx/smtp.go:175 | while no write exceeds 4096 bytes a bufio.Writer passes on whole buffers only, each when more comes |
| `Stream.DeliveredUpTo` | emailx/smtp.go:393-418 | a delivery is the data of the turns up to the first end or error, without those of a turn that finds the context done; complete iff it ends at an end of file |
| `Truncation.LinesOfStart` | emailx/smtp.go:114-118 | the lines of any start of a text are lines of the text, the last one cut, perhaps within its CRLF |
| `Truncation.CutIsNotTheMessage` | emailx/smtp.go:211-237 | no start of an unfinished multipart message, wherever it ends, reads as a multipart with the boundary of the message |
| `Smtp.TlsMeansEncrypted` | emailx/smtp.go:83-91 | the automaton believes a session encrypted only after a TLS dial or an accepted STARTTLS |
| `Smtp.AcceptedIsEncrypted` | emailx/smtp.go:83-113 | in an accepted session no AUTH, MAIL, RCPT, DATA or content precedes encryption unless AllowInsecure is set and STARTTLS not offered, and AUTH then only to localhost, 127.0.0.1 or ::1 |
| `Smtp.AcceptedIsAuthenticated` | emailx/smtp.go:92-104 | in an accepted session with a username every MAIL follows an accepted AUTH; without one there is no AUTH |
| `Smtp.ReceiptMeans` | emailx/smtp.go:102-121 | a receipt means one sender accepted, exactly those recipients in order, DATA, exactly that text and its end accepted; no receipt means no end of data accepted |
| `Smtp.Dial` | emailx/smtp.go:128-142 | TLS from the start exactly when so configured |
| `Smtp.Secure` | emailx/smtp.go:83-91 | goes on only encrypted or with cleartext allowed; with a willing server fails iff neither is possible |
| `Smtp.Authenticate` | emailx/smtp.go:92-101 | success leaves an authenticated session, failure one that can only be left |
| `Smtp.OpenEnvelope` | emailx/smtp.go:102-104 | success opens the envelope of that sender and no other |
| `Smtp.NameRecipients` | emailx/smtp.go:105-109 | success means every address was accepted, in order |
| `Smtp.Prepare` | emailx/smtp.go:77-113 | DATA is reached only with the whole envelope accepted; every failure leaves a closable session with nothing delivered |
| `Smtp.SignOn` | emailx/smtp.go:77-101 | up to AUTH: goes on only encrypted or with cleartext allowed, and with an accepted AUTH iff there is a username; with a willing server fails iff the connection cannot be secured or the credentials not presented |
| `Smtp.ReachesMeans` | emailx/smtp.go:83-109 | the envelope can be reached iff the connection can be encrypted or may be clear, credentials are absent or can be sent, and no address has a line break |
| `Smtp.Transmit` | emailx/smtp.go:114-121 | the end of the data is sent whether or not the message was composed: the server is given the whole text, or what the buffer had passed on, or some start of it if the stream itself failed |
| `Smtp.Converse` | emailx/smtp.go:77-125 | anything the server accepted is for exactly To, CC and BCC; success implies the whole text and an accepted QUIT; a willing server accepts something iff the envelope can be reached, and only part of the message iff it cannot be composed |
| `Smtp.Send` | emailx/smtp.go:65-126 | for arbitrary replies, all of which the trace records as they were, the automaton accepts the session, it is closed on every exit after dialing, and success means the whole message was accepted for To, CC and BCC in order, and then QUIT; with a willing server Send succeeds iff the message can be reached and composed, and the server accepts a part of it under an error iff it can be reached and not composed |
| `Smtp.AcceptedInPart` | emailx/smtp.go:114-118 | what is accepted of a multipart message that could not be composed: the text composed but for at most 4096 bytes, empty if it is no longer; never a text of the message, and nothing that reads as it |
| `Smtp.TakenInPart` | emailx/smtp.go:114-118 | one message whose attachment does not open: accepted by the server, reported as an error, and not the message |
| `Smtp.BrokenTypeIsAccepted` | emailx/email.go:105-112 | one message with a CRLF in its attachment's type: validation accepts it, it can be composed whole, and it does not read back |
| `Smtp.DeliveredText` | emailx/smtp.go:110-118 | the accepted text of a successful Send reads back to the message's tree, with every attachment's bytes and a header that says what `HeaderInWords` spells out |
| `Cache.NextKeeps` | cachex/memory.go:32-87 | every atomic step of any thread, and the passing of time, keeps the invariant |
| `Cache.RunKeeps` | cachex/memory.go:32-87 | the invariant holds in every state of every interleaving |
| `Cache.AnswersAreJustified` | cachex/memory.go:32-52 | a hit is the value latest in lock order at its read and live then and at the clock check; a miss means absent at the read or expired by the check |
| `Cache.LiveViewIsReference` | cachex/memory.go:42-50 | at every moment the live values are those of a reference that never evicts |
| `Cache.LazyEvict` | cachex/memory.go:43-48 | the lazy delete removes only an entry whose deadline has passed, even one it did not read |
| `Cache.GetStepKeepsView` | cachex/memory.go:36-51 | no step of a Get changes any live value in any interleaving |
| `Cache.MissUnlessOvertaken` | cachex/memory.go:36-50 | a miss is false of the moment of its clock check iff a Set overtook it in between |
| `Cache.MissWhileLive` | cachex/memory.go:36-50 | a run in which a key is live throughout and Get reports a miss |
| `Cache.SetThenGet` | cachex/memory.go:55-73 | from any state an undisturbed Set is answered with its value exactly while less than the TTL has passed, for ever with none, never with a negative one; other keys answer as before |
| `Cache.DeleteThenGet` | cachex/memory.go:76-87 | from any state after an undisturbed Delete the key misses, however long one waits; other keys answer as before |
| `CacheCalls.CallsAreFulfilled` | cachex/memory.go:32-87 | in every interleaving every returned Get has answered once for its key by a read between its start and end, every Set written its value once to live for the TTL from a moment in between, or removed the key once, every Delete removed it once; with an empty key nothing; calls under way have done nothing yet |
| `CacheCalls.EveryOneIsOwned` | cachex/memory.go:32-87 | every write and every answer of a run is some call's |
| `CacheCalls.NoneIsOwnedTwice` | cachex/memory.go:32-87 | and no other's |
| `CacheCalls.CallsReturn` | cachex/memory.go:32-87 | a call has returned once its thread has had three steps, whatever the others do |
| `CacheMemory.SetStoreMeans` | cachex/memory.go:55-73 | on values a Set leaves the key live exactly while less than the TTL has passed, for ever with none, never with a negative one; no other key changes |
| `CacheMemory.DeleteStoreMeans` | cachex/memory.go:76-87 | on values a Delete leaves the key absent and every other as it was |
| `CacheMemory.GetStoreMeans` | cachex/memory.go:42-50 | on values a Get removes its key iff that has expired, and nothing else; no value ever shows it |
| `CacheMemory.SameAsAlone` | cachex/memory.go:32-87 | on values each call leaves the entries that its steps leave when undisturbed |
| `CacheMemory.Memory.Get` | cachex/memory.go:32-52 | a fresh copy of the live value or a miss; only an expired entry goes |
| `CacheMemory.Memory.Set` | cachex/memory.go:55-73 | the entry becomes a copy in a fresh slice; negative TTL deletes, zero never expires |
| `CacheMemory.Memory.Delete` | cachex/memory.go:76-87 | exactly that key goes |
| `CacheMemory.Perform` | cachex/memory.go:32-73 | after any call or caller's write, heap and value model agree and no slice is shared |
| `CacheMemory.RunCaller` | cachex/memory.go:32-73 | over all runs with arbitrary writes to slices passed in or returned, every Get answers as if slices were values |
| `PathClean.CleanMeans` | blobx/blob.go:69 | on every path the byte loop with read index, buffer and dotdot mark computes the documented stack of elements |
| `PathClean.CleanIdentity` | blobx/blob.go:69-73 | cleaning is the identity on relative paths of ordinary elements |
| `Keys.NormalizeExact` | blobx/blob.go:54-74 | a key is accepted iff non-empty, free of NUL and backslash and of empty, "." and ".." segments; it comes back unchanged; the final canonicality check never rejects |
| `Keys.ObjectPaths` | blobx/file.go:160-162 | object paths are injective and strictly below the objects directory |
| `Keys.ObjectsAndMetadata` | blobx/file.go:160-167 | object and metadata paths never meet and neither lies above the other |
| `Keys.ObjectPathText` | blobx/file.go:160-162 | the cleaned text that filepath.Join yields is that path |
| `Keys.MetadataPathText` | blobx/file.go:164-167 | the same for the metadata path of a hexadecimal sum |
| `Keys.StorePrefixes` | blobx/s3.go:67-72 | a prefix is taken iff, between any number of slashes, it is empty or an acceptable key |
| `Keys.ProviderKeys` | blobx/s3.go:202-207 | provider keys are acceptable keys and injective |
| `Keys.PrefixesShareObjects` | blobx/s3.go:202-207 | two stores can reach one object iff one prefix is a segment-prefix of the other |
| `FileSystem.Disk.MkdirAll` | blobx/file.go:56-58 | directories are made one by one and nothing else changes at any point; without faults it fails iff a file is in the way |
| `FileSystem.Disk.WriteFile` | blobx/file.go:177-179 | only that path changes at any point; success leaves exactly the data |
| `FileSystem.TempNames` | blobx/file.go:59 | the names os.CreateTemp can draw are the prefix followed by a decimal number below 2^32 without leading zeros |
| `BlobSimulation.ReadsAgree` | blobx/file.go:96-140 | Stat and Get answer as the in-memory store iff no stored key is a proper segment-prefix of theirs |
| `BlobSimulation.PutAgrees` | blobx/file.go:42-93 | Put answers as the in-memory store iff no stored key is a proper segment-prefix and no directory is in its place; then the tree represents the updated map iff the metadata survives the codec |
| `BlobSimulation.BrokenPutAgrees` | blobx/file.go:67-71 | a body that cannot be read to its end changes neither store |
| `BlobSimulation.DeleteAgrees` | blobx/file.go:143-158 | Delete answers as the in-memory store iff no stored key is a proper segment-prefix and no non-empty directory is in its place |
| `BlobSimulation.PutKeepsFaithful` | blobx/file.go:75-92 | after Put the tree holds the new object and every old one, bodies and metadata, iff the new metadata survives the codec |
| `BlobSimulation.RemovalKeepsFaithful` | blobx/file.go:151-156 | after Delete the tree holds every other object, bodies and metadata |
| `BlobSimulation.StepSimulates` | blobx/file.go:42-158 | every call of a prefix-free run whose metadata survives the codec gets the same answer from both stores and keeps the representation |
| `BlobSimulation.RunSimulates` | blobx/file.go:42-158 | over any such run the answers of the two stores are equal, refusals included |
| `BlobSimulation.FreshStore` | blobx/file.go:27-39 | a root never used represents the empty map |
| `BlobLaws.PutThenGet` | blobx/file.go:42-112 | on any tree, with any codec and any name drawn, after a Put that reports success Get returns the body with its size and what the codec makes of its metadata, or nothing iff the name drawn was the object's own; exactly what was stored iff that was not so and the metadata survives |
| `BlobLaws.OwnNameDrawable` | blobx/file.go:59 | the temporary path can be the object's own iff the last segment of the key is ".blobx-" and a decimal number below 2^32 without leading zeros |
| `BlobLaws.LostIff` | blobx/file.go:59-64 | some draw makes Put report success for an object that the next Get does not find iff nothing else keeps the Put from succeeding, the last segment of the key could be drawn and there is no such object yet |
| `BlobLaws.LostObject` | blobx/file.go:59-64 | in an unused store the key ".blobx-1" is lost when 1 is drawn |
| `BlobLaws.PutLeavesOthers` | blobx/file.go:42-140 | on any tree and for any name drawn, a successful Put changes no Stat or Get of another key unless its own is a segment-prefix of it |
| `BlobLaws.DeleteThenGet` | blobx/file.go:115-158 | on any tree, after a successful Delete the key is not found |
| `BlobLaws.DeleteLeavesOthers` | blobx/file.go:96-158 | on any tree, a successful Delete changes no Stat or Get of another key unless its own is a segment-prefix of it |
| `BlobLaws.StoresIff` | blobx/file.go:42-93 | without faults Put stores iff the body was read to its end and nothing in the tree is in the way; it then returns key, size, content type and sum |
| `BlobLaws.DeletesIff` | blobx/file.go:143-158 | without faults Delete succeeds iff object and sidecar can go, whether or not they are there |
| `BlobLaws.RefusedCalls` | blobx/file.go:96-150 | either store refuses a bad key by its error and a cancelled call as cancelled, and is left as it was |
| `BlobLaws.StatIsGet` | blobx/testing.go:79-85 | Stat tells of an object just what Get does, in either store |
| `BlobLaws.MemoryPut` | blobx/testing.go:31-76 | after a Put of a whole body Get returns exactly it and its description; a broken one changes nothing; other keys answer as before |
| `BlobLaws.MemoryDelete` | blobx/testing.go:88-100 | Delete of a key always succeeds, after which it is not found; other keys answer as before |
| `BlobClashes.StoresPart` | blobx/file.go:42-158 | for every key below another, from an unused store: after a Put above, Get, Put and Delete fail in the file store where the in-memory store misses, stores and deletes |
| `BlobClashes.DirectoriesOutlive` | blobx/file.go:75-77 | for every key below another, from an unused store: Put below, Delete it, Put above; the in-memory store stores it, the file store fails on the directory left behind |
| `BlobClashes.SimplestPair` | blobx/blob.go:54-74 | "a" and "a/b" are such a pair |
| `CrashSafety.CrashAnswers` | blobx/file.go:55-93 | in every state a crash can leave, for any name drawn, Get answers as before the Put, or with the complete new body under the old metadata or what the codec makes of the start of the new, or, if the name drawn was the object's own, with a part of the body |
| `CrashSafety.FiveAnswers` | blobx/file.go:55-93 | with a codec that rejects parts of its texts: the old answer; the new body under the old content type and ETag, under none, or under the new ones; or, if the name drawn was the object's own, a part of the body |
| `CrashSafety.TornIff` | blobx/file.go:55-77 | some state of some draw shows a body that is neither the old nor the new one iff the parent directories can be made, the last segment of the key could be drawn, there is no such object yet and the body is not empty |
| `CrashSafety.TornObject` | blobx/file.go:59-67 | in an unused store, while ".blobx-1" is being put under its own name, Get returns an empty body |
| `CrashSafety.AllOrNothingIff` | blobx/file.go:75-91 | for a Put that can succeed, every state of every draw shows the old answer or the new one iff the object was there before with the same body and without metadata |
| `CrashSafety.SeenApart` | blobx/file.go:75-91 | in an unused store, a Put of the new key "a" passes through a state in which Get returns its body without content type and ETag |
| `CrashSafety.OthersDuringPut` | blobx/file.go:55-93 | in every such state an unrelated key answers as before, unless it lies at or below the temporary file |
| `CrashSafety.OthersDisturbedIff` | blobx/file.go:55-93 | some state of some draw changes the answer for an unrelated key iff the parent directories can be made, a free name is at or above the path of that key, and nothing else was in the way there |
| `CrashSafety.TempSeen` | blobx/file.go:59-67 | in an unused store, while "x" is being put under the name drawn with 1, Get of ".blobx-1" returns an empty object |
| `CrashSafety.ClearOfTemps` | blobx/file.go:59 | a key none of whose segments could be drawn lies neither at nor below any temporary file |
| `CrashSafety.MetadataLags` | blobx/file.go:75-91 | just after the rename Get returns the new body under the metadata that was there: that of the object replaced, none for a new key |
| `CrashSafety.MetadataTruncated` | blobx/file.go:174-179 | with the sidecar truncated Get returns the new body under what the codec makes of nothing |
| `FileStore.CopyContext` | blobx/file.go:195-220 | success iff the reader ends well (without faults); file, hash and count then agree on the delivered bytes; at every point only the temporary file has changed and holds a start of them |
| `FileStore.Stage` | blobx/file.go:56-74 | up to the close, at every point, only directories have appeared and the temporary file holds a start of the body; on the way it is empty |
| `FileStore.WriteMetadata` | blobx/file.go:169-181 | at every point only the sidecar has changed and holds the old metadata or the start of the new; on the way it is empty |
| `FileStore.Commit` | blobx/file.go:75-92 | from the rename on the new body is in place at every point, beside the old metadata or the start of the new, whatever name was drawn |
| `FileStore.Attempt` | blobx/file.go:55-93 | Put before its deferred removal: every intermediate tree is one of the states a crash can leave, whatever name was drawn |
| `FileStore.ReadsUnchanged` | blobx/file.go:96-140 | trees that differ in new directories only answer every Stat and Get alike |
| `FileStore.Store.Put` | blobx/file.go:42-93 | whatever name is drawn, at every point the disk has only new directories, or a start of the body under the temporary name, or the complete new body beside old or partly written metadata, or the object removed as its own temporary file; once begun it passes through the state with the temporary file empty, and on success through those with old and with empty metadata; failing before the rename changes nothing but directories once the temporary file is gone; without faults it is the reference Put |
| `FileStore.Store.Stat` | blobx/file.go:115-140 | the size of the file that is there, with its metadata, or with none when that could not be read; not-found only if no file is there |
| `FileStore.Store.Get` | blobx/file.go:96-112 | the body that is there |
| `FileStore.Store.Delete` | blobx/file.go:143-158 | only object and sidecar change at any point; success means exactly these two are gone, whatever else failed or was missing |
| `MemoryStore.HashWriter.Write` | blobx/testing.go:106-109 | the chunk is appended whole |
| `MemoryStore.CopyContext` | blobx/file.go:195-220 | success iff the reader ends well; buffer, hash and count agree on the delivered bytes |
| `MemoryStore.Store.Put` | blobx/testing.go:31-58 | the map gains exactly the delivered object, or nothing on error |
| `MemoryStore.Store.Get` | blobx/testing.go:61-76 | the stored object, not-found, or the key's error |
| `MemoryStore.Store.Delete` | blobx/testing.go:88-100 | exactly that key goes |
| `MemoryStore.Both` | blobx/testing.go:31-100 | one call on both real stores: equal answers, representation kept, when the keys are prefix-free, no name offered is the object's own, one is free, and the metadata survives |
| `MemoryStore.RunBoth` | blobx/testing.go:31-100 | over any run of such calls without faults the two objects answer alike |
| `Validx.RulesAreIndependent` | validx/validx.go:155-165 | a tag asks for presence iff one of its comma-separated parts does |
| `Validx.OptionRequires` | validx/validx.go:158-161 | an option free of commas, bars and equals signs asks for presence iff it is "required" or starts with "required_" |
| `Validx.OptionsAreIndependent` | validx/validx.go:157-158 | before any comma and equals sign a bar separates options as a comma does |
| `Validx.ArgumentsDoNotCount` | validx/validx.go:157 | nothing from an equals sign to the next comma counts |
| `Validx.WrittenInjective` | validx/validx.go:92-117 | the last step of a namespace can be read off its text |
| `Validx.RenderInjective` | validx/validx.go:92-117 | distinct paths render to distinct namespaces |
| `Validx.SkipSetExact` | validx/validx.go:77-120 | the skip set holds exactly the namespaces of reached by-value members that are unset Fields without a presence rule |
| `Validx.FieldSkippedIff` | validx/validx.go:96-102 | a reached member is skipped iff it is a Field, not set or not accessible, and its tag asks for no presence: no other is, by any coincidence of names |
| `Validx.Dereference` | validx/validx.go:167-175 | the first non-pointer, or none at a nil; never larger |
| `Validx.PrepareMembers` | validx/validx.go:77-105 | the map gains exactly the names below the struct; the recursion decreases with size |
| `Validx.PrepareNested` | validx/validx.go:107-120 | the map gains exactly the names below the value |
| `Validx.Prepare` | validx/validx.go:51-55 | the map of a whole call is the skip set |
| `Retry.ErrorsExactly` | retryx/retryx.go:23-48 | which arguments succeed: the sample matters only with jitter |
| `Retry.Bounded` | retryx/retryx.go:50-55 | no delay is negative, above a set maximum, or beyond a Duration |
| `Retry.ExactDelay` | retryx/retryx.go:38-55 | for every attempt and sample: base * factor^attempt * (1 - jitter + 2 * jitter * sample) truncated to whole nanoseconds, or the maximum (of a Duration, if none is set) if that is less |
| `Retry.PowAdds` | retryx/retryx.go:38 | powers: one, the factor, and products for sums |
| `Retry.MonotoneInAttempt` | retryx/retryx.go:38-55 | for a factor of at least one a later attempt never waits less at the same sample |
| `Retry.MonotoneInSample` | retryx/retryx.go:39-48 | a larger sample never waits less |
| `Retry.NilIsNeutral` | retryx/retryx.go:20-22 | a nil random function gives the delay without jitter |
| `Retry.JitterSpread` | retryx/retryx.go:15-17 | jitter moves the uncapped delay by at most its fraction either way, and reaches both ends |
| `Retry.FirstDelay` | retryx/retryx.go:38-55 | the first attempt waits the base delay, capped |
| `Retry.GrowsRegardlessIff` | retryx/retryx.go:38-48 | before rounding, attempts grow for arbitrary samples iff factor*(1-jitter) >= 1+jitter |
| `Retry.MonotoneRegardless` | retryx/retryx.go:38-55 | under that condition any later attempt waits at least as long for arbitrary samples |
| `Retry.ReachesMaximum` | retryx/retryx.go:38-52 | with a factor above one the maximum is reached from an attempt that can be computed in advance |

## Left out

- Retry.Bounded: and all of Retry is over exact reals; float64 rounding, NaN, infinity and the comparison near 2^63 are not modelled.
- Attachment.Encoder.Write: the count returned with an error is not specified, since no caller uses it.
- Attachment.CopyWithContext: likewise, and so in FileStore.CopyContext and MemoryStore.CopyContext.
- FileSystem.Disk.MkdirAll: on failure only says that nothing but new directories appeared, not which.
- FileStore.Store.Get: Stat and Open see one tree; writers between the two are not modelled, the code promises nothing there.
- CacheMemory.Memory.Get: and Set run their critical sections back to back; interleaving is the subject of Cache.
- MimeWriter.WriteTextPart: writes the quoted-printable text in one piece, as a function of the text copied; only what does not depend on how it is cut is claimed of the buffer.
- Stream.ForwardedIs: after a fault of the stream itself how much the buffer had passed on is not exact, and Smtp.Send then only says that the server was given some start of the text.
- Smtp.Send: dot-stuffing, reply codes and the goroutine that closes the connection on cancellation are not modelled; a closed connection is a server that refuses from then on.
- Smtp.AcceptedInPart: is about multipart messages; the start of a single text is a shorter text and cannot be told from one.
- Headers.LowerCanon: lower-casing is ASCII only; validHeader refuses every other name, in either order of the two checks.
- Compose.ReadsBackIff: is about a reader whose lines end in CRLF, as section 2.1 of RFC 5322 has it; to one that also ends them at a bare CR or LF, a type with either is broken too.
- Which error message a rejected message, option set or configuration gets, where callers cannot tell them apart.
- Nil receivers, nil bodies and nil readers.
- Modification times of objects.
- Windows paths, symbolic links, permissions and other processes on the same root.
- The JSON encoding itself: which content types survive it, and that it rejects parts of its texts, are premises.
- The slices held by the in-memory object store, which are values here; aliasing of slices is modelled for the cache.
- In validx, reflection, type registration, the validator's own rules, pointer cycles, and Fields behind pointers or directly in slices, which the walk does not register.
- The internals of Argon2, bcrypt, SHA-256, address parsing, quoted-printable and media-type formatting.
- The Redis cache and the S3 calls themselves, which are thin clients.
- httpx, middleware, logx, configx, envx, testx, pgxutil, fieldx, bearer tokens, templates and the recording sender, which would only add easy members.
