# Proofs about pam_ssoossh

pam_ssoossh is a PAM module. It asks a server for a short-lived SSH certificate,
waits on an event stream until a human approves, and lets the login through only
if the certificate passes four checks. It runs as root, and nearly all of its
weight is in hand-written parsers and codecs over bounded buffers, plus one
wait-and-reconnect loop. This project models those parts in Dafny and proves what
they promise:

- certificates, durations, timestamps, base64 and authorized_keys lines are accepted
  exactly when they are texts of a separately defined printer or grammar; principals
  maps exactly when every line has one of three shapes of a grammar and the accounts
  are distinct, so "parse" and "print" are inverses where they should be;
- the event parser, fed byte by byte in any chunks, makes exactly the callbacks a
  batch reading of the whole stream would, and the wait reports the first terminal
  event of the last connection and nothing else, without reading the clock later than
  one step past the deadline;
- a fraction such as `0.3h` goes through double arithmetic, modelled with its
  rounding, and comes out within about a nanosecond of the number it names;
- a run answers PAM_SUCCESS exactly when the JSON of an approved event holds a user
  certificate whose signed bytes a trusted CA key verifies, whose key is this
  attempt's, whose principals admit the account and whose window holds, and no error
  that the module sees; every certificate within the limits can be so delivered.

What specification and methods share, the alphabets, names, layouts, units and limits, is
stated once more in literal texts and numbers: events, certificates, maps, lines and
timestamps by printers of their own, the rest by exact tables.

Code that fills buffers or moves cursors is modelled as classes and methods over
arrays with loops, each proved against a specification function; the lemmas are
about those functions.

| module | what it models |
|---|---|
| `Bytes`, `Cutting`, `Decimal` | bytes, C strings, copying, cutting at separators, two's complement, big-endian and decimal numbers |
| `SshWire` | the cursor reader with its latched failure, and the bounded writer (RFC 4251, section 5) |
| `SshCert`, `CertText` | the certificate reader, the rebuilt subject key, the signed extent, and certificates as they are written |
| `Base64`, `SshKey` | canonical base64, key blobs and lines, the trusted CA file |
| `Sse`, `EventText`, `Waiting`, `Httpc` | event parser, event streams as they are written, event callback, one connection, the reconnect loop |
| `PrincipalsMap`, `PrincipalsGrammar`, `PrincipalsText` | the principals file and its duplicate check by rescanning, the grammar of its lines, and maps as they are written |
| `Json`, `JsonLookup` | string codec, member lookup in a token array |
| `Double`, `Fractions` | rounding to IEEE doubles, and the fraction of a unit computed with them |
| `Duration`, `DurationText`, `Civil` | durations in and out, civil dates, RFC 3339 |
| `Url`, `CreateBody` | joining server paths to the origin, the create request's body |
| `Checks`, `Auth`, `SampleRun` | the four checks, the whole run, and the runs that succeed |
| `Delivery` | which errors of an envelope are seen, and the delivery of every certificate |
| `Der` | DER for ECDSA signatures and RSA keys |
| `Conv`, `Qr` | the terminal whitelist and the QR picture |

## Findings

Places where the code does something other than its comments or a reader would
expect. The model follows the code; each has a lemma that says exactly when.

- The widened validity bounds can leave int64 in both directions (src/checks.c:249-258).
  A `valid_before` at "forever" and a tolerance of a second or more make
  `before + tolerance_s` too large; a `valid_after` there and a negative tolerance,
  which the arguments allow (src/args.c:456-461), make `after - tolerance_s` too large.
  Both are undefined in C. Read as two's complement the first refuses every clock past
  the epoch, and the second drops the lower bound, so a certificate is taken before it
  is valid. `Checks.WindowIff` has the exact condition, `Checks.ForeverRefused` and
  `Checks.TooEarlyAccepted` the certificates.
- An envelope's error is read into 512 bytes, and one that does not fit, does not
  decode or starts with a NUL counts as none, although an envelope carrying an error
  is meant to be a failure (src/auth.c:58, 784-805, src/json.c:92-166). An approval of
  a certificate that passes every check then succeeds beside it. `Delivery.ErrorIff`
  has the exact condition, `Delivery.LongErrorIgnored` an envelope.
- A certificate principal with a NUL inside is compared with the map's entries as a C
  string, so what stands before the NUL is enough (src/checks.c:184-193,
  src/principals_map.c:397-412, `Checks.PrincipalIff`, `Checks.NulAdmits`). The
  account's own name is compared byte for byte.
- A dropped stream is taken up again so that the wait survives a restart of the server
  (src/httpc.c:504-511), but a reconnect that finds no server yet ends the wait at
  once (src/httpc.c:737-754, `Httpc.DropIff`, `Httpc.RestartNotSurvived`).
- A certificate cut inside its serial or type is reported as "not a user
  certificate" rather than as malformed, because the latched reader hands back
  type 0 and the latch is not looked at first (src/sshcert.c:134-146,
  `SshCert.NotUserIff`, `SshCert.CutCertificate`). Both are refusals.
- A refusal of the events request that carries no body is taken for a dropped
  connection and retried, even for a final status such as 404: the status is only
  recorded by the body callback (src/httpc.c:477-481, 648-659,
  `Httpc.RefusalNeedsBody`).
- RFC 3339 timestamps take days up to 31 in every month; an over-long day runs on
  into the next month (src/json.c:401-404, `Civil.ParseIff`, `Civil.FebruaryRunsOn`).
- Printing a duration and parsing it back fails for one int64, the most negative
  one: its text names a magnitude the parser refuses (`DurationText.RoundTrip`).
- In the trusted CA file, a malformed line after the 33rd usable key is never
  read, so it does not refuse the file (src/sshkey.c:260-266,
  `SshKey.LateLineUnread`).

## Model

| member | source | states |
|---|---|---|
| SshWire.GetU32Iff | src/sshwire.c:31-43 | a 32-bit read succeeds with v and the rest exactly when the input is v's four big-endian bytes and the rest |
| SshWire.GetU64Iff | src/sshwire.c:45-51 | the same for two 32-bit halves read as one 64-bit number |
| SshWire.GetStrIff | src/sshwire.c:53-69 | a string read succeeds exactly on a length prefix followed by that many bytes |
| SshWire.BigEndianIsShifts | src/sshwire.c:31-43 | the four bytes of a 32-bit number are its quotients by 2^24, 2^16 and 2^8, most significant first |
| SshWire.LongIsTwo | src/sshwire.c:45-51 | a 64-bit number is its high half followed by its low half |
| SshWire.Reader.ReadU32 | src/sshwire.c:31-43 | the cursor moves past four bytes, or the failure latches and 0 comes back |
| SshWire.Reader.ReadU64 | src/sshwire.c:45-51 | as ReadU32 for eight bytes; when only the low half is missing the high half comes back and the cursor stands behind it |
| SshWire.Reader.ReadStr | src/sshwire.c:53-69 | returns the string at the cursor and moves past it, or latches; once latched it stays so |
| SshWire.Reader.ReadName | src/sshwire.c:71-82 | a string that is not empty and leaves room for a NUL in the caller's buffer |
| SshWire.Reader.SkipStr | src/sshwire.c:84-87 | moves past a string or latches |
| SshWire.Writer.Put | src/sshwire.c:117-125 | writes all of the bytes or none, latching exactly when they do not fit |
| SshWire.Writer.PutU32 | src/sshwire.c:127-136 | appends the four big-endian bytes, or latches when there is no room for them |
| SshWire.Writer.PutStr | src/sshwire.c:138-146 | appends prefix and bytes, or latches when they do not fit or the length exceeds 32 bits |
| SshCert.BaseAlgoIff | src/sshcert.c:13-28 | the base algorithm is what stands before the certificate suffix, not empty and shorter than the buffer |
| SshCert.ParseIff | src/sshcert.c:75-202 | a blob is accepted with these fields exactly when it is their serialisation as a type-1 certificate within the limits |
| SshCert.ParseSerialised | src/sshcert.c:176-183 | a serialisation is accepted, and with any bytes behind it refused |
| SshCert.SignedExtent | src/sshcert.c:171-178 | the captured offset delimits exactly the bytes before the signature string, which is all that follows |
| SshCert.PrefixFree | src/sshcert.c:179-183 | no proper extension, hence no proper prefix, of an accepted blob is accepted |
| SshCert.NotUserIff | src/sshcert.c:134-146 | when the reader answers "not a user certificate", including a blob cut inside serial or type |
| SshCert.CutInsideKind | src/sshcert.c:134-146 | any accepted head with fewer than twelve bytes behind it is answered "not a user certificate" |
| SshCert.CutCertificate | src/sshcert.c:134-146 | an Ed25519 head with nothing or part of serial and type behind it is one such blob |
| CertText.WrittenAccepted | src/sshcert.c:30-202 | a certificate of any of the five key types, written under its literal name with its one or two key fields, is accepted, and the caller gets every part of it, the key and the signed extent included |
| CertText.GeneratedAccepted | src/sshcert.c:114-132 | so is the certificate over any generated P-384 point, and its key is the blob written for that point |
| CertText.UnsupportedIff | src/sshcert.c:30-45 | a certificate name over any other key type, and no other, is answered "unsupported" |
| CertText.TakenWithinLimits | src/sshcert.c:75-202 | whatever is accepted has at most 32768 bytes, 64 principals, a key of 2048 bytes and names below 64 bytes |
| SshCert.Certificate.ParsePrincipals | src/sshcert.c:50-73 | the nested strings in order, refused when one is cut or there are too many |
| SshCert.Certificate.ParseHead | src/sshcert.c:93-132 | algorithm, nonce and key fields, each refusal with its own status, and the key blob rebuilt |
| SshCert.Certificate.RebuildKey | src/sshcert.c:114-132 | base algorithm and the certificate's own field bytes, when they fit the key buffer |
| SshCert.Certificate.ParseKind | src/sshcert.c:134-146 | serial and type; what is cut short comes back as no user certificate |
| SshCert.Certificate.ParseClaims | src/sshcert.c:148-156 | key ID, principals and validity bounds |
| SshCert.Certificate.ParseBody | src/sshcert.c:148-199 | everything after the type, with the signed extent and no trailing bytes |
| SshCert.Certificate.ParseSignature | src/sshcert.c:185-199 | algorithm and body, filling the signature string exactly |
| SshCert.Certificate.Parse | src/sshcert.c:75-202 | the status is the specified one, and on success the structure holds the wire form's view |
| SshCert.HasPrincipal | src/sshcert.c:231-242 | true exactly when one principal is the name, byte for byte |
| Base64.DecodeIff | src/base64.c:33-89 | decoding gives b exactly when the text is b's encoding: leftover bits, padding and length included |
| Base64.EncodeInjective | src/base64.c:91-126 | two byte strings never share an encoding |
| Base64.SymbolIs | src/base64.c:3-4 | the alphabet is A-Z, a-z, 0-9, plus and slash in this order, and each character reads back as its place in it |
| Base64.GroupSpells | src/base64.c:91-126 | four characters spell the number of their three bytes in base 64 |
| Base64.TestVectors | src/base64.c:91-126 | the vectors of section 10 of RFC 4648 |
| Base64.AccStep | src/base64.c:68-76 | one step of the 32-bit accumulator yields the byte and the leftover bits the unbounded reading does |
| Base64.DecodeInto | src/base64.c:33-89 | succeeds exactly when the text encodes some bytes that fit, and then holds them |
| Base64.EncodeInto | src/base64.c:91-126 | writes the encoding and its NUL exactly when both fit |
| SshKey.WriteP384 | src/sshkey.c:22-36 | the generated key's blob: algorithm, curve and point, when it fits |
| SshKey.GeneratedKeyFits | src/auth.c:634-643 | the blob of a point of at most 256 bytes always fits and names its algorithm |
| SshKey.KeyBindingIff | src/sshcert.c:114-132 | a rebuilt certificate key equals a generated P-384 blob exactly when base algorithm, curve and point agree |
| SshKey.KeyOfIff | src/sshkey.c:121-187 | a line holds this key exactly when it is spaces, one token that is no comment and names the blob's algorithm, a gap, the blob in base64 as a whole token, and anything behind a space |
| SshKey.NoKeyIff | src/sshkey.c:132-141 | a line counts as blank exactly when it is spaces followed by nothing or a comment |
| SshKey.LineRoundTrip | src/sshkey.c:50-77 | reading the written line of any blob the buffer holds gives back blob and algorithm exactly when the name is one token that is not a comment |
| SshKey.LineText | src/sshkey.c:50-77 | the written line is the name, a space, the base64 text and a line feed |
| SshKey.LineFits | src/sshkey.c:50-77 | the line of any blob of at most 2048 bytes fits 3072 bytes with its NUL |
| SshKey.WriteLine | src/sshkey.c:50-77 | writes algorithm, space, base64, newline and NUL exactly when they fit |
| SshKey.ParseLine | src/sshkey.c:121-187 | blob and algorithm of a line, telling blank lines from malformed ones |
| SshKey.CaList.Load | src/sshkey.c:217-277 | keeps the first 32 usable keys in order; malformed exactly when a malformed line comes before the limit is passed; counts the unusable keys above the line that ended the reading |
| SshKey.StopMeans | src/sshkey.c:217-271 | the reading ends at the first malformed line or the 33rd usable key, and at no line above it |
| SshKey.LateLineUnread | src/sshkey.c:260-266 | a malformed line refuses the file behind 32 usable keys, and does not behind 33 |
| Sse.ChunkInvariance | src/sse.c:106-136 | any split of a stream gives the same state, callbacks and latches as the whole |
| Sse.RunFromAppend | src/sse.c:113-134 | feeding a then b is feeding a + b |
| Sse.LatchStays | src/sse.c:109-111 | once stopped or overflowed, no later byte changes anything |
| Sse.SplitLinesMeaning | src/sse.c:113-126 | the batch reading's lines are the pieces between line feeds, and its tail holds no line feed |
| Sse.RunRefinesBatch | src/sse.c:21-134 | the callbacks before the first latch are exactly the events of the stream split, folded and cut as a batch |
| Sse.QuietRun | src/sse.c:106-136 | with nothing to stop or overflow it, the parser's callbacks are all the events of the stream |
| Sse.TailIsSilent | src/sse.c:5-18 | bytes after the last line feed dispatch nothing |
| Sse.EventsFit | src/sse.c:84-92 | every event's data is below the data buffer's size |
| Sse.FieldIff | src/sse.c:51-71 | the lines that give a field a value: a name without a colon, the colon, at most one blank that belongs to neither, and the value |
| Sse.TrimCrIff | src/sse.c:113-126 | one carriage return is dropped from the end where there is one |
| EventText.StreamReads | src/sse.c:21-134 | any list of events, written with noise lines, a name, data lines and either line ending, makes exactly those callbacks; the parser stops at the last where its callback does |
| EventText.EventFed | src/sse.c:38-104 | one such event behind any others makes one callback |
| EventText.LineOverflowIff | src/sse.c:129-133 | a line overflows the parser exactly from 65536 bytes on |
| EventText.NameOverflowIff | src/sse.c:73-81 | an event name does exactly from 128 bytes on |
| Sse.Parser.DispatchEvent | src/sse.c:20-36 | calls back once when something accumulated, then resets; a refusal latches the stop |
| Sse.Parser.Handle | src/sse.c:38-104 | one line's effect: dispatch, comment, event name, data with joining newline, or overflow |
| Sse.Parser.SetName | src/sse.c:73-81 | keeps the event name and its NUL in the name buffer |
| Sse.Parser.AppendData | src/sse.c:84-99 | appends a data line behind a newline where data is present, or latches overflow |
| Sse.Parser.EndLine | src/sse.c:116-126 | trims one carriage return, handles the line and empties it |
| Sse.Parser.ExtendLine | src/sse.c:129-133 | one more byte of a line, or overflow when the line buffer is full |
| Sse.Parser.Feed | src/sse.c:106-136 | the state after a chunk is the specified run, with every buffer index in bounds |
| Waiting.Wait.OnEvent | src/auth.c:129-154 | records a terminal event and stops; any other leaves the record alone and goes on |
| Waiting.Wait.OnEvents | src/auth.c:129-154 | the record after the callbacks of a chunk, in order |
| Httpc.EventDecides | src/auth.c:89-154 | a connection below 300 that hands over one event ends with it on record when its name is approved, denied, expired, enrolled or failed, and with the record unchanged for any other name |
| Httpc.CallsFit | src/auth.c:144-146 | behind the parser's cap no event is ever too long: the callback's too-long branch is unreachable |
| Httpc.CallsShape | src/auth.c:129-154 | on one connection every callback but a last, stopping one is informational |
| Httpc.StreamOutcome | src/httpc.c:627-660 | a connection delivers exactly when the body it read holds a terminal event, and records the first |
| Httpc.WaitOutcome | src/httpc.c:722-762 | OK means the record is the first terminal event of the last connection's body below status 300; any other end leaves the record alone, unless a transfer step failed on the very event that stopped the parser |
| Httpc.ReconnectOnlyWhen | src/httpc.c:729-755 | a reconnect follows only a retryable refusal with a body or a connection with a response code on record |
| Httpc.DropIff | src/httpc.c:627-660 | a transfer that ended without an event or a refusal is taken up again exactly when it had a response code, whatever earlier connections had |
| Httpc.RestartNotSurvived | src/httpc.c:722-754 | after a dropped stream, one connection without a response ends the wait, whatever time and connections are left |
| Httpc.RefusalNeedsBody | src/httpc.c:648-659 | a status of 300 or above counts as a refusal exactly when a body came with it |
| Httpc.ReconnectBound | src/httpc.c:679-695 | with a monotone clock and full sleeps, at most 1 + (deadline - now)/250 connections are opened |
| Httpc.WaitEndsInTime | src/httpc.c:570-625 | on a platform that keeps time within a lag, a wait reads no clock later than that lag past its deadline |
| Httpc.TimeoutIsLate | src/httpc.c:579-582 | a timeout is only reported with a clock reading at or past the deadline |
| Httpc.PollRuns | src/httpc.c:472-502 | the parser's state after a poll loop is its run over the chunks handed over so far, whatever the turns they came in |
| Httpc.Deliver | src/httpc.c:472-502 | the write callback over one step's chunks: parser and record as specified, and nothing once the status is 300 or above |
| Httpc.DeliverChunk | src/httpc.c:485-501 | one chunk: fed to the parser, its new events to the record |
| Httpc.RunOneStream | src/httpc.c:514-677 | one connection: poll turns until the transfer ends, the deadline or a cancellation, then the classification; equals the specified connection |
| Httpc.WaitToReconnect | src/httpc.c:679-695 | sleeps the delay or what is left, and says whether to go on |
| Httpc.RunEvents | src/httpc.c:697-766 | the reconnect loop: result, status and record of the specified run |
| PrincipalsMap.ParseIff | src/principals_map.c:275-387 | the single-pass parser with a set of names accepts exactly the well-formed files and builds the account's entry |
| PrincipalsMap.LoadIff | src/principals_map.c:228-395 | loading answers OK exactly for well-formed files below the size cap, with the first 64 short principals listed; names are distinct; else the entry is empty |
| PrincipalsGrammar.ItemIff | src/principals_map.c:279-329 | the lines that list a principal: spaces, a dash, a space, a bare or quoted name with blanks around, and a comment or none |
| PrincipalsGrammar.AccountIff | src/principals_map.c:336-380 | the lines that name an account: not indented, a bare or quoted key that ends at the first colon outside quotes, a value, and a comment or none |
| PrincipalsGrammar.BlankIff | src/principals_map.c:284-302 | the lines that say nothing: blanks without a tab in the indentation, and a comment or none |
| PrincipalsGrammar.FlowIff | src/principals_map.c:144-190 | an inline list is brackets around blanks, or around bare or quoted names between commas |
| PrincipalsGrammar.CommentIff | src/principals_map.c:46-67 | a comment starts at the first hash outside quotes that starts the line or follows a blank |
| PrincipalsGrammar.ColonIff | src/principals_map.c:111-131 | a key ends at the first colon outside quotes |
| PrincipalsGrammar.TrimIff | src/principals_map.c:69-80 | trimming drops exactly the blanks around a text |
| PrincipalsGrammar.ScalarIff | src/principals_map.c:82-109 | a name is written bare, or between quotes of one kind that it does not hold, without a backslash |
| PrincipalsGrammar.ValueIff | src/principals_map.c:343-380 | behind an account stands nothing, null or a tilde, or an inline list |
| PrincipalsText.MapRoundTrip | src/principals_map.c:228-395 | a map printed with quoted names loads exactly when no account is written twice, no name in an inline list holds a comma and the text is below the size cap; the account then has its first 64 short principals |
| PrincipalsText.AccountLineReads | src/principals_map.c:343-380 | a printed account line reads back as that account with an open list, whatever hashes, colons or spaces its name holds |
| PrincipalsText.ItemLineReads | src/principals_map.c:309-341 | a printed item line reads back as that principal |
| PrincipalsText.InlineLineReads | src/principals_map.c:144-190 | a printed inline list reads back as its names, and is refused exactly when a quoted name holds a comma |
| PrincipalsMap.RescanAgrees | src/principals_map.c:210-223 | the rescan's shorter reading of an accepted line shows the same account name |
| PrincipalsMap.RescanFinds | src/principals_map.c:196-226 | over accepted lines the rescan finds a name exactly when an account line declared it |
| PrincipalsMap.RescanIsSet | src/principals_map.c:192-226 | rescanning the lines so far answers as the set of names would |
| PrincipalsMap.LineLength | src/principals_map.c:279-281 | the distance to the next line feed or the end of the file |
| PrincipalsMap.StripComment | src/principals_map.c:46-67 | cuts at a hash that starts the line or follows a blank outside quotes |
| PrincipalsMap.Trim | src/principals_map.c:69-80 | drops blanks and carriage returns at both ends |
| PrincipalsMap.Unquote | src/principals_map.c:82-109 | strips one pair of quotes and refuses escapes, embedded and unterminated quotes |
| PrincipalsMap.SplitKey | src/principals_map.c:111-131 | splits at the first colon outside quotes and trims both sides |
| PrincipalsMap.AccountSeen | src/principals_map.c:192-226 | whether a line before this one shows the name |
| PrincipalsMap.Principals.StoreOne | src/principals_map.c:133-142 | keeps a principal only for a found account, below 64 entries and 128 bytes |
| PrincipalsMap.Principals.ParseFlow | src/principals_map.c:144-190 | the inline list's scalars, stored in order when collecting; refused on an empty or badly quoted one |
| PrincipalsMap.LoadLine | src/principals_map.c:279-380 | one line's effect on the open account and the entry |
| PrincipalsMap.LoadAccount | src/principals_map.c:343-380 | an account line: refused when malformed or already shown, else opens, empties or fills |
| PrincipalsMap.Load | src/principals_map.c:228-395 | the loop over the file equals the specified load, leaving an empty entry on any failure |
| PrincipalsMap.Allow | src/principals_map.c:397-412 | allowed exactly when some certificate principal and some entry are the same C string |
| Json.Utf8RoundTrip | src/json.c:30-61 | the bytes written for a code point decode to it, in the one length its range has |
| Json.Utf8Examples | src/json.c:63-84 | one example of each length, byte for byte |
| Json.HexIff | src/json.c:30-61 | the digits of either case and what they are worth |
| Json.EscapeIff | src/json.c:92-166 | the eight one-character escapes and their bytes |
| Json.EscapeReads | src/json.c:92-166 | one of them behind any readable text is read as its byte, and a backslash before anything else but a u spoils the text |
| Json.UnescapeAppend | src/json.c:92-166 | behind a readable text, what unescapes is its bytes and what the rest unescapes to |
| Json.UnescapeScalar | src/json.c:133-158 | behind any readable text, every Unicode scalar written with one or two \u escapes, hex digits in either case, unescapes to its UTF-8 form |
| Json.ScalarSpelled | src/json.c:133-158 | every Unicode scalar has such a spelling |
| Json.EveryScalar | src/json.c:133-158 | so every scalar can be written between any two readable texts |
| Json.LoneSurrogateRefused | src/json.c:140-153 | behind any readable text, a high surrogate without its low half, or a low one alone, is refused |
| Json.UnescapeEscape | src/json.c:290-347 | what the writer escapes unescapes to the original bytes, whatever follows |
| Json.StringRoundTrip | src/json.c:92-166 | unescaping what the writer puts between the quotes gives the string back |
| Json.ByteWritten | src/json.c:290-347 | the writer's spelling of each byte: five short escapes, four hex digits for other control characters, and itself |
| Json.EscapedIsText | src/json.c:290-347 | no control character is left in what the writer puts between the quotes |
| Json.ReadHex4 | src/json.c:63-84 | four hex digits in either case as a number, or a refusal |
| Json.PutUtf8 | src/json.c:30-61 | writes the encoding exactly when it fits with a NUL to spare |
| Json.PutUnit | src/json.c:96-161 | one character or escape read and its bytes written, or a refusal |
| Json.UnescapeInto | src/json.c:92-166 | succeeds exactly when the text unescapes to something that fits, and then holds it; refused, the buffer holds what had been read |
| Json.JsonWriter.Append | src/json.c:277-288 | appends all of the text or latches, keeping what was there |
| Json.JsonWriter.AppendString | src/json.c:290-347 | appends the quoted escaped string or latches with the length unchanged |
| JsonLookup.LookupOnTree | src/json.c:191-214 | on the pre-order tokens of a tree, finds the first direct member with the name, and answers -1 exactly when there is none |
| JsonLookup.FirstMemberIff | src/json.c:191-214 | the member meant is the first one whose key is this text |
| JsonLookup.LookupFinds | src/json.c:191-214 | on any token array, what is found stands behind a string token with the name, in an object |
| JsonLookup.StringFieldOnTree | src/json.c:216-252 | on a JSON tree, a string field is the unescaped text of the first direct member with that name, of the top object or of its first direct object member, and nothing in every other case |
| JsonLookup.LongBodyUnread | src/json.c:222-224 | nothing is read from a body above 65536 bytes |
| JsonLookup.SkipLands | src/json.c:176-189 | skipping a member's value lands on the next key, past everything nested in it |
| JsonLookup.Skip | src/json.c:180-189 | the first later token that does not start inside this one |
| JsonLookup.ObjectGet | src/json.c:193-214 | the lookup loop equals the specified scan |
| JsonLookup.GetString | src/json.c:216-252 | reads that field into the buffer, and says what the buffer holds when it is refused part way |
| Duration.FractionIsDec | src/args.c:58-88 | the fraction accumulator is the digits' number and count until 64 bits are full |
| Duration.UnitIff | src/args.c:20-34 | the eight unit names, both micro signs included, and the nanoseconds of each |
| Duration.NanosExact | src/args.c:163-172 | a term whose fraction divides its unit reads as the exact number it names |
| Double.RoundIsNearest | src/args.c:163-172 | the model's rounding: no representable double is nearer to the number rounded |
| Double.TiesToEven | src/args.c:151-161 | halfway between two integers the even one is taken |
| Fractions.PartClose | src/args.c:163-172 | the double expression for any fraction of any unit stays within the unit, at most 0.07 above and less than 1.07 below what its digits name |
| Fractions.PartExact | src/args.c:163-172 | it is exact where ten to the number of digits divides the unit |
| Duration.FractionDrops | src/args.c:58-88 | digits dropped from a full accumulator leave the beginning of the fraction's number |
| Duration.NanosClose | src/args.c:163-172 | any term reads within 0.07 ns above and 1.08 ns below the number it names, dropped digits included |
| Duration.CloseReading | src/args.c:114-184 | with any fractions, a parsed value is the exact sum of the terms to within that much for each, and a text is refused only from the 64-bit maximum on, to within it |
| Duration.Reading | src/args.c:114-184 | any signed list of terms parses to its signed sum, and is refused exactly when the sum exceeds int64 |
| Duration.ParseIff | src/args.c:90-185 | accepted with value d exactly when the text is a signed 0 or a signed list of terms whose sum fits and gives d |
| Duration.TextsAre | src/args.c:90-185 | how terms and signs are written |
| Duration.Examples | src/args.c:90-185 | four texts, with and without digits on either side of the point, and their values |
| Duration.ExactReading | src/args.c:114-184 | with exact fractions the value is the exact sum, refused exactly when above the 64-bit maximum |
| Duration.LookUp | src/args.c:151-161 | the table search gives the unit's nanoseconds, or 0 for an unknown name |
| Duration.LeadingInt | src/args.c:37-56 | the digit run's number, refused exactly when it exceeds the 64-bit maximum |
| Duration.LeadingFraction | src/args.c:62-88 | the accumulated fraction and the double that scales it, digits beyond a full accumulator consumed and dropped |
| Duration.ReadNumber | src/args.c:122-142 | digits before and after the point, and whether there are any |
| Duration.ReadTerm | src/args.c:114-176 | one loop turn reads the term at the cursor or refuses it |
| Duration.Scale | src/args.c:163-176 | the wrap of the 64-bit sum is caught exactly when the term is too large |
| Duration.ScalePart | src/args.c:171 | the double expression and its cast, which never exceeds the unit |
| Duration.Cell.Parse | src/args.c:90-185 | the whole parser; a refused text leaves the configured value untouched |
| DurationText.RoundTrip | src/args.c:191-278 | parsing a printed duration gives it back for every int64 but the most negative, which is refused |
| DurationText.Examples | src/args.c:191-278 | three durations as they are printed |
| DurationText.TermsMeaning | src/args.c:222-278 | the printed terms are exact and sum to the magnitude |
| DurationText.FracValue | src/args.c:204-220 | dropping trailing zeros from a fraction keeps its value |
| DurationText.FmtInt | src/args.c:191-202 | writes the decimal digits right to left in front of what was there |
| DurationText.FmtFrac | src/args.c:204-220 | writes point and fraction without trailing zeros, and returns the digits above |
| DurationText.RenderSmall | src/args.c:233-254 | below a second: one term in ns, µs or ms |
| DurationText.RenderLarge | src/args.c:255-271 | from a second on: seconds with their fraction, then minutes and hours where there are any |
| DurationText.Render | src/args.c:222-278 | the caller's buffer holds the specified rendering as a C string, whole from 33 bytes on and its beginning in a smaller one |
| DurationText.RenderText | src/args.c:222-275 | the text is the specified rendering and always fits the 32-byte buffer it is built in |
| Civil.DaysAdvance | src/json.c:359-369 | 1970-01-01 is day 0, and the day after any valid date has the next number |
| Civil.DaysMonotone | src/json.c:359-369 | day numbers order valid dates exactly as the calendar does |
| Civil.DaysLinear | src/json.c:366-368 | day numbers within a month are consecutive even past the month's end |
| Civil.ParseIff | src/json.c:385-444 | a text is accepted with second t exactly when it is the printed form of a timestamp in range that names t |
| Civil.RoundTrip | src/json.c:385-444 | parsing a printed timestamp returns its Unix second |
| Civil.EpochParses | src/json.c:385-444 | 1970-01-01T00:00:00Z is second 0 |
| Civil.ExamplesParse | src/json.c:385-444 | the first two examples of section 5.8 of RFC 3339 and their seconds |
| Civil.NextSecondParses | src/json.c:385-444 | the timestamp that shows the next second, carrying into minute, hour and date, parses to one more |
| Civil.LeapSecondParses | src/json.c:401-404 | second 60 parses to one more than second 59 |
| Civil.OffsetParses | src/json.c:419-440 | an offset +hh:mm is hh hours and mm minutes less than the same time with Z, and -hh:mm as much more |
| Civil.RangesParse | src/json.c:401-404 | the numbers a timestamp may show in each of its places |
| Civil.OffsetSpellings | src/json.c:419-440 | every offset spelling of one instant, any number of midnights apart, parses to the same second |
| Civil.OnlySpellings | src/json.c:419-440 | two timestamps on calendar dates that parse to one second are spellings of one instant |
| Civil.FebruaryRunsOn | src/json.c:401-404 | 31 February 2026 is taken, and is 3 March |
| Civil.Digits | src/json.c:371-383 | n digits as a number, reading no byte past the terminator |
| Civil.Parse | src/json.c:385-444 | the parser meets the acceptance condition and never reads past the terminator |
| Civil.ParseFields | src/json.c:406-443 | fraction, zone and offset read after the leading fields, with the same result as the specified parse |
| Civil.ParseLocal | src/json.c:387-404 | the six leading numbers and their separators and ranges |
| Checks.CheckCaSignature | src/checks.c:56-116 | the first trusted key that verifies the signed bytes; otherwise whether any was merely unsupported |
| Checks.CheckPrincipal | src/checks.c:144-231 | the account's own name is enough, and a map that loads can only add to it |
| Checks.PrincipalMeans | src/checks.c:163-203 | with NUL-free names, the map adds exactly the short principals it lists first for the account |
| Checks.PrincipalIff | src/checks.c:163-203 | for any names, the map adds exactly the certificate principals below 128 bytes that read as the same C string as one it lists |
| Checks.NulAdmits | src/checks.c:184-193 | a principal that goes on behind a NUL is taken for the entry before it |
| Checks.CheckValidity | src/checks.c:233-265 | the clamped bounds widened by whole seconds, in 64-bit arithmetic |
| Checks.WindowFits | src/checks.c:246-264 | for any clock and either sign of tolerance, accepted exactly between the widened bounds while both are int64 |
| Checks.WindowIff | src/checks.c:246-264 | for every 64-bit clock and tolerance: accepted exactly inside the widened window, where a start outside int64 bounds nothing and an end outside int64 refuses every clock past the epoch |
| Checks.WindowByNumbers | src/checks.c:240-264 | with bounds that stay in int64 a certificate is accepted exactly from its own start less the tolerance to its own end plus it |
| Checks.WindowOfAny | src/checks.c:240-264 | the same for every certificate on clocks from the epoch on, with the last int64 second in place of larger bounds |
| Checks.ForeverRefused | src/checks.c:236-264 | a certificate valid for ever is refused with a tolerance of a second or more, and accepted with less |
| Checks.TooEarlyAccepted | src/checks.c:246-256 | with a tolerance of minus a second or less, a certificate valid from the last second on is taken at earlier clocks |
| Auth.SuccessIff | src/auth.c:770-895 | success exactly when the run was prepared, the wait delivered, and the first terminal event of the last body approves with a vouched certificate |
| SampleRun.ApprovedRunSucceeds | src/auth.c:499-895 | the run in which a server delivers, in one approved event, any certificate within the limits that its trusted key verifies, for this account and point and valid now, answers success |
| Auth.ApprovedIffOnTree | src/auth.c:784-895 | with a tokeniser whose arrays hold trees, approval is what the delivered envelope's tree says: no error string that decodes to 1 to 511 bytes without a NUL in front, and a certificate line in its data object |
| Auth.GroundsOnTree | src/auth.c:784-847 | the same for one event and one certificate |
| Delivery.ErrorIff | src/auth.c:784-805 | an envelope's error is seen exactly when there is one that is not empty and not missed: it decodes, to fewer than 512 bytes, and does not start with a NUL |
| Delivery.LongIsMissed | src/json.c:92-166 | errors without a backslash of 512 bytes or more are missed, and so are those that do not decode |
| Delivery.SurrogateIsMissed | src/json.c:140-153 | half a surrogate pair anywhere makes an error one of the latter |
| Delivery.BesideError | src/auth.c:784-876 | an approved envelope with a certificate and an error has grounds exactly when the certificate is vouched for and the error is empty or missed |
| Delivery.LongErrorIgnored | src/auth.c:784-805 | one such error of 512 bytes, and the failure beside one byte less of it |
| Delivery.EnvelopeReads | src/json.c:216-252 | error and certificate of that envelope read back from its tree |
| Delivery.EnvelopeFits | src/json.c:222-224 | with any certificate within the limits and an error of at most 1000 bytes it is within the response limit |
| Delivery.CertLineReads | src/auth.c:822-847 | the line of any certificate within the limits fits its buffer, and reading it gives the certificate back |
| Delivery.LineDelivers | src/auth.c:822-847 | an envelope that holds that line, however its characters are escaped, delivers the certificate |
| Auth.JudgedIff | src/auth.c:784-895 | the decision on a delivered event is success exactly when such a certificate is in it |
| Auth.AuthErrIff | src/auth.c:267-324 | a definite "no" exactly when time ran out or a delivered event without an error that is seen gave no grounds, on a run nobody interrupted |
| Auth.IgnoreIff | src/auth.c:267-324 | the module stands aside exactly when it is not an SSH session it was told to wait for, when the create call or the wait was cancelled, or when an interrupted armed run came back without an approval |
| Auth.UserUnknownIff | src/auth.c:517-560 | "user unknown" exactly when no server is configured |
| Auth.NoModuleDataIff | src/auth.c:517-579 | "no module data" exactly when no CA file is configured or it holds no usable keys |
| Auth.AbortIff | src/auth.c:499-895 | "abort" exactly when memory, key or room for the request is missing, or the HTTP library itself failed on a run nobody interrupted |
| Auth.UnavailableIff | src/auth.c:499-895 | "unavailable" exactly when the server was not reached, refused, sent too much or an unusable response, or an error beside the outcome is seen |
| Auth.TrustedKeysMean | src/auth.c:562-579 | the trusted keys are the first 32 usable ones of a file below 32768 bytes without a malformed line among those read |
| Auth.EventsUrlIff | src/auth.c:671-768 | the events URL is the server with the absolute path of its response behind it, when the response can be shown |
| Auth.PromptOnTree | src/auth.c:736-760 | on the response's tree: a console needs a code and a page that start with something to show, anything else an approval path behind the server |
| Auth.ModeNames | src/auth.c:157-168 | the three modes as the server knows them |
| Auth.DeadlineMeans | src/auth.c:703-734 | the computed deadline is at most the timeout after the start; a printed expiry bounds it as well, and text that is no timestamp changes nothing |
| Auth.DeadlineByNumbers | src/auth.c:703-734 | without an expiry the wait is the timeout's whole milliseconds |
| Auth.WaitBounded | src/auth.c:703-782 | a run's wait reads no clock later than one lag past the configured timeout, or past its own beginning if that was later |
| Auth.DeliversIff | src/auth.c:822-847 | the envelope's certificate line carries the serialisation of this user certificate |
| Auth.PassesIff | src/auth.c:866-876 | the four checks hold exactly when a CA vouches for the signed bytes, the key is this attempt's point, the account is admitted and the window holds |
| Auth.MakeKey | src/auth.c:634-643 | key generation fails only when the platform's does |
| Auth.LoadTrusted | src/auth.c:562-579 | trusted keys, or "no module data" for an unreadable, oversized, malformed or unusable file |
| Auth.Prepare | src/auth.c:517-654 | everything before arming, each exit with its code, the request body included |
| Auth.BuildBody | src/auth.c:203-265 | the body of this run's request fits exactly when its text and a NUL do |
| Url.JoinKeepsAuthority | src/auth.c:335-358 | a joined URL has the configured origin's authority, whatever the server's value holds |
| Url.JoinIff | src/auth.c:335-358 | a joined URL is the origin with the path behind it, and only an absolute path that is not scheme-relative and fits is joined |
| Url.AuthorityBehind | src/auth.c:340-349 | text behind a URL leaves its authority alone exactly when the URL goes on past it, or the text is empty or starts with what ends an authority |
| Url.WithoutSlash | src/auth.c:340-352 | behind a bare origin, a value that would change the authority is refused |
| Url.AnotherHost | src/auth.c:340-349 | one such value and the host it would have gone to |
| Url.JoinInto | src/auth.c:335-358 | only an absolute path that is not scheme-relative is joined, and only when it fits; the authority is kept |
| CreateBody.QuotedReads | src/auth.c:203-265 | a string written into the body is read back whole, whatever follows it: its own closing quote ends it |
| CreateBody.BodyIs | src/auth.c:203-265 | the body member by member: the key line, the account, what the process tells, at most eight fingerprints and the addresses |
| CreateBody.ToldIs | src/auth.c:203-265 | what the process tells, as a table of names and values in order |
| CreateBody.SubjectReads | src/auth.c:203-265 | the key stands under public_key and the account under username |
| Auth.RequestReads | src/auth.c:203-265 | a server that reads the request finds this attempt's own key under public_key and the account under username |
| CreateBody.Build | src/auth.c:203-265 | the body is the specified text of the request's fields, when it fits with its NUL |
| CreateBody.PutOpt | src/auth.c:173-182 | an optional field, left out when empty, behind what was appended before |
| CreateBody.PutItems | src/auth.c:240-248 | strings with commas between them |
| Auth.ReadField | src/json.c:254-264 | a string field as the C string its buffer ends up holding |
| Auth.ReadBuffer | src/json.c:254-264 | what an optional field leaves in its zeroed buffer as a C string, refused part way or not |
| Auth.CheckPrompt | src/auth.c:736-760 | the response holds a code and a page on a console, a usable approval URL elsewhere |
| Auth.Request | src/auth.c:671-768 | the create call's outcome, the prompt's fields and the events URL, each exit with its code; the events URL keeps the server's authority |
| Auth.BoundWait | src/auth.c:659-734 | the deadline is the earlier of the timeout and a server expiry that parses |
| Auth.CheckAll | src/auth.c:866-876 | the four checks in order, against the parsed certificate |
| Auth.JudgeLine | src/auth.c:831-876 | a certificate line passes exactly when it parses to a user certificate and all checks hold |
| Auth.Judge | src/auth.c:784-895 | the code for a delivered event |
| Auth.AwaitDecision | src/auth.c:671-895 | the armed part of a run |
| Auth.Authenticate | src/auth.c:499-916 | the code of a whole run, and every run that returns has disarmed the handler |
| Der.IntegerReads | src/der.c:45-65 | the encoded integer reads back, by X.690's rules, as the same unsigned number |
| Der.ContentMeans | src/der.c:45-65 | the content is the shortest two's complement form of the magnitude |
| Der.IntegerIff | src/der.c:45-65 | equal encodings exactly for equal magnitudes: leading zeros change nothing |
| Der.LenShortest | src/der.c:13-31 | no length octets naming the same length are fewer |
| Der.PairReads | src/der.c:88-108 | a re-encoded signature decodes to the same two integers with nothing left over |
| Der.PairIff | src/der.c:88-108 | two re-encoded signatures are equal exactly when both integers are |
| Der.PairBound | src/der.c:92-97 | magnitudes up to 66 bytes stay inside the 256-byte body |
| Der.SignatureExample | src/der.c:88-108 | a small signature byte for byte |
| Der.SpkiReads | src/der.c:123-153 | the key wrapper reads back as its algorithm and key, no unused bits |
| Der.RsaReads | src/der.c:190-229 | an RSA key reads back with the same modulus, then exponent |
| Der.RsaIff | src/der.c:190-229 | two encoded RSA keys are equal exactly when modulus and exponent are |
| Der.KeyShape | src/der.c:190-229 | the bytes around every RSA key: rsaEncryption without parameters and a bit string with no unused bits |
| Der.RsaBound | src/der.c:190-229 | an 8192-bit modulus with an 8-byte exponent fits every fixed buffer |
| Der.PutLen | src/der.c:17-31 | short and long length forms, latching past two bytes or when out of room |
| Der.PutTlv | src/der.c:33-38 | tag, length and content, or a latched failure when they do not fit |
| Der.PutBitString | src/der.c:67-75 | a bit string without unused bits, or a latched failure |
| Der.PutInteger | src/der.c:45-65 | appends the specified INTEGER or latches |
| Der.EcdsaSig | src/der.c:88-108 | succeeds exactly when body and output fit, with the specified sequence |
| Der.RsaPkcs1 | src/der.c:190-211 | succeeds exactly when inner buffer and output fit, modulus before exponent |
| Der.PutSpki | src/der.c:125-153 | succeeds exactly when the three buffers fit, with the specified wrapper |
| Der.SpkiRsa | src/der.c:213-229 | succeeds exactly when every buffer on the way fits |
| Der.EcdsaSigToDer | src/crypto_common.c:40-53 | succeeds exactly on two strings and nothing else that fit the body and the output; the result decodes to the same two integers |
| Conv.FilterMeans | src/conv.c:91-120 | kept plus dropped bytes are the input's, and what is kept is the beginning of the clean text, all of it when it fits |
| Conv.FilterTwice | src/conv.c:91-120 | filtering twice equals filtering once, for every class and buffer size |
| Conv.KeptIsAllowed | src/conv.c:13-89 | what is kept is whole pieces: characters of the class, or block characters of three bytes |
| Conv.CodeIff | src/conv.c:13-38 | the alphabet of codes: Crockford's base 32 and the dash |
| Conv.UrlIff | src/conv.c:13-38 | the alphabet of URLs: the characters of RFC 3986 and the percent sign |
| Conv.PassesIff | src/conv.c:91-120 | a text passes unchanged exactly when it is such pieces and fits |
| Conv.TakeBlock | src/conv.c:49-70 | a block character is taken whole or not at all, reading no byte past the terminator |
| Conv.Sanitize | src/conv.c:91-120 | the buffer holds the kept text and its NUL, and the count is what was dropped |
| Qr.PictureReads | src/qr.c:64-93 | the picture reads back cell for cell as the matrix inside its quiet zone |
| Qr.PictureShows | src/qr.c:64-93 | every character leaves dark exactly the dark modules of its column in its two rows |
| Qr.Glyphs | src/qr.c:64-93 | the four characters: light halves are drawn, dark ones left to the background |
| Qr.PictureDetermines | src/qr.c:64-93 | two codes of one size with one picture are the same code |
| Qr.PictureFits | src/qr.c:8-14 | a picture of at most 33 modules fits 2560 bytes with its NUL |
| Qr.PicturePasses | src/conv.c:44-89 | the whitelist lets every such picture through unchanged |
| Qr.Render | src/qr.c:43-97 | the picture when it fits with its NUL, an empty string otherwise |
| Qr.RenderRows | src/qr.c:64-93 | every line in order, stopping exactly when the picture does not fit |
| Qr.RenderRow | src/qr.c:67-92 | one line of characters and its newline, when they fit |

## Left out

- Signature verification, hashing and key generation belong to the platform: verification is a function of algorithm, key, signed bytes and signature about which nothing is assumed; key generation yields a point or fails.
- libcurl, TLS and sockets: a connection is a response code and the turns of its poll loop, each with the clock and flag it reads, the body chunks handed over and how it goes on, with the TLS floor met. How long a slice lasts is the lag of the time theorems. The error text kept from a refusal's body is not modelled.
- The JSON tokeniser is vendored: it is a parameter, and the theorems on trees take its array to be the pre-order flattening of a tree with nested spans.
- Event streams: the subset of section 9.2 of the WHATWG HTML standard that src/sse.c implements. Line feeds end lines and one trailing carriage return is trimmed, a name alone is dispatched, and leading empty data lines add no newline; `id` and `retry` mean nothing.
- PAM conversation and the prompt's text; console detection and the host's details are inputs of a run. Cancellation is a flag read where the code reads it.
- File reading: the map and CA loaders start from the bytes of the file, or from "unreadable".
- Log lines and error messages, and with them the skew text of the validity check; a fingerprint is a function of the key blob.
- Parser callbacks are recorded in order as a sequence and applied to the wait's record after each chunk; the C code makes the call inside the feed. The parser stops at the first refusal either way.
- Sleeping and transferring take their own time after the last clock reading; only the readings are bounded.
- Slices the certificate borrows from its blob are held as values, so aliasing is not captured; lines of the map and CA files likewise.
- Auth.BoundWait: the millisecond arithmetic on clocks is unbounded; with years 0 to 9999 it stays inside int64.
- Double precision: non-negative numbers, rounded to nearest with ties to even in every operation; excess precision of a platform's registers is not modelled.
- SSH mpint writing, elliptic-curve and Ed25519 key wrappers, and the lookup from signature algorithm to key type: they repeat patterns proved for the integers and keys above.
- Argument parsing apart from durations, the log escaper, host and address queries.
