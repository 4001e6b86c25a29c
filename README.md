# Microsoft Authenticator export, modelled in Dafny

The script `tools/MSAuthExport/MSAuthExportScript.py` reads the accounts
table of a Microsoft Authenticator `PhoneFactor` database. It turns every
account into an `otpauth://totp/...` provisioning URI and writes those URIs
to a text file, one per line. This project models its core and proves
properties of it:

- `base64_to_base32`. Accounts of type 1 (personal Microsoft accounts) store
  their secret in base64. The script decodes it, then spells the bytes in
  unpadded base32 through a bit accumulator (`bits`, `bit_count`).
  `Convert.EncodeBytes` keeps that loop and the final zero-filled group.
  It is proved equal to `Base32.Encode`, the unpadded base32 of section 6
  of RFC 4648.
- The per-row transform. The secret is cleaned of spaces, tabs, CR and LF.
  Type 1 secrets are converted; the others are upper-cased. The issuer
  defaults to `Unknown` and is percent-encoded, which also applies to the
  account. The label is `issuer:account`, the algorithm is SHA256 for
  type 2 and SHA1 otherwise, and `digits=6&period=30` are fixed. The
  transform is `OtpUri.Transform`. A row whose conversion fails is skipped.
- The export loop. `MSAuthExport.Export` collects the URIs in row order and
  counts the skipped rows.
- The output file. `MSAuthExport.WriteLines` writes each URI followed by
  `'\n'`. `MSAuthExport.Run` returns nothing when the query returned no rows.

The main results are these:

- Conversion: the base32 text decodes to exactly the bytes the base64 text
  stood for, and conversion fails exactly when `base64.b64decode` refuses
  the text. That decoder refuses a text holding any non-ASCII character;
  otherwise it is lenient: it skips ASCII characters outside the alphabet
  and stops at padding that closes a quantum.
- Read-back: a URI parser gets from a row's URI its label (issuer and
  account, percent-decoded), its secret, `digits=6`, `period=30`, its
  algorithm and its issuer, whenever the secret holds no '&', '#', '%' or
  '+'. Every converted secret is such a secret.
- Line structure: no URI holds a line break. So splitting the file at its
  line breaks gives back the exported URIs in row order, then the empty
  text after the last `'\n'`.
- Counting: every row yields one URI or is counted as skipped.

The modules, in dependency order:

- `Wrappers` holds `Option`.
- `Bits` holds bit strings read big-endian, groups of bits, shifts and
  their lemmas.
- `Base64` is base64 as section 4 of RFC 4648 defines it, with its encoder
  as a partner, and `Lenient`, the default mode of `base64.b64decode`. The
  two agree on every text the strict decoder accepts.
- `Base32` is unpadded base32.
- `Percent` is `urllib.parse.quote` with its default `safe='/'`: UTF-8
  (RFC 3629), then `%XX` with upper-case hexadecimal digits (section 2.1 of
  RFC 3986). `Unquote` is its partner.
- `Convert` is `base64_to_base32`.
- `OtpUri` covers one row and what a parser reads back from its URI.
- `MSAuthExport` covers the loop and the file content.

Only type 1 secrets are converted. A type 0 or 2 secret is only cleaned
and upper-cased, so it need not be base32 text. `OtpUri.Secret` states the
base32 property for type 1 only. For the other types it states that the
result is the cleaned key with each lower-case ASCII letter upper-cased.

## Model

| member | source | states |
|---|---|---|
| Convert.Base64ToBase32 | tools/MSAuthExport/MSAuthExportScript.py:23-57 | returns exactly `Transcode` of its input: None when `b64decode` refuses the text, otherwise the base32 spelling of the decoded bytes |
| Convert.EncodeBytes | tools/MSAuthExport/MSAuthExportScript.py:36-54 | the accumulator loop, with its inner emitting loop and the final partial group, produces exactly the unpadded base32 encoding of the bytes |
| Convert.Transcode | tools/MSAuthExport/MSAuthExportScript.py:23-57 | None exactly when `b64decode` refuses the text; otherwise a text of ceil(8n/5) alphabet letters that base32-decodes to the same bytes as the base64 input |
| Convert.ShiftInByte | tools/MSAuthExport/MSAuthExportScript.py:40-42 | `bits = (bits << 8) \| byte; bit_count += 8` keeps the accumulator invariant: bits holds every bit consumed, and the result spells all but the waiting ones |
| Convert.EmitGroup | tools/MSAuthExport/MSAuthExportScript.py:44-47 | `(bits >> bit_count) & 0x1F` is a valid alphabet index, and appending that letter keeps the invariant with five fewer waiting bits |
| Convert.TextGroup | tools/MSAuthExport/MSAuthExportScript.py:46-47 | five more whole bits add one letter, for their value, to the spelling |
| Convert.FlushGroup | tools/MSAuthExport/MSAuthExportScript.py:50-52 | after the loop, appending the flushed letter when bits are still waiting, and nothing otherwise, gives the spelling of every consumed bit |
| Convert.FlushText | tools/MSAuthExport/MSAuthExportScript.py:50-52 | the last, partial group is spelled by `(bits << (5 - bit_count)) & 0x1F` |
| Convert.FlushValue | tools/MSAuthExport/MSAuthExportScript.py:51 | `(bits << (5 - k)) & 0x1F` is the value of the last k bits, zero-filled on the low side to five |
| Base64.Decode | tools/MSAuthExport/MSAuthExportScript.py:30 | the strict decoder that `Lenient` is checked against: rejects any text whose length is not a multiple of four; a decoded text of n quanta with p pad characters gives 3n - p bytes |
| Base64.RoundTrip | tools/MSAuthExport/MSAuthExportScript.py:30 | decoding the padded base64 encoding of any byte string gives it back |
| Base64.Lenient | tools/MSAuthExport/MSAuthExportScript.py:30 | `b64decode` in its default mode gives the same bytes as the strict decoder on every text that decoder accepts |
| Base64.LenientAgrees | tools/MSAuthExport/MSAuthExportScript.py:30 | the character scan of `b64decode` takes the digits of a strictly valid text and stops at its padding, so the two decoders agree |
| Base64.ScanStrict | tools/MSAuthExport/MSAuthExportScript.py:30 | digits followed by the '=' that complete their last quantum are scanned to exactly those digits |
| Base64.LenientRoundTrip | tools/MSAuthExport/MSAuthExportScript.py:30 | `b64decode` of the padded encoding of any byte string gives it back |
| Base64.ScanStopsAtPadding | tools/MSAuthExport/MSAuthExportScript.py:30 | the scan of "QQ==QUJD" stops at its padding and does not take the digits after it |
| Base64.ScanSkipsPad | tools/MSAuthExport/MSAuthExportScript.py:30 | the scan of "QUJD=" skips the '=' that starts a quantum |
| Base64.ScanSkips | tools/MSAuthExport/MSAuthExportScript.py:30 | the scan loop skips a character outside the alphabet other than '=' wherever it stands: removing it does not change the scan (the ASCII check comes before the scan) |
| Base64.LenientSkips | tools/MSAuthExport/MSAuthExportScript.py:30 | `b64decode` skips an ASCII character outside the alphabet other than '=' wherever it stands: removing it does not change the result |
| Base64.LenientRefusesNonAscii | tools/MSAuthExport/MSAuthExportScript.py:30 | `b64decode` refuses a text holding a non-ASCII character, wherever it stands |
| Base64.ScanStopsAfter | tools/MSAuthExport/MSAuthExportScript.py:30 | after digits whose last quantum is closed by one or two '=', whatever follows is not read |
| Base64.ScanPaddingRest | tools/MSAuthExport/MSAuthExportScript.py:30 | one or two '=' that close a quantum stop the scan whatever follows them |
| Base64.LenientExample | tools/MSAuthExport/MSAuthExportScript.py:30 | "QQ==QUJD" is refused by the strict decoder and decoded by `b64decode` |
| Base32.Encode | tools/MSAuthExport/MSAuthExportScript.py:33-54 | ceil(8n/5) letters, all from the alphabet `A-Z2-7` |
| Base32.Decode | tools/MSAuthExport/MSAuthExportScript.py:33 | succeeds exactly on texts of alphabet letters and yields floor(5m/8) bytes |
| Base32.RoundTrip | tools/MSAuthExport/MSAuthExportScript.py:33-54 | base32-decoding the encoding of any byte string gives it back |
| Base32.ZeroFilled | tools/MSAuthExport/MSAuthExportScript.py:49-52 | the digits of an encoding are the bytes' bits followed by fewer than five zero bits |
| Base32.LetterInAlphabet | tools/MSAuthExport/MSAuthExportScript.py:33 | a character is upper-case A-Z or a digit 2-7 exactly when it is in the alphabet |
| Base32.TextSnoc | tools/MSAuthExport/MSAuthExportScript.py:47-52 | extending whole groups by up to five bits appends one letter, for their zero-filled value |
| Percent.Quote | tools/MSAuthExport/MSAuthExportScript.py:136-137 | every character of the result is a safe character or '%', so it holds no ':', '?', '&', '=', '#', '+' or line break |
| Percent.UnquoteQuote | tools/MSAuthExport/MSAuthExportScript.py:136-137 | percent-decoding the result of `quote` gives back the UTF-8 bytes of its input |
| Percent.QuoteSafe | tools/MSAuthExport/MSAuthExportScript.py:136 | `quote` leaves a text of safe ASCII characters unchanged |
| Percent.UnquoteAppend | tools/MSAuthExport/MSAuthExportScript.py:141 | percent-decoding a concatenation concatenates the decoded parts |
| OtpUri.Remove | tools/MSAuthExport/MSAuthExportScript.py:117 | `replace(c, '')` keeps exactly the characters other than c, and leaves a text without c unchanged |
| OtpUri.RemoveChar | tools/MSAuthExport/MSAuthExportScript.py:117 | one character is dropped exactly when it is c |
| OtpUri.RemoveAppend | tools/MSAuthExport/MSAuthExportScript.py:117 | removing works piecewise, so with `RemoveChar` every c is dropped and every other character is kept in order |
| OtpUri.Clean | tools/MSAuthExport/MSAuthExportScript.py:117 | the cleaned secret has no space, tab, LF or CR, and a text without them is left unchanged |
| OtpUri.CleanAppend | tools/MSAuthExport/MSAuthExportScript.py:117 | the cleanup works piecewise: cleaning a concatenation concatenates the cleaned parts |
| OtpUri.CleanChar | tools/MSAuthExport/MSAuthExportScript.py:117 | one character is dropped exactly when it is one of the four blanks |
| OtpUri.CleanIdempotent | tools/MSAuthExport/MSAuthExportScript.py:117 | cleaning twice is cleaning once |
| OtpUri.Upper | tools/MSAuthExport/MSAuthExportScript.py:125 | `upper()` keeps the length, leaves no lower-case letter, moves each of a-z to A-Z and leaves every other character as it is |
| OtpUri.UpperIdempotent | tools/MSAuthExport/MSAuthExportScript.py:125 | upper-casing twice is upper-casing once |
| OtpUri.UpperKeeps | tools/MSAuthExport/MSAuthExportScript.py:125 | a text without lower-case letters is its own upper case |
| OtpUri.Secret | tools/MSAuthExport/MSAuthExportScript.py:115-130 | type 1 fails exactly when the cleaned secret is not base64, and otherwise base32-decodes to the same bytes; other types always succeed with the cleaned key, each a-z upper-cased, and no lower-case letter left; no secret holds a blank |
| OtpUri.Transform | tools/MSAuthExport/MSAuthExportScript.py:115-151 | a row is skipped exactly when it is of type 1 and `b64decode` refuses its cleaned secret; otherwise its URI is `RowUri`, the template of line 149 (`Uri` and `Query`) filled by `Issuer` (line 133), `Account` (line 134), `Label` (lines 139-143) and `Algorithm` (line 146) |
| OtpUri.LabelChars | tools/MSAuthExport/MSAuthExportScript.py:136-143 | the label holds no '?', no '#' and no line break |
| OtpUri.LabelReadBack | tools/MSAuthExport/MSAuthExportScript.py:133-143 | the label percent-decodes to the UTF-8 of the issuer, followed by ':' and the account when there is one |
| OtpUri.UriParts | tools/MSAuthExport/MSAuthExportScript.py:149 | a parser finds the label between the scheme and the first '?', and the query after it |
| OtpUri.PathAndQuery | tools/MSAuthExport/MSAuthExportScript.py:149 | for any path without '?', the path and the query of `otpauth://totp/path?query` come back apart |
| OtpUri.SplitJoin | tools/MSAuthExport/MSAuthExportScript.py:149 | splitting at a separator that no field holds gives back the fields that were joined with it |
| OtpUri.SplitQuery | tools/MSAuthExport/MSAuthExportScript.py:149 | splitting the query at '&' gives its five `key=value` fields when no value holds '&' |
| OtpUri.LookupFields | tools/MSAuthExport/MSAuthExportScript.py:149 | each of `secret`, `digits`, `period`, `algorithm`, `issuer` finds its own value among the fields |
| OtpUri.UriFields | tools/MSAuthExport/MSAuthExportScript.py:149 | a parser reads the label and all five parameters back from the URI template |
| OtpUri.ConvertedPlain | tools/MSAuthExport/MSAuthExportScript.py:115-121 | a converted (type 1) secret holds no '&', '#', '%' or '+' |
| OtpUri.RowFields | tools/MSAuthExport/MSAuthExportScript.py:111-151 | for a secret with no '&', '#', '%' or '+', a row's URI carries its label, secret, `digits=6`, `period=30`, algorithm and encoded issuer |
| OtpUri.ReadBack | tools/MSAuthExport/MSAuthExportScript.py:111-151 | for a secret with no '&', '#', '%' or '+', a parser reads back a row's decoded label, secret, fixed digits and period, SHA256 for type 2 and SHA1 otherwise, and decoded issuer |
| OtpUri.LabelColon | tools/MSAuthExport/MSAuthExportScript.py:137-143 | the label holds ':' exactly when the row has a non-empty username |
| OtpUri.UnknownIssuer | tools/MSAuthExport/MSAuthExportScript.py:133-149 | the URI of a row with no name, or an empty one, ends with `&issuer=Unknown` |
| OtpUri.UnknownRowUri | tools/MSAuthExport/MSAuthExportScript.py:133-149 | for any secret, the URI of a nameless row ends with `&issuer=Unknown` |
| OtpUri.UnknownUri | tools/MSAuthExport/MSAuthExportScript.py:149 | the URI template with the issuer `Unknown` ends with `&issuer=Unknown` |
| OtpUri.UriEnds | tools/MSAuthExport/MSAuthExportScript.py:149 | every URI ends with `&issuer=` and its encoded issuer |
| OtpUri.UnknownIssuerRead | tools/MSAuthExport/MSAuthExportScript.py:133-149 | a parser reads the issuer `Unknown` back from such a row's URI when its secret holds no '&', '#', '%' or '+' |
| OtpUri.UnknownQuoted | tools/MSAuthExport/MSAuthExportScript.py:133-136 | a missing or empty name is encoded as `Unknown` |
| OtpUri.SecretChars | tools/MSAuthExport/MSAuthExportScript.py:115-130 | no secret holds a line break |
| OtpUri.UriChars | tools/MSAuthExport/MSAuthExportScript.py:149 | the URI template adds no character to its parts other than its fixed text |
| OtpUri.RowUriChars | tools/MSAuthExport/MSAuthExportScript.py:133-149 | a row's URI holds a line break or a '#' only where its secret does |
| OtpUri.NoLineBreak | tools/MSAuthExport/MSAuthExportScript.py:149 | no row's URI holds a line break |
| OtpUri.NoFragment | tools/MSAuthExport/MSAuthExportScript.py:149 | a row's URI holds no '#', so a parser finds no fragment, when its secret holds none |
| OtpUri.PlainRow | tools/MSAuthExport/MSAuthExportScript.py:123-151 | a named non-type-1 row without username, with a safe ASCII name and a key with no blanks or lower-case letters, gives `otpauth://totp/name?secret=key&...&issuer=name` |
| MSAuthExport.Exported | tools/MSAuthExport/MSAuthExportScript.py:109-151 | at most one URI per row |
| MSAuthExport.Skipped | tools/MSAuthExport/MSAuthExportScript.py:118-121 | at most one skip per row |
| MSAuthExport.ExportedCount | tools/MSAuthExport/MSAuthExportScript.py:111-121 | every row gives one URI or one skip: URIs plus skips equal the rows |
| MSAuthExport.ExportedAppend | tools/MSAuthExport/MSAuthExportScript.py:111-151 | the URIs of consecutive runs of rows follow each other, so row order is kept |
| MSAuthExport.ExportedOne | tools/MSAuthExport/MSAuthExportScript.py:111-151 | one row contributes its URI, or nothing when it is skipped |
| MSAuthExport.Export | tools/MSAuthExport/MSAuthExportScript.py:109-151 | the loop collects exactly the exported URIs in row order and counts exactly the skipped rows; the two add up to the number of rows |
| MSAuthExport.ExportRow | tools/MSAuthExport/MSAuthExportScript.py:112-151 | the loop body for one row yields exactly the row's transform: its URI, or None when its type 1 secret cannot be converted |
| MSAuthExport.ExportedStep | tools/MSAuthExport/MSAuthExportScript.py:111-151 | one more row adds its URI to the collected ones when it converts, and one more skip when it does not |
| MSAuthExport.WriteLines | tools/MSAuthExport/MSAuthExportScript.py:162-164 | the file content is each URI followed by '\n' |
| MSAuthExport.JoinedFields | tools/MSAuthExport/MSAuthExportScript.py:163-164 | the content is the URIs and a final empty text, joined by '\n' |
| MSAuthExport.LinesOfJoined | tools/MSAuthExport/MSAuthExportScript.py:162-164 | splitting the content at '\n' gives back the URIs, then the empty text, when no URI holds a line break |
| MSAuthExport.ExportedLines | tools/MSAuthExport/MSAuthExportScript.py:149-164 | no exported URI holds a line break |
| MSAuthExport.Run | tools/MSAuthExport/MSAuthExportScript.py:99-164 | nothing is written exactly when the query returned no rows; otherwise the file's lines are the exported URIs in row order |

## Left out

- The SQLite database is not modelled: the connection, the query and its filters (`oath_secret_key IS NOT NULL AND != ''`, `ORDER BY account_type, name, username`). The rows the query returns are the input, in query order.
- The file system, the clock and the output file name are not modelled: the database path check, `msauth-export-<timestamp>.txt`, and opening and closing the file. The file content is the result.
- Console output is not modelled: the progress lines, their truncation to 24 characters, and the messages on failure.
- Exit codes and `sys.exit` are not modelled; `Run` returns `NoAccounts` where the script exits with status 0.
- Exceptions other than a failed base64 decoding are not modelled: a database error, or a `name`, `username` or `oath_secret_key` that is not text (the cleanup's `replace` would raise, and the script would exit with status 1).
- Base64.Lenient follows the non-strict `binascii.a2b_base64` of current CPython. Older releases treated '=' inside the text differently; they are not modelled.
- OtpUri.Upper: upper-cases only ASCII letters. Python's `str.upper` also maps non-ASCII letters, and some of them map to more than one character.
- OtpUri.ReadBack: requires a secret with no '&', '#', '%' or '+'. The script writes a type 0 or 2 key into the URI unescaped, so a parser would cut such a key at '&' or '#', or percent-decode it. The parser modelled here neither splits off a fragment nor decodes the secret, so it is not asked about such keys. Every type 1 secret qualifies (`OtpUri.ConvertedPlain`).
- OtpUri.RowFields: requires the same plain secret as `ReadBack`, for the same reason.
- OtpUri.UnknownIssuerRead: requires the same plain secret as `ReadBack`. `OtpUri.UnknownIssuer` states the `&issuer=Unknown` ending for every secret.
- `account_type` is modelled as an integer. A NULL `account_type` would take the SHA1 branch, the same as any value other than 1 or 2, so it is not modelled separately.
- MSAuthExport.WriteLines: leaves out newline translation when the file is opened in text mode on Windows (`'\n'` written as CRLF), or the UTF-8 encoding of the file.
