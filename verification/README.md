# Outletbox: a verified model of its self-contained algorithms

Outletbox hands files to people through links protected by one-time codes. This project models the
parts of it that decide something by computation alone, and proves what they are for. Each module
follows one component:

- `Base32`, `Totp`, `RecoveryCodes`: the authenticator secrets and codes of `src/totp.ts`. The base32
  loops keep an accumulator that is never masked and wraps as a 32-bit integer (`Bits` models the
  ECMAScript shifts and masks); they are proved against the bit-string definition of section 6 of
  RFC 4648. HOTP truncation is proved against section 5.3 of RFC 4226, and the window search with its
  replay floor over whole runs of calls (section 5.2 of RFC 6238).
- `Base64Url`: the browser's codec of `public/passkey.js` against the server's strict one.
- `Html`, `Messages`, `JsonScript`: escaping, placeholder substitution, and JSON embedded in a page,
  the last against a complete parser for RFC 8259.
- `Redaction`, `RedactedText`, `Forgetting`: the three replacements that keep secrets out of log lines, what
  they make of each kind of text, and exactly which secrets they forget.
- `Cookies`: the cookie writer and the reader it has to be undone by.
- `AcceptLanguage` and `Backups`, both on `StableSort`: language negotiation, and which copies of the
  database are kept.
- `Sampling`, `Uniformity`: access codes and temporary passwords by rejection sampling over batches of
  random bytes, and how many byte streams lead to each.
- `Sizes`: a printer that rounds and a parser that floors.
- `Migrations`: applying migrations in transactions, with a throw or a crash possible at every step.
- `CodeBoxes`, `UploadQueue`: the two event-driven pages.

Code that works step by step is a method or a class whose contract equates what it leaves with a
function of what it was given; the lemmas are about those functions, over all inputs, all runs or all
sequences of events. For each operation some of them say what it yields in letters, digits and octets,
without that function.

## What does not hold

These promises turn out to fail in corner cases. The code is modelled as it is, and the exact
condition is proved.

- A delivery token directly behind an odd number of `/d` is not redacted: `/d/d/secret` becomes
  `/d/[redacted]/secret` (`Forgetting.OneDeliveryBeforeLeaks`, `Forgetting.RedactForgetsExactly`);
  a file name behind such a path is kept too (`Forgetting.RedactForgetsFileNamesExactly`).
- A secret parameter that starts with `&` behind a delivery or upload path, with no `?` between them, is
  taken for part of the path, and its value gets through from its first `?` on: `/d/&sig=?1` becomes
  `/d/[redacted]?1` (`Forgetting.ParameterInPathLeaks`, `Forgetting.ParameterLeaks`,
  `Forgetting.RedactForgetsParameter`).
- A cookie named `__proto__` is never read back (`Cookies.CookiesComeBack`).
- The server accepts base64url texts of a length that is 1 modulo 4, on which the browser's decoder
  throws (`Base64Url.BrowserAgreesWithServer`); neither side ever writes one.
- A size of 8191.5 TB or more prints as a text the parser refuses (`Sizes.FormatThenParse`).
- The copy made before a migration is deleted by the same call when five copies bear later stamps,
  because the clock went back (`Backups.FiveNewer`, `Backups.ClockSetBack`).
- Clicking Cancel twice settles one upload twice: the page can then reload while another upload runs
  (`UploadQueue.TwoClicksReloadTooEarly`).
- For a well-formed code `verifyTotp` throws, rather than answer null, when the window reaches steps
  below zero or beyond 64 bits, or when the secret is not base32 (`Totp.VerdictThrowsExactly`,
  `Totp.EpochThrows`).

## Model

| member | source | states |
|---|---|---|
| Base32.Encode | src/totp.ts:9-21 | the loop over the unmasked, wrapping accumulator yields, for every byte string, the letters of its 5-bit groups, the last one zero-filled |
| Base32.Decode | src/totp.ts:23-38 | the loop yields the whole octets of the bits the letters spell, and throws exactly when a letter is outside the alphabet |
| Base32.AlphabetSpelled | src/totp.ts:7 | the alphabet computed from the RFC's table is the constant in the source |
| Base32.DecodeInvertsEncode | src/totp.ts:9-38 | decoding gives the bytes back after any change of letter case and any insertion of `=`, white space or `-` |
| Base32.EncodedIsNumber | src/totp.ts:7-21 | the text is the octets, read as one number and filled up to whole letters with zero bits, written in base 32 with the source's letters for digits |
| Base32.DecodedIsNumber | src/totp.ts:23-38 | any text of those letters, canonical or not, decodes to the whole octets of the number it writes |
| Base32.DecodedThrows | src/totp.ts:28-30 | it throws if and only if some other character is left |
| Totp.TruncationIsBigEndian | src/totp.ts:54-55 | for every MAC of at least 20 octets the shift-and-or value is the 31-bit big-endian number at the offset, and no index is out of range |
| Totp.CodeReadsBack | src/totp.ts:56 | a code is exactly `digits` decimal characters and reads back as the number modulo 10^digits |
| Totp.HotpValue | src/totp.ts:49-57 | the code of an encoded secret is the truncation of the MAC, under its own bytes, of the eight octets that weigh the counter with the first one heaviest |
| Totp.StepExactly | src/totp.ts:59-61 | step k is the one that starts k steps of time after the epoch and ends before the next, for negative clocks too |
| Totp.VerifyTotp | src/totp.ts:72-88 | it throws exactly when the code is well formed and some step of the window has no code; otherwise the result is the largest step within the window and above the floor whose code is the one typed, or null when the code is malformed or there is none |
| Totp.VerdictThrowsExactly | src/totp.ts:49-88 | it throws if and only if the code is well formed, the window is not empty, and the secret is not base32 or the window reaches below step 0 or beyond the 64-bit counters |
| Totp.EpochThrows | src/totp.ts:49-88 | in the first 30 seconds after the epoch every six-digit code throws, by the default window |
| Totp.ShownCodeAccepted | src/totp.ts:59-88 | the code an authenticator shows at one moment is accepted, however spaced, at every moment at most `window` steps of time before or after it, unless its step was used up |
| Totp.AcceptedStepsIncrease | src/totp.ts:67-88 | in every run that feeds accepted steps back as the floor, accepted steps strictly increase and stay within the windows |
| Totp.AcceptedCodesBounded | src/totp.ts:59-88 | while the clock stays in [t0, t1], at most step(t1) - step(t0) + 2 * window + 1 codes are accepted, however many are tried |
| RecoveryCodes.GenerateRecoveryCodes | src/totp.ts:97-104 | each code is eleven characters: the first five base32 letters of its random bytes in lower case, a hyphen, and the next five |
| RecoveryCodes.NormalizeShown | src/totp.ts:100-108 | normalising a shown code gives back its ten letters |
| RecoveryCodes.TypedCodeNormalizes | src/totp.ts:106-108 | a code typed with letters of either case and with any ASCII punctuation, other digits or white space put in anywhere normalises to itself |
| RecoveryCodes.SameCodeSameBits | src/totp.ts:97-104 | two shown codes normalise to the same text exactly when their first 50 random bits are equal |
| Base64Url.ToB64url | public/passkey.js:6-10 | the loop, `btoa` and the three replacements give unpadded base64url of the bytes |
| Base64Url.FromB64url | public/passkey.js:11-16 | the octets copied into the array are those `atob` yields for the repadded text, or it throws |
| Base64Url.RepaddedStripped | public/passkey.js:12 | `atob` strips exactly the padding the slice added, for every residue but 1, which it then refuses |
| Base64Url.BrowserReads | public/passkey.js:11-16 | on base64url characters the browser's decoder throws exactly when the length is 1 modulo 4, and otherwise yields the whole octets spelled |
| Base64Url.BrowserRoundTrip | public/passkey.js:6-16 | the browser reads back every buffer it wrote |
| Base64Url.ServerReadsBrowser | src/webauthn.ts:29-32 | the server accepts what the browser wrote exactly for 1 to 12288 octets (16384 characters), and decodes the same octets |
| Base64Url.BrowserAgreesWithServer | src/webauthn.ts:29-32 | whatever the server accepts the browser decodes alike, except that it throws on lengths that are 1 modulo 4 |
| Base64Url.EncodedIsNumber | public/passkey.js:6-10 | the browser writes the octets, as one number filled up with zero bits, in base 64 with the letters, digits, `-` and `_` of the url alphabet for digits |
| Base64Url.ServerReadsNumber | src/webauthn.ts:29-32 | the server accepts 1 to 16384 of those characters and nothing else, and reads the whole octets of the number they write |
| Html.UnescapeInvertsEscape | src/http/html.ts:15-19 | unescaping an escaped text returns it, for every text |
| Html.EscapedExactly | src/http/html.ts:15-19 | the escaped text is the only one without markup or a stray `&` that unescapes to the text given |
| Html.Html | src/http/html.ts:34-41 | the tagged template's loop interleaves literals and rendered values |
| Html.RenderMarkup | src/http/html.ts:27-32 | rendering any nested value contributes exactly the markup characters of its trusted parts |
| Html.RenderExactly | src/http/html.ts:27-32 | rendering any nested value puts out, one right behind the other, exactly what its leaves display: trusted markup as it is, texts and numbers escaped, `true`, and nothing for null, undefined and false |
| Html.RenderConcat | src/http/html.ts:30 | a list renders as its parts joined by nothing, however they are nested |
| Html.TemplateExactly | src/http/html.ts:34-41 | a template puts out its first literal, then for every value what it displays and the literal behind it |
| Html.InterpolationAddsNoMarkup | src/http/html.ts:27-41 | the `<`, `>`, `"` and `'` of the output are those of the literals and trusted parts, in order |
| Messages.PlaceholderFilled | src/i18n.ts:65-69 | a placeholder is replaced by exactly its value; what surrounds it is treated as if the value were not there, so substituted text is never rescanned |
| Messages.BracesFilled | src/i18n.ts:65-69 | every pair of braces in a message becomes the value of the name between them if that is one or more letters, digits and underscores with a value, and stays as it is otherwise; all other text stays |
| Messages.UnknownNamesStay | src/i18n.ts:65-69 | when none of the message's own names is among the params it stays as it is |
| Messages.THtmlEscapesTheMessage | src/http/html.ts:57-59 | escaping first neither makes nor breaks a placeholder: `tHtml` escapes the message's own text and renders each value in its place |
| Messages.BracesDisplayed | src/http/html.ts:57-59 | `tHtml` puts what the value displays in their place, and escapes all other text |
| Messages.EscapingCommutes | src/http/html.ts:57-59 | with string and number params `tHtml` is `escapeHtml` of `t` |
| JsonScript.HardenedIsHarden | src/http/html.ts:63-66 | the three replacements one after the other are one replacement, character by character |
| JsonScript.HardenedAt | src/http/html.ts:63-66 | wherever they stand, `<`, U+2028 and U+2029 become the escapes 003c, 2028 and 2029, and every other unit stays |
| JsonScript.HardeningPreservesParse | src/http/html.ts:62-68 | any JSON text, however spaced or escaped, still parses to the same value and holds none of the three characters |
| JsonScript.ParseInvertsStringify | src/http/html.ts:63 | what `JSON.stringify` prints parses to the value it was given |
| JsonScript.JsonScriptPreservesData | src/http/html.ts:62-68 | what the page embeds parses to the value it was given, with no `<`, U+2028 or U+2029 in it |
| RedactedText.ParameterRedacted | src/log.ts:18 | behind text that opens no path, the value of `token`, `code`, `access_token` or `sig`, in any letter case and behind `?` or `&`, becomes `[redacted]` up to `&`, `#`, white space or the end |
| RedactedText.OtherParameterKept | src/log.ts:18 | a parameter of any other name keeps its value |
| RedactedText.TokenRedacted | src/log.ts:16 | a delivery path loses its first segment up to a slash, `?`, `#`, white space or the end, and what follows is redacted on its own |
| RedactedText.FileNameRedacted | src/log.ts:17 | an upload path loses everything up to `?`, `#`, white space or the end |
| RedactedText.HarmlessKept | src/log.ts:14-19 | text without `?`, `&` and slashes before a `d` or an `a` is kept |
| Redaction.RedactIdempotent | src/log.ts:14-19 | redacting twice is redacting once, for every text, across all three passes |
| Redaction.PassKeeps | src/log.ts:14-19 | no pass makes a new match for a pass before it |
| Forgetting.RedactForgets | src/log.ts:14-19 | two texts that differ only in the token redact alike when an even number of `/d` precedes the path, which includes every prefix not ending in `/d` |
| Forgetting.RedactForgetsExactly | src/log.ts:14-19 | all tokens redact alike if and only if an even number of `/d` precedes the path or an upload path is open in front of it |
| Forgetting.RedactForgetsPlainToken | src/log.ts:14-19 | two different tokens without `&`, other than `d` and `api`, redact alike if and only if `Forgotten` holds of the text before the path |
| Forgetting.OneDeliveryBeforeLeaks | src/log.ts:16 | the shortest text whose token is not redacted |
| Forgetting.PassForgets | src/log.ts:17-18 | the second and third pass forget what they redact, whatever text stands before it |
| Forgetting.RedactForgetsFileName | src/log.ts:14-19 | two texts that differ only in the file name of an upload path, whatever the pattern takes for one, redact alike when an even number of `/d` precedes it |
| Forgetting.RedactForgetsFileNamesExactly | src/log.ts:14-19 | all file names redact alike if and only if that number is even or another upload path is open in front |
| Forgetting.ParameterExactly | src/log.ts:14-19 | where the third pattern is open at the `=`, a text redacts to the redaction of what precedes the value and of what follows it, if and only if the value does not run on into the parameter behind it |
| Forgetting.RedactForgetsParameter | src/log.ts:14-19 | all values the pattern takes that do not run on redact alike if and only if the third pattern is open at the `=` once the first two passes have been made over the text up to there |
| Forgetting.ParameterSeen | src/log.ts:14-19 | it is open there when the parameter starts with `?`, or no path in front of it reaches it |
| Forgetting.ParameterLeaks | src/log.ts:14-19 | where it is not, the value gets through from its first `?` on |
| Forgetting.ParameterInPathLeaks | src/log.ts:14-19 | the shortest text whose parameter is not redacted |
| Forgetting.RedactForgetsPlainValue | src/log.ts:14-19 | values without `/`, `?` and `&` redact alike behind any text |
| Cookies.DecodeInvertsEncode | src/http/middleware.ts:95-101 | percent-decoding undoes percent-encoding for every text, through one- to four-octet UTF-8 |
| Cookies.EncodedSpelled | src/http/middleware.ts:101 | how each character of a value is written: itself, or a percent sign and two capital hexadecimal digits for each octet of its UTF-8 form |
| Cookies.ParseCookies | src/http/middleware.ts:86-98 | the loop reads the header's parts from left to right into the map |
| Cookies.Cookie | src/http/middleware.ts:100-104 | the header, spelled out, for every name, value, age and with or without Secure; a user agent keeps exactly the pair |
| Cookies.ReadConcat | src/http/middleware.ts:86-98 | reading two joined headers is reading each and letting the later win |
| Cookies.PaddedPairReads | src/http/middleware.ts:89-95 | a pair is read as its name and decoded value whatever white space stands around either, unless the name is `__proto__` |
| Cookies.IgnorableAnywhere | src/http/middleware.ts:89-96 | parts that add no entry change nothing wherever they stand |
| Cookies.IgnorableExactly | src/http/middleware.ts:90-95 | a part adds no entry exactly when it has no `=`, no name, malformed escapes, or names the inherited setter |
| Cookies.CookiesComeBack | src/http/middleware.ts:86-104 | whatever cookies were set, the header sent back reads as exactly those, the last of a name winning, if and only if none is called `__proto__` |
| StableSort.SortedByRank | src/db.ts:79 | a stable sort puts each element at a place known beforehand: behind the earlier ones it does not precede and the later ones that precede it |
| StableSort.SortedUnique | src/db.ts:38 | where only equal elements tie, the sorted sequence does not depend on the order given |
| AcceptLanguage.NegotiateScans | src/i18n.ts:87-100 | filter, sort and head come to one left-to-right scan |
| AcceptLanguage.ScanFindsFirstGreatest | src/i18n.ts:97-98 | the scan's result is the first entry with the greatest weight |
| AcceptLanguage.GreatestWeightDecides | src/i18n.ts:87-100 | for every header of tags, with or without weights: the first tag of the greatest weight above 0 decides, its language if known, whatever its region and letter case, English otherwise |
| AcceptLanguage.NoWeightAtAll | src/i18n.ts:88-99 | where no weight is above 0, or there is no header, it is English |
| AcceptLanguage.FirstWeightCounts | src/i18n.ts:92-94 | of a tag's parameters the first weight counts |
| AcceptLanguage.Negotiate | src/i18n.ts:77-100 | the result is always a known language |
| AcceptLanguage.LowerRanksDoNotMatter | src/i18n.ts:81-100 | entries of no greater weight put in behind the winner, anywhere, change nothing |
| AcceptLanguage.WeightedEntry | src/i18n.ts:92-96 | a tag with `q=` and a numeral is an entry of exactly that weight, and no entry at weight zero |
| AcceptLanguage.RegionsCollapse | src/i18n.ts:98 | a known language with any region is that language |
| Backups.StampMoment | src/db.ts:65 | the stamp made from a clock reading has the fixed shape and names that moment to the second |
| Backups.StampCompacts | src/db.ts:65 | the stamp is the ISO string without hyphens, colons and the fraction |
| Backups.TargetSpelled | src/db.ts:66 | the copy's name is `before-`, the migration's name without `.sql`, `-`, the stamp and `.sqlite` |
| Backups.BackupExactly | src/db.ts:79 | the files retention looks at are those named `before-`, anything without a line break, `.sqlite` |
| Backups.StampExactly | src/db.ts:84-87 | a file bears a stamp if and only if its name ends in a hyphen, that stamp and `.sqlite` |
| Backups.StampOrder | src/db.ts:79-87 | comparing two stamps as text compares the moments they name |
| Backups.TargetStamped | src/db.ts:66-87 | a copy's stamp is read back from its own name, and the name is one that retention looks at |
| Backups.BackupDirectory.BackupBeforeMigrating | src/db.ts:63-82 | which files remain after each way it can go: part of a file where copying throws, the copy where the mode, the check or the listing throws, the surplus deleted up to where a deletion throws |
| Backups.DeletedSome | src/db.ts:79-80 | where the deletions stop early, nothing else is missing than in a complete run |
| Backups.KeptExactly | src/db.ts:79-80 | a backup is deleted if and only if at least five others are newer, or as new and listed before it |
| Backups.NewestFiveStay | src/db.ts:79-80 | at most five backups remain, fewer only if nothing was deleted; none deleted is newer than one kept; other files are untouched |
| Backups.FewRivals | src/db.ts:79-80 | a backup with fewer than five others at least as new stays, so a new copy with the latest stamp does |
| Backups.FiveNewer | src/db.ts:79-80 | a backup with five newer ones is deleted, even the copy just made |
| Backups.ClockSetBack | src/db.ts:63-82 | with five copies of the seconds before, the copy a clock set back makes is deleted by the same call |
| Backups.SameSecond | src/db.ts:79-80 | of copies made within one second the first five listed stay |
| Backups.LaterClock | src/db.ts:65-66 | under a clock later than every stamp the new copy has no rival |
| Backups.OutlivesFour | src/db.ts:63-82 | over a run of upgrades such a copy survives the next four, whatever the clock does |
| Sampling.NewAccessCode | src/crypto.ts:83-93 | the nested loops return the first n accepted bytes of the stream modulo 10, wherever the batches break |
| Sampling.AcceptedSpelled | src/crypto.ts:83-93 | each byte below 250 adds its residue modulo 10, each below 248 its residue modulo 31, and no other byte adds anything |
| Sampling.AccessCodeSpelled | src/crypto.ts:83-93 | a code shows the first n residues as digits; there is none while there are fewer |
| Sampling.NewTempPassword | src/crypto.ts:27-36 | likewise the first twenty accepted bytes modulo 31, spelled and hyphenated |
| Sampling.TempPasswordSpelled | src/crypto.ts:21-36 | a password shows the first twenty residues in the source's alphabet, with a hyphen behind every fifth but the last |
| Sampling.HyphensRemoved | src/crypto.ts:35 | removing the hyphens recovers the characters sampled |
| Sampling.PasswordShape | src/crypto.ts:35 | twenty characters give four groups of five with three hyphens between |
| Sampling.ReadableAlphabet | src/crypto.ts:21 | the letters by index are the constant in the source |
| Uniformity.TapesExact | src/crypto.ts:83-93 | the set counted holds exactly the byte tapes of a length that yield a given code |
| Uniformity.TapesCounted | src/crypto.ts:83-93 | its size depends on the lengths only, not on the code |
| Uniformity.AccessCodesUniform | src/crypto.ts:79-93 | every n-digit code has the same number of preimages among tapes of each length, and 25^n of length n |
| Uniformity.PasswordsUniform | src/crypto.ts:23-36 | every password likewise, and 8^20 of length 20 |
| Sizes.FormatSize | src/config.ts:121-128 | the dividing loop stops at the unit the range of the number says |
| Sizes.FormatExactly | src/config.ts:121-128 | the number printed is the nearest with three figures in the unit its range says, in integer arithmetic |
| Sizes.FormatThenParse | src/config.ts:109-128 | a printed size is read back if and only if it is below 8191.5 TB, then within n/200 + 1 bytes, and exactly below 1024 |
| Sizes.SizeExactly | src/config.ts:101-118 | a text is a size if and only if it is a numeral, perhaps with a point, and none or one of the thirteen units in any case, with white space between and around, that comes to at most 2^53 - 1; then it is the floor of numeral times unit |
| Migrations.Database.Transaction | src/db.ts:94-104 | all of a migration or nothing becomes durable, whatever throws or dies and whether or not the rollback works; the transaction stays open only if it does not |
| Migrations.Database.Migrate | src/db.ts:35-53 | what is committed, what the caller sees and which copy was taken, for every way each step, from CREATE TABLE on, can go; a normal end returns exactly the `.sql` names not recorded, in ascending order |
| Migrations.AscendingOrder | src/db.ts:38-52 | however a start ends, the migrations it makes durable are unrecorded `.sql` files in ascending order of their characters, with none passed over, and their statements are appended in that order |
| Migrations.CopyExactly | src/db.ts:40 | a copy is taken if and only if something is pending and something recorded, it is named after the least pending file, and no database with something in it changes before |
| Migrations.ApplyAllProgresses | src/db.ts:43-53 | a run makes a prefix of the pending migrations durable, whole and in order, and when it ends normally it has applied and returns them all |
| Migrations.FinishesExactly | src/db.ts:43-53 | a run ends normally exactly when nothing goes wrong with any pending migration |
| Migrations.StopsExactly | src/db.ts:42-51 | where something goes wrong first: exactly the migrations before it are durable, and it too only if the crash came after its COMMIT |
| Migrations.HistoryConsistent | src/db.ts:35-53 | after any number of starts, with any files and any failures, the recorded names are exactly the migrations in effect, each once |
| Migrations.LaunchAbsorbed | src/db.ts:35-53 | a start of this release, or of one to which scripts were only added behind its own, changes nothing about what an undisturbed start reaches, however it ends |
| Migrations.CompletingStart | src/db.ts:35-53 | after any number of interrupted starts of this release or such older ones, a completing one leaves what a single undisturbed start would, every script recorded; a further start changes nothing and returns [] |
| Migrations.FilesSame | src/db.ts:38 | the order in which the directory lists the files does not matter |
| CodeBoxes.Group.Fill | public/otp.js:21-26 | digits go into the boxes from `start` on, and the caret ends up after them |
| CodeBoxes.Group.OnInput | public/otp.js:64-79 | the state after an input, spread over the row or kept to one box |
| CodeBoxes.Group.OnKeydown | public/otp.js:81-93 | the state after each key |
| CodeBoxes.Group.OnPaste | public/otp.js:95-105 | the state after a paste |
| CodeBoxes.Group.MaybeSubmit | public/otp.js:36-50 | the form is posted if all boxes are full and none was posted before |
| CodeBoxes.RunSafe | public/otp.js:52-106 | over every sequence of events each box is empty or one digit, the caret is in range, and at most one form is posted, with all boxes full |
| CodeBoxes.PostedCode | src/http/deliver.ts:90-94 | whatever led up to it, what is posted is read by the server as one digit per box, in order |
| CodeBoxes.PasteSpells | public/otp.js:95-105 | from any state, a pasted text with at least six digits (one per box) makes the row, and the server, read its first six, whichever box it went into |
| CodeBoxes.BulkInputSpreads | public/otp.js:60-79 | from any state, input announced as a paste or as two digits or more goes one digit a box from its box on, the other boxes and flags stay, the caret follows, and the form is posted once if the row is full; a whole code put into the first box is what the server reads |
| CodeBoxes.PasteSpreads | public/otp.js:95-105 | a pasted text does the same, from the first box if it has a digit for each, from the box it went into if it has fewer |
| CodeBoxes.NoDigitsKept | public/otp.js:64-99 | text without digits empties its box, and pasting it does nothing |
| CodeBoxes.ServerReads | src/crypto.ts:96-98 | full boxes, joined, cut to 64 characters and normalised, are the digits in order |
| CodeBoxes.TypedCodeReads | src/crypto.ts:96-98 | a code sent as one text is read without the white space and hyphens in it |
| CodeBoxes.BodyRead | src/http/deliver.ts:90-94 | fields that are no text count as empty, one field as itself, and nothing behind the 64th character is read |
| CodeBoxes.TypingSpells | public/otp.js:52-79 | typing one digit a box spells the code, and it is posted with the last one |
| CodeBoxes.TypingIsPasting | public/otp.js:52-106 | on a fresh row typing and pasting a code end in the same boxes and post the same form |
| CodeBoxes.BackspaceUndoesTyping | public/otp.js:81-93 | Backspace in the next box, or the left arrow and Delete, undo the typing of a digit |
| UploadQueue.CounterIsExact | public/admin-upload.js:53-148 | in every interleaving from a fresh page `active` is the number of attempts under way less the settles that ended none, so it is that number exactly while there were none, and `succeeded` is the number of successes |
| UploadQueue.ReloadsExactly | public/admin-upload.js:53-57 | the page reloads exactly at a settle that leaves as many attempts under way as there were settles too many, after a success |
| UploadQueue.OrderlyUploads | public/admin-upload.js:53-148 | with one ending per attempt, retries included, the counter is right, Cancel is shown exactly while an upload runs and Retry exactly when it failed, no reload happens over a running upload, and the settle that drains the queue after a success reloads |
| UploadQueue.BusyIsReached | public/admin-upload.js:73-134 | three files added and one finished reach the state the next row starts from |
| UploadQueue.TwoClicksReloadTooEarly | public/admin-upload.js:137-142 | two clicks on Cancel reload the page over a running upload |

## Left out

- Services, storage, routes, views, mail, branding, log levels, rate limits, security headers, start-up and the command line: input and output, or glue over services that are not part of this model.
- HMAC, scrypt, signatures and random bytes: HMAC is any function returning at least 20 octets, random bytes are arbitrary batches; when they run out the samplers answer None, meaning they would ask for more.
- Strings are sequences of Unicode scalar values, except in `JsonScript`, which works on UTF-16 code units. Lone surrogates, on which `encodeURIComponent` throws, and the 64-code-unit cut inside an astral character are not modelled.
- Case mapping outside ASCII is left open: `toUpperCase` and `toLowerCase` are parameters known only on ASCII and white space.
- Floating point in sizes, weights and time steps: quotients are exact rationals, `toFixed` and `Math.round` take the nearest value, upwards at a half; weights too long for a finite number are not modelled.
- Sizes: byte counts that are negative or no integer.
- Migrations.AscendingOrder: compares characters where `sort()` compares UTF-16 code units; the orders differ only between characters beyond U+FFFF and those from U+E000 to U+FFFF.
- AcceptLanguage.Negotiate: does not model the dictionaries, only their 24 language codes.
- JsonScript.ParseInvertsStringify: numbers are numerals and objects member lists, so how ECMAScript prints a number, orders keys or drops undefined values is not modelled; nor is the script tag around the text.
- Base64Url.BrowserAgreesWithServer: takes Node's base64url decoder to drop the bits that do not fill an octet.
- Sampling.PasswordShape: takes the pattern's `.` to match every letter drawn, none of which ends a line.
- Migrations.Database.Migrate: SQL is a list of opaque statements without transaction statements of their own and without writes to schema_migrations; what the application writes between two starts is not part of an image, and `applied_at` is not kept.
- Backups.BackupDirectory.BackupBeforeMigrating: does not model the bytes of the copies; years beyond 9999 are left out.
- Backups.LaterClock: asks that the migration's name holds no line break, since the pattern that selects backups does not match one.
- CodeBoxes: what a browser does to a box before an input event is any text; the caret is the focused box; a user submitting the form by hand, and validation that refuses a submission, are not modelled.
- UploadQueue: progress bars, texts and the upload library's own retries; a reload is counted rather than ending the page.
