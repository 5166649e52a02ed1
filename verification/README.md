# pysendmail credential codec, in Dafny

A model of the logic in `SendMail` (pysendmail) that can be stated without
files, clocks or sockets:

- the **credential line**: `writeConfig` joins user, password, SMTP server,
  `str(port)` and `str(ssl)` with `:` and Base64-encodes the result (basic
  alphabet of section 4 of RFC 4648); `readConfig` strips the first line of
  the file, Base64-decodes it, splits it on `:`, copies indices 0 to 2,
  parses index 3 with `int` and sets the TLS flag when index 4 is exactly
  `"True"`;
- the **pure steps of `send`**: a single recipient becomes a one-element
  list, the `To` header joins the recipients with `", "`, each attachment is
  named by the base name of its path, and a single unreadable attachment
  aborts the whole message.

The source is Python 2, where `str` is a byte string. The credential fields,
the configuration file content and everything in `Base64` and `Decimal` are
`Bytes`, a sequence of characters below 256, as are attachment payloads. The
addresses, subject, body and paths handled by `Send` are plain `string`s,
since the model never looks at their bytes. Python's exceptions become
`Result` values: `readConfig` catches only `IOError`, so the `IndexError`,
`ValueError` and the `TypeError` that `b64decode` raises for bad input are
modelled as the distinct errors `MissingField`, `BadPort` and `BadEncoding`. Reading a file is
a parameter: `ReadConfig` takes the file content, and `Send.Compose` takes, for
each attachment path, the bytes read or `None` for a failed read.

Modules: `Wrappers` (Option, Result), `Sequences` (`str.split` and
`str.join`), `ByteStrings` (bytes, `strip`, `readline`), `Decimal` (`str` and
`int` on integers), `Base64`, `Config` (the credential record, `writeConfig`,
`readConfig`) and `Send`.

`readConfig` reads indices 0 to 4 of the split line and ignores any further
parts (`Config.ExtraPartsIgnored`, `Config.ShiftedFields`). With exactly four
parts, `int(config[3])` runs before `config[4]` is read, so a non-numeric
fourth field is `BadPort`, not `MissingField(4)` (`Config.TooFewParts`).
Base64 decoding ends at the first group that carries padding and ignores
what follows it, so a line such as `QQ==QUJD` decodes to `A` and then fails
for lack of index 1 (`Base64.DecodeStopsAtPad`, `Config.ReadConfigStopsAtPad`).

## Model

| member | source | states |
|---|---|---|
| Config.FieldsReadBack | pysendmail/__init__.py:42-59 | the port field `str(port)` parses back to the port, and the flag field `str(ssl)` is "True" exactly when TLS is on |
| Config.BoolToString | pysendmail/__init__.py:42 | `str` of the flag is "True" exactly when the flag is set, and never contains `:` |
| Config.ConfigLine | pysendmail/__init__.py:41-43 | the joined line has exactly four `:` besides those inside user, password and server |
| Config.WriteConfig | pysendmail/__init__.py:41-43 | the written content uses only Base64 characters and decodes to the `:`-joined line |
| Config.ConfigLineFields | pysendmail/__init__.py:41-43 | with no `:` in user, password or server, the joined line splits into exactly the five fields in their fixed order |
| Config.ReadConfigStopsAtPad | pysendmail/__init__.py:53-54 | when the encoded line ends in padding, any whitespace-free text after it is ignored and the line is parsed as if it stood alone |
| Config.ParseFields | pysendmail/__init__.py:54-59 | parsing succeeds iff there are at least five parts and the fourth is an integer; then fields 0-2 are copied, the port is `int` of part 3 and the flag is part 4 == "True"; fewer than four parts is the missing index; a bad fourth part is a port error |
| Config.ReadConfig | pysendmail/__init__.py:53-59 | a line that is not valid Base64 is an encoding error; the user, password and server read back never contain `:` |
| Config.ReadBackLine | pysendmail/__init__.py:43-54 | the written content is one line that `strip` leaves unchanged, so reading it back parses the split of the joined line |
| Config.ReadWriteConfig | pysendmail/__init__.py:41-59 | round trip: reading what was written recovers all five fields when user, password and server contain no `:` |
| Config.ReadWriteConfigExactly | pysendmail/__init__.py:41-59 | the round trip succeeds if and only if none of user, password and server contains `:` |
| Config.ExtraPartsIgnored | pysendmail/__init__.py:54-59 | parts after index 4 are never read: the result depends only on the first five parts |
| Config.TooFewParts | pysendmail/__init__.py:54-59 | fewer than five parts is always an error; with four parts and a numeric fourth part it is the missing index 4 |
| Config.ShiftedFields | pysendmail/__init__.py:41-59 | a password "p:q" (no further `:`) with a server named by the decimal text of a number reads back silently as password "p", server "q", the server's number as port and TLS off |
| Config.ShiftedLine | pysendmail/__init__.py:41-43 | a password "p:q" makes the joined line the join of six parts: user, "p", "q", server, port text and flag text |
| Config.PortTextIsNotTrue | pysendmail/__init__.py:42-59 | the text of a port is never "True", so a shifted port field always reads as TLS off |
| Config.ReadConfigOfParts | pysendmail/__init__.py:43-59 | when the joined line is the join of separator-free parts, reading the written content parses exactly those parts |
| Config.SslFlag | pysendmail/__init__.py:42-59 | the flag is true iff the fifth part is exactly "True"; `str(True)` reads back true and `str(False)` false |
| Decimal.NatToDigits | pysendmail/__init__.py:42 | `str` of a non-negative integer is a non-empty digit string whose value is the integer, with no leading zero |
| Decimal.IntToString | pysendmail/__init__.py:42 | `str` of an integer has no `:` and no surrounding whitespace, and is all digits iff the integer is non-negative |
| Decimal.ParseInt | pysendmail/__init__.py:58 | `int` fails on text without a digit and gives the decimal value of a plain digit string |
| Decimal.ParseIntValue | pysendmail/__init__.py:58 | an accepted text yields the value of its digits, negated after a '-', whatever sign and surrounding whitespace it has (`int(" +05 ")` is 5) |
| Decimal.ParseIntAccepts | pysendmail/__init__.py:58 | `int` succeeds if and only if the text is whitespace, an optional sign, one or more digits, then whitespace |
| Decimal.ParseIntOfIntToString | pysendmail/__init__.py:42-58 | `int(str(n)) == n` for every integer, negative ones included |
| Decimal.IntToStringInjective | pysendmail/__init__.py:42 | distinct ports are written as distinct texts |
| Base64.Encode | pysendmail/__init__.py:43 | the encoding has 4 characters per started group of 3 bytes and uses only alphabet and pad characters |
| Base64.Decode | pysendmail/__init__.py:53 | the decoded bytes come from a prefix of 4 characters per started group of 3 bytes, all alphabet or pad characters; without a padded group that prefix is the whole input |
| Base64.DecodePaddedQuad | pysendmail/__init__.py:53 | a group ending in "==" yields one byte and one ending in a single "=" yields two |
| Base64.CharToIndex | pysendmail/__init__.py:43-53 | every character with a 6-bit value is the alphabet character of that value |
| Base64.DecodeEncode | pysendmail/__init__.py:43-53 | decoding an encoding gives back exactly the encoded bytes |
| Base64.DecodeStopsAtPad | pysendmail/__init__.py:43-53 | an encoding that ends in padding decodes to the encoded bytes whatever text follows it |
| Base64.EncodeInjective | pysendmail/__init__.py:43 | distinct byte strings have distinct encodings |
| Base64.StripEncode | pysendmail/__init__.py:43-53 | stripping does not change an encoding |
| ByteStrings.Strip | pysendmail/__init__.py:53 | `strip` keeps a contiguous slice after the leading whitespace, removes only whitespace after it, and neither end of the result is whitespace |
| ByteStrings.StripIdentity | pysendmail/__init__.py:53 | `strip` leaves a string alone iff it has no whitespace at either end |
| ByteStrings.FirstLine | pysendmail/__init__.py:53 | `readline` returns a prefix of the content ending at the first newline, or all of it when there is none |
| Sequences.Join | pysendmail/__init__.py:43 | a join of no parts is empty, and a join of parts opens with the first part |
| Sequences.JoinPart | pysendmail/__init__.py:43 | part `i` of a join starts after the `i` earlier parts and `i` separators, and every part but the last is followed by the separator |
| Sequences.CountJoin | pysendmail/__init__.py:43 | joining with a one-element separator adds exactly one separator per neighbouring pair of parts |
| Sequences.Split | pysendmail/__init__.py:54 | `split` gives at least one part and no part contains the separator |
| Sequences.SplitJoin | pysendmail/__init__.py:43-54 | splitting a join of separator-free parts recovers the parts |
| Sequences.JoinSplit | pysendmail/__init__.py:54 | joining the parts of a split recovers the string |
| Sequences.SplitLength | pysendmail/__init__.py:54 | a split has one more part than the string has separators |
| Send.SingleAddressAsList | pysendmail/__init__.py:65-69 | a single address and the one-element list holding it give the same recipients and the same `To` header, the address itself |
| Send.Normalise | pysendmail/__init__.py:65 | a single address becomes a list of one; a list is passed through unchanged, with the same addresses in the same order and positions |
| Send.ToHeader | pysendmail/__init__.py:69 | the `To` header opens with the first recipient and is empty when there are none |
| Send.ToHeaderPlaces | pysendmail/__init__.py:69 | recipient `i` sits in the `To` header after the earlier recipients and one ", " each, and every recipient but the last is followed by ", " |
| Send.ToHeaderLength | pysendmail/__init__.py:69 | the `To` header is the addresses plus one ", " between neighbours, in length |
| Send.BaseName | pysendmail/__init__.py:84 | the attachment name has no "/", is a suffix of the path, and is preceded in the path by "/" unless it is the whole path |
| Send.BaseNameOfPlainName | pysendmail/__init__.py:84 | a path without "/" is its own name |
| Send.NameStart | pysendmail/__init__.py:84 | the base name starts just after a "/" (or at 0) and no "/" follows that point |
| Send.ReadAll | pysendmail/__init__.py:75-87 | all payloads are kept in order iff no read failed; otherwise the error names the first unreadable path |
| Send.Attach | pysendmail/__init__.py:75-87 | all attachments become parts, in order and named by base name, iff every read succeeded; otherwise the error names the first unreadable path |
| Send.Compose | pysendmail/__init__.py:63-95 | a message exists iff every attachment was read, and otherwise the error names the first unreadable path; it is sent from the user to the normalised list, with the `To` header joining that list, the given subject and body, and exactly the attachments of the loop: one per path, in order, named by base name with the bytes read |

## Left out

- Opening, reading and writing the configuration file and the `chmod` to owner read/write (pysendmail/__init__.py:40, 44, 52): filesystem I/O. `readConfig` opens `self.ConfigFile` and ignores its argument, and `chmod` targets `self.ConfigFile` rather than the file written; neither is modelled.
- The SMTP session (`starttls`, `login`, `sendmail`, `close`): network I/O. `Send.Compose` stops at the values passed to `sendmail`.
- MIME assembly, the `Date` header (wall clock) and the Base64 transfer encoding of attachment payloads: library glue; payloads are kept as raw bytes.
- The default configuration path `~/.pysendmail`: depends on the environment.
- `sys.exit` on errors and the `_main` command-line parsing and dispatch: process control and argument glue; errors are `Result` values instead.
- A `None` user, password or SMTP server (constructor defaults, pysendmail/__init__.py:26): `':'.join` raises a `TypeError` on it in `writeConfig`. The model cannot express this case because its text fields are byte strings only.
- A `None` port (constructor default, pysendmail/__init__.py:26): `writeConfig` writes it as the text "None" (line 42), and `readConfig` then raises a `ValueError` at line 58. The model cannot express this case because `Config.Credentials` holds the port as an integer; a line carrying "None" as its fourth part is `BadPort("None")` in `Config.ParseFields`.
- Base64.Decode: Python 2's `b64decode` skips characters outside the alphabet, and pad characters where padding cannot start, while it decodes; the model rejects both instead. It also looks for padding only at the end of a 4-character group, where Python tracks the group position across skipped characters. None of this matters for content that `writeConfig` produced.
- Config.ReadConfig: inherits the `Base64.Decode` differences, so a line holding characters outside the Base64 alphabet (other than surrounding whitespace) is `BadEncoding` where Python would decode the remaining characters.
- Config.ReadConfig: `readConfig` assigns `User`, `Pass` and `SmtpServer` (pysendmail/__init__.py:55-57) before `int` at line 58 can fail, so an object that raises there keeps the new user, password and server next to its old port and flag. The model returns an error and no partial credentials.
- Decimal.ParseInt: models `int` as optional whitespace, optional sign and ASCII digits; any other text Python 2's `int` might accept is treated as an error.
- Send.Attach: any exception in the attachment loop is modelled as a failed read of that path.
