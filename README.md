# Support helper skill: diagnostic e-mail and support intent

A model of the core of the "Support Helper" skill of a Neon AI voice
assistant. When a user asks to contact support, the skill e-mails the user a
bundle of diagnostic files. The model covers two parts of `__init__.py`:

- **The attachment builder of `send_diagnostic_email`.** It visits every file
  matched by `<config dir>/*.yml`, then every file matched by
  `<logs dir>/*.log`. Each file is named `basename + "." + ext`, where `ext`
  is the `os.path.splitext` extension with its leading dot, so
  `/logs/skills.log` is attached as `skills..log`. A file of more than
  20,000,000 bytes is cut to its last 5000 `'\n'`-separated pieces. The text is
  UTF-16 encoded with a byte order mark and then base 64 encoded. A file whose
  size or contents cannot be read is skipped. The attachments go to the user's
  address under the title "Diagnostic Info".
- **The `troubleshoot` intent handler.** It decides between the mobile reply,
  server mode (silence), the "no e-mail" reply and the send path. On the send
  path it may speak "one moment", sends the e-mail, then reports completion or
  the error.

Modules, one per file:

- `wrappers.dfy`: `Option` and the `Byte` type.
- `base64.dfy`: base 64 as in section 4 of RFC 4648. A strict decoder is
  proved inverse to the encoder in both directions.
- `utf16.dfy`: Python's `"utf-16"` codec on a little-endian host. It writes
  the byte order mark FF FE, then little-endian code units, with surrogate
  pairs as in section 2.1 of RFC 2781. A strict decoder is proved inverse in
  both directions.
- `posixpath.dfy`: `os.path.basename` and `os.path.splitext`, following
  CPython's `posixpath` rules. That includes the rule that leading dots of a
  file name start no extension, proved for a hidden name with no other dot.
- `lines.dfy`: `s.split('\n')`, `'\n'.join(...)` and the tail
  `'\n'.join(s.split('\n')[-n:])`.
- `support.dfy`: the skill. It holds the attachment name and value, the fold
  `Attachments` that specifies the map, the method `SendDiagnosticEmail` with
  the two nested loops of the source, and `Troubleshoot`.

The host is an input. `Environment` carries:

- the config and logs directories;
- `glob`, the matches of a pattern;
- `files`, what `os.path.getsize` and `open(...).read()` give for each path
  that can be read (a path absent from `files` is one for which either call
  raises);
- the device name;
- the current time as text.

`troubleshoot` reads its four facts from a `Request`: mobile, server mode,
e-mail preference and hesitation signal. Whether sending raised is a
parameter. `SendDiagnosticEmail` has no `modifies` clause: the files are only
read, never written. Python's `dict` is a Dafny `map`, without its order. A
later file with the same name replaces an earlier one's entry, as a dict
assignment does.

What `__init__.py` does, and so what the model does:

- The size threshold is 20,000,000 bytes and the tail keeps 5000 pieces.
- The name is `basename + "." + ext`, and `ext` keeps its own dot.
- Nothing is truncated in place, and no files are staged.
- `troubleshoot` has no confirmation, no retry and no fallback address. An
  empty address makes it speak "no.email" and stop.

## Model

| member | source | states |
|---|---|---|
| `Support.SendDiagnosticEmail` | __init__.py:78-133 | The e-mail built by the two nested loops equals `DiagnosticEmail`. Its title is "Diagnostic Info", its recipient is the given address, and its attachments are the fold `Attachments` over the `*.yml` matches then the `*.log` matches, starting from an empty map. Each loop's invariant says the map so far is the fold over the files visited so far. |
| `Support.DiagnosticEmailAttachments` | __init__.py:84-114 | The e-mail goes to the given address under "Diagnostic Info". It has at most as many attachments as matched files. It has an attachment named `key` exactly when a readable file matched by the config `*.yml` pattern or the logs `*.log` pattern is named `key`. |
| `Support.MatchedAttachments` | __init__.py:84-114 | The attachments of the matched files: at most one per matched file, and one named `key` exactly when a readable file matched by the config `*.yml` pattern or the logs `*.log` pattern is named `key`. |
| `Support.Patterns` | __init__.py:84-87 | Computes the two glob patterns, `<config>/*.yml` then `<logs>/*.log`. It has no contract of its own; `Support.MatchedPaths` states what the loop visits through it. |
| `Support.MatchedPaths` | __init__.py:84-96 | The files visited are the matches of `<config>/*.yml` followed by the matches of `<logs>/*.log`, in glob order. |
| `Support.AttachmentKeyOfMatch` | __init__.py:99-100 | A file `dir/stem.ext` that a `*.ext` glob matches is named `stem..ext`: the base name without extension, a dot, then the extension with its own dot. So `/logs/skills.log` is named `skills..log` and `/cfg/a.yml` is named `a..yml`. |
| `Support.AttachmentKey` | __init__.py:99-100 | Computes `basename + "." + ext`. Every name is a bare file name with no `/`. It is the file's base name with one more dot put in front of its `splitext` extension. `Support.AttachmentKeyOfMatch` gives its value on glob matches. |
| `PosixPath.BaseNameAppend` | __init__.py:99 | Appending text without a `/` to a path extends its `basename` by that text, which is how the base name of the root plus the extension gives the file's base name. |
| `PosixPath.SplitExtOfFileName` | __init__.py:99-100 | `splitext` of `dir/stem.ext` gives `dir/stem` and `.ext` when the stem does not start with a dot and the extension holds no dot. |
| `PosixPath.SplitExtOfHidden` | __init__.py:99-100 | `splitext` of `dir/.rest`, where `rest` holds no dot, gives the whole path and an empty extension: a leading dot starts no extension. |
| `PosixPath.RFindAppend` | __init__.py:99 | Appending text without `c` leaves the last occurrence of `c` where it was, which is why the base name grows by the appended text. |
| `PosixPath.InsertDot` | __init__.py:100 | A dot put between two parts without `/` gives a name without `/`, with the dot at the seam, and removing that dot gives the two parts joined. |
| `PosixPath.BaseNameOfFileName` | __init__.py:99 | `basename` of `dir/name` is `name` when `name` holds no `/`. |
| `PosixPath.SplitExt` | __init__.py:99-100 | The two parts of `splitext` concatenate to the path. The extension is empty, or it is a dot followed by neither a dot nor a separator. |
| `PosixPath.BaseName` | __init__.py:99 | `basename` is the suffix of the path after its last `/`, and holds no `/`. |
| `Support.AttachedText` | __init__.py:102-105 | Computes the text that is encoded: the whole file, or its last 5000 pieces above the threshold. It is always a suffix of the file's text. A file of at most 20,000,000 bytes is attached whole (the test is a strict `>`). |
| `Support.AttachedTextOfFile` | __init__.py:102-111 | A file of more than 20,000,000 bytes is attached as exactly its last 5000 `'\n'`-separated pieces. That tail holds at most 4999 newlines, and it is the whole text exactly when the text has at most 5000 pieces. |
| `Lines.LastLines` | __init__.py:104-105 | Computes `'\n'.join(s.split('\n')[-n:])`. The result is a suffix of the text. When shorter than the text, it starts just after a newline. |
| `Lines.JoinSuffix` | __init__.py:105 | Joining the pieces from index `k` on gives a suffix of the join of all pieces, preceded by a newline when `k > 0`. |
| `Lines.LastLinesPieces` | __init__.py:104-105 | Splitting the tail gives exactly the last `n` pieces of the text, as the slice `[-n:]` keeps them. |
| `Lines.LastLinesNewlines` | __init__.py:104-105 | The tail holds all the text's newlines when there are fewer than `n`, and `n - 1` otherwise. |
| `Lines.LastLinesWhole` | __init__.py:104-105 | The tail equals the text exactly when the text has at most `n` pieces. |
| `Lines.LastPieces` | __init__.py:105 | The slice `[-n:]` keeps the last `n` pieces, or all of them when there are fewer. |
| `Lines.Split` | __init__.py:104 | `split('\n')` yields at least one piece, and no piece holds a newline. |
| `Lines.Join` | __init__.py:105 | Computes `'\n'.join(pieces)`. It has no contract of its own; `Lines.JoinSplit` and `Lines.SplitJoin` state that it inverts `split('\n')`, and `Lines.NewlinesOfJoin` counts its newlines. |
| `Lines.NewlinesOfJoin` | __init__.py:105 | The join of `k` newline-free pieces holds exactly `k - 1` newlines. |
| `Lines.JoinSplit` | __init__.py:104-105 | Joining the pieces of a split with `'\n'` gives the text back. |
| `Lines.SplitJoin` | __init__.py:104-105 | Splitting the join of newline-free pieces gives the pieces back. |
| `Lines.PiecesOfSplit` | __init__.py:104 | A text splits into one more piece than it has newlines. |
| `Support.AttachmentValue` | __init__.py:106-111 | Computes the base 64 text of the UTF-16 bytes of the attached text. The value is never empty and is made of whole four-character quanta. `Support.AttachmentValueDecodes` states what it decodes to. |
| `Support.AttachmentValueDecodes` | __init__.py:106-111 | Every attachment value decodes by base 64 to exactly the UTF-16 bytes of the attached text, possibly cut, and those bytes decode back to that text. |
| `Support.AttachmentValueInjective` | __init__.py:106-111 | Two files with the same attachment value have the same attached text. |
| `Base64.DecodeEncode` | __init__.py:106-107 | Base 64 decoding undoes `b64encode` for every byte sequence. |
| `Base64.EncodeDecode` | __init__.py:106-107 | Every string the strict decoder accepts is the `b64encode` of what it decodes to. |
| `Base64.Encode` | __init__.py:106-107 | The encoding of `n` bytes has `4 * ceil(n / 3)` characters: whole quanta, and at least one for non-empty input. |
| `Base64.EncodeQuantum` | __init__.py:106-107 | One to three octets encode to one quantum of four characters. |
| `Base64.DecodeEncodeTriple` | __init__.py:106-107 | The quantum of three octets decodes back to them, final or not. |
| `Base64.DecodeEncodePair` | __init__.py:106-107 | The final quantum of two octets, padded with one `=`, decodes back to them. |
| `Base64.DecodeEncodeSingle` | __init__.py:106-107 | The final quantum of one octet, padded with two `=`, decodes back to it. |
| `Base64.EncodeDecodeTriple` | __init__.py:106-107 | Four symbols are the encoding of the three octets they decode to. |
| `Base64.EncodeDecodePair` | __init__.py:106-107 | Three symbols and one `=`, with the unused low bits zero, are the encoding of the two octets they decode to. |
| `Base64.EncodeDecodeSingle` | __init__.py:106-107 | Two symbols and two `=`, with the unused low bits zero, are the encoding of the octet they decode to. |
| `Utf16.DecodeEncode` | __init__.py:106 | Decoding undoes the `"utf-16"` encoding of every text. |
| `Utf16.EncodeDecode` | __init__.py:106 | Every byte sequence the strict decoder accepts is the `"utf-16"` encoding of the text it decodes to. |
| `Utf16.UnitCharsOfChar` | __init__.py:106 | The code units of one character, put in front of readable units, read back as that character followed by what those units read as. |
| `Utf16.PairUnits` | __init__.py:106 | A high and a low surrogate are exactly the two code units of the character they stand for. |
| `Utf16.Encode` | __init__.py:106 | Computes `s.encode("utf-16")`. It starts with the byte order mark FF FE, holds whole 2-byte code units, and takes 2 to 4 bytes per character. `Utf16.DecodeEncode` and `Utf16.EncodeDecode` state that it is inverted by the decoder. |
| `Support.Troubleshoot` | __init__.py:48-76 | Sending the diagnostic e-mail is attempted, once and to the user's address, exactly for a non-mobile request outside server mode with a non-empty address. The mobile intent is stopped exactly for a mobile request. "mobile.complete" is spoken exactly for a mobile request. "no.email" is spoken, not privately, exactly when the address is empty outside mobile and server mode. "one_moment" is spoken exactly on the send path with the hesitation signal set, and always first. "complete" is spoken exactly when the send returned, and "email.error" exactly when it raised. Server mode speaks nothing. At most two dialogs are spoken, and every dialog but "no.email" is private. |
| `Support.Collect` | __init__.py:89-114 | Computes the map the loop builds: visiting files in order from an empty map, each readable file sets its name's entry, and a file whose size or contents cannot be read is skipped. It has no contract of its own; the `Collect...` lemmas below state its properties. |
| `Support.Attachments` | __init__.py:89-114 | Computes `Collect` with the real names and values. Every attachment name is a bare file name with no `/`. `Support.AttachmentsEntries` states its entries. |
| `Support.CollectSize` | __init__.py:95-114 | The loop leaves at most one entry per visited file. |
| `Support.CollectDomain` | __init__.py:95-114 | A name has an entry exactly when some visited readable file has that name. |
| `Support.CollectKeysNamed` | __init__.py:95-114 | Every entry is named after some visited readable file. |
| `Support.CollectOfLastSupplier` | __init__.py:95-114 | The last readable file of a name supplies that name's value. |
| `Support.CollectHasSupplier` | __init__.py:95-114 | Every entry's value comes from the last readable visited file of that name. |
| `Support.CollectSkipsUnreadable` | __init__.py:97-114 | A file whose size or contents cannot be read leaves the map as if it had not been matched. Files before and after it are processed as usual. |
| `Support.Body` | __init__.py:130-132 | Computes the e-mail body: the fixed opening `BodyIntro`, the device name, " on ", then the time. It has no contract of its own; the device name and the time are inputs. |
| `Support.DiagnosticEmail` | __init__.py:129-133 | Computes the e-mail handed to `send_email`: the title "Diagnostic Info", the body, the user's address and `Attachments` over the matched files. It has no contract of its own; `Support.DiagnosticEmailAttachments` states its properties, and `Support.SendDiagnosticEmail` is proved to build it. |
| `Support.AttachmentsEntries` | __init__.py:95-114 | For the actual names and values: at most one entry per file. An entry named `key` exists exactly when a readable file is named `key`. Its value is the encoding of the last such file, and it decodes by base 64 to the UTF-16 bytes of that file's attached text. |

## Left out

- The skill framework is not modelled: the `NeonSkill` base class, intent
  registration, `create_skill`, `stop`, and the `check_for_updates` calls
  (`__init__.py:46-47`). `speak_dialog` becomes the recorded `Speech` list.
  `mobile_skill_intent("stop", ...)` becomes the `stopsMobileIntent` flag.
  `request_from_mobile`, `self.server`, `preference_user` and
  `check_for_signal` become the fields of `Request`.
- Logging is left out (`LOG.warning`, `LOG.debug`, `LOG.error`): it has no
  effect on the outcome.
- The e-mail collaborator `send_email` is reduced to the `Email` value handed
  to it. Whether delivery raised is the `sendRaises` parameter.
- The clock (`datetime.now()`) and the configured device name are inputs.
- Real `glob.glob`, `os.path.getsize` and `open`/`read` become the
  `Environment`. Each path has one `FileInfo`, so a file that changes between
  `getsize` and `read` is not modelled. Decoding file bytes into text (the
  locale encoding and universal newlines of `open`) happens before the model:
  `FileInfo.text` is the text `read` returns. A read that fails to decode is
  an unreadable file.
- Support.Attachments: the order of the attachments is not modelled. Python's
  `dict` keeps insertion order, so `send_email` receives the attachments in
  glob order, and a name written twice keeps its first position. The model's
  `map` has no order. It keeps which names are present and which file supplies
  each value.
- Python's `"utf-16"` codec writes the host's byte order. The model fixes
  little-endian with mark FF FE, the order of every common host.
- Support.Troubleshoot: `sendRaises` stands for any exception out of
  `send_diagnostic_email`. Errors raised before sending, such as a missing
  configuration key, are not told apart from a failed send.
- Support.Troubleshoot: an unset or `None` e-mail preference is modelled as
  the empty string, which Python's truth test also treats as false.
- All commented-out code is left out, including the thread-based upload of
  debug information (`__init__.py:177-201`).
- The test file `test/test_skill.py` is not modelled. It exercises handlers
  that are not in `__init__.py`.
