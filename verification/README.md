# snsync local note store, modelled in Dafny

This project models the local note store of snsync, a Simplenote
synchronisation tool. The store is the `Note` class in
`simplenote_sync/notes.py`. It keeps one file per note in a notes directory and does five things:

- derive a filesystem-safe filename from the first line of a note
  (`get_filename`);
- create a note file without overwriting a file of the same name (`new`);
- rewrite a known note file (`update`);
- read a note file back (`open`);
- build the metadata record of a note file (`gen_meta`).

The notes directory is an immutable `map` from filename to `FileEntry`. An entry holds
the file's content, its modification time and its birth time. Every operation is a
pure function of the store. `New` and `Update` return a result together with
the new store; `Open` and `GenMeta` only read the store and return a result.

Files:

- `text.dfy`, module `Text`: the string pipeline. It covers Python's `splitlines()[0]`, the
  safe-character filter (as a function `Filter` and as the loop `SafeChars`),
  truncation with Python slice semantics, and `strip()` with Python's
  `isspace` character set.
- `store.dfy`, modules `Maybe` and `FileStore`: the store, the write
  primitive shared by `new` and `update`, and the text-mode read used by `open`.
  The write primitive covers the open/write/close/`os.utime` sequence and its fault points.
  The text-mode read is `ReadText`.
- `notes.dfy`, module `Notes`: `GetFilename`, `New`, `Update`, `Open`,
  `GenMeta` and the lemmas that relate them.

These parts of the environment are parameters:

- the wall clock (`now`, and the `%y%m%d-%H%M%S` `stamp`);
- the platform test of `open` (`darwin`) and whether `os.stat` results carry
  `st_birthtime` (`hasBirthtime`, for `gen_meta`);
- whether the file system follows the BSD birth-time rule for `os.utime`
  (`lowersBirth`). Under that rule, a modification time older than the birth
  time pulls the birth time back to it. macOS and FreeBSD follow it;
- the MD5 hex digest (`digest: string -> string`);
- where an I/O call raises (`Fault`, `readFails`).

Behaviour of the code that the model keeps on purpose:

- `open` reads the file in text mode, so `\r\n` and a lone `\r` come back as
  `\n`. `Open` returns `ReadText` of the stored content. `ReadTextVerbatim`
  proves this equals the stored content exactly when it has no `\r`.
- `note_data[0]` raises `IndexError` outside the `try`, and the exception
  escapes `new`. `GetFilename` and `New` therefore require non-empty content.
- `deleted` is the integer `0`.
- `gen_meta` has no fallback for `st_birthtime`. Reading it where the
  attribute does not exist raises `AttributeError`, and `GenMeta` answers
  `None` then. Only `open` falls back to the modification time, and it decides
  by matching `sys.platform` against `darwin`, not by the attribute. The model
  therefore has two flags: `darwin` for `open` and `hasBirthtime` for `gen_meta`.

## Model

| member | source | states |
|---|---|---|
| Text.FirstLine | simplenote_sync/notes.py:82-83 | the first line is a prefix of the content with no line break in it, ending at the content's end or just before a line break |
| Text.FirstLineOfLines | simplenote_sync/notes.py:82-83 | a line, a line break and anything after it has exactly that line as its first line |
| Text.Filter | simplenote_sync/notes.py:89-90 | every kept character is an ASCII letter, digit, space, `-`, `_` or `.`; a character occurs in the result iff it occurs in the input and is safe; nothing is added |
| Text.FilterAppend | simplenote_sync/notes.py:90 | filtering a concatenation is the concatenation of the filtered parts, so characters are dropped one by one and never substituted |
| Text.FilterKeepsSafe | simplenote_sync/notes.py:89-90 | a line made only of safe characters passes the filter unchanged |
| Text.FilterDropsUnsafe | simplenote_sync/notes.py:89-90 | a line with no safe character filters to the empty string |
| Text.FilterIdempotent | simplenote_sync/notes.py:89-90 | filtering an already filtered line changes nothing |
| Text.SafeChars | simplenote_sync/notes.py:90 | the character-by-character join loop computes exactly the safe-character filter |
| Text.Truncate | simplenote_sync/notes.py:92-93 | the result is a prefix of the input, of length min(n, len) for n >= 0 and max(0, len + n) for a negative n, as Python's `s[:n]` gives |
| Text.Strip | simplenote_sync/notes.py:96 | the result has no whitespace at either end and is the slice of the input left after removing only whitespace from both ends |
| Text.StripIdempotent | simplenote_sync/notes.py:96 | stripping a stripped string changes nothing |
| Text.SafeWhitespaceIsSpace | simplenote_sync/notes.py:89-96 | among safe characters `strip()` can only remove the space |
| Notes.Body | simplenote_sync/notes.py:82-96 | the name body is all safe characters, has no surrounding whitespace, is at most `filenameLen` long for a non-negative length, and is no longer than the truncated filtered line |
| Notes.GetFilename | simplenote_sync/notes.py:78-97 | the filename ends with `"." + ext`; the part before it is the stripped, truncated, filtered first line, so it is safe, trimmed and within the configured length |
| Notes.GetFilenameFirstLineOnly | simplenote_sync/notes.py:82-83 | content past the first line break never changes the filename |
| Notes.BodyIsFixedPoint | simplenote_sync/notes.py:82-96 | a non-empty derived body, given as content, derives itself again |
| Notes.NoSafeCharName | simplenote_sync/notes.py:89-96 | a first line with no safe character yields the bare name `"." + ext` |
| Notes.ShoppingListName | simplenote_sync/notes.py:78-97 | any note whose first line is `Shopping List`, such as `"Shopping List\nMilk\nEggs"`, is named `"Shopping List" + "." + "txt"` with extension `txt` and length 20 |
| Notes.New | simplenote_sync/notes.py:48-76 | success iff the write does not fault; the name is the derived one when it is free and `stamp + "_" + derived` when it is taken; on success that file holds the content verbatim with mtime `modifydate`; every other file is unchanged |
| Notes.NewKeepsNamesake | simplenote_sync/notes.py:57-67 | when the derived name is taken and the stamped name is free, the existing file is left untouched and a successful `new` names a fresh file |
| Notes.NewTwiceKeepsBoth | simplenote_sync/notes.py:57-69 | two notes with the same first line created in turn land in two different files, and the first file is kept as written, provided the second note's stamped name is still free after the first `new` (for a pre-existing namesake: the two were not created within one second) |
| Notes.NewOverwritesStamped | simplenote_sync/notes.py:57-67 | when the derived name and its stamped form are both taken, `new` writes to the stamped name, replacing its content and adding no file |
| Notes.SameSecondThirdOverwrites | simplenote_sync/notes.py:57-67 | a third note with the same first line created within the same second as the second one lands on the second's file and replaces its content |
| Notes.ShoppingListCollision | simplenote_sync/notes.py:57-69 | with `Shopping List.txt` present, a note such as `"Shopping List\nBread"` is written to `stamp + "_" + "Shopping List.txt"` |
| FileStore.BirthAfterUtime | simplenote_sync/notes.py:67 | the birth time after `os.utime` is never later than before; under the BSD rule it is the earlier of the old birth time and the new mtime, otherwise it is unchanged |
| FileStore.Write | simplenote_sync/notes.py:61-67 | success iff no fault; on success the file holds the content with the requested mtime; an open fault changes nothing; a later fault leaves a prefix of the content with the write-time mtime; other files are kept; the birth time is the old one, or `now` for a new file, lowered by `os.utime` only on success and only under the BSD rule |
| FileStore.ReadText | simplenote_sync/notes.py:157-158 | a text-mode read never yields `\r` and is never longer than the file |
| FileStore.ReadTextVerbatim | simplenote_sync/notes.py:157-158 | a read returns the file's text unchanged iff that text holds no `\r` |
| FileStore.ReadTextPlainPrefix | simplenote_sync/notes.py:157-158 | text before the first `\r` reads back unchanged, followed by the read of the rest |
| FileStore.ReadTextCrLf | simplenote_sync/notes.py:157-158 | a `\r\n` pair after `\r`-free text reads back as one `\n`, with the text before and after kept in order |
| FileStore.ReadTextLoneCr | simplenote_sync/notes.py:157-158 | a `\r` not followed by `\n`, after `\r`-free text, reads back as `\n`, with the text before and after kept in order |
| FileStore.ReadTextIdempotent | simplenote_sync/notes.py:157-158 | reading normalised text again changes nothing |
| Notes.Update | simplenote_sync/notes.py:125-146 | success iff no fault; on success the file named in the metadata holds the content with mtime `modifydate`; every other file is unchanged; an existing file's birth time never rises, is kept unless the BSD rule applies and `modifydate` is older, and then becomes `modifydate` |
| Notes.Open | simplenote_sync/notes.py:148-179 | a result iff the file exists and can be read; the content is the text-mode read of the file and modifydate its mtime; createdate is the birth time when the platform is darwin and equals modifydate otherwise |
| Notes.OpenAfterNew | simplenote_sync/notes.py:155-176 | a file written by a successful `new` reads back with the note's modifydate and normalised content, verbatim when it has no `\r`; off darwin createdate equals modifydate; on darwin under the BSD rule createdate is never after modifydate, and a fresh file written with an older modifydate reports it as createdate |
| Notes.OpenAfterUpdate | simplenote_sync/notes.py:155-176 | a file written by a successful `update` reads back with the note's modifydate and normalised content; on darwin an existing file reports its old birth time as lowered by `os.utime` to `modifydate` under the BSD rule |
| Notes.GenMeta | simplenote_sync/notes.py:102-123 | a record exactly when `st_birthtime` exists; `filename` is the input, `deleted` is 0, `key` is the digest of the filename, and the dates are the file's birth and modification times |
| Notes.GenMetaKeyIgnoresContent | simplenote_sync/notes.py:106-111 | the key of a filename is the same whatever the file holds |
| Notes.GenMetaAfterNew | simplenote_sync/notes.py:102-141 | the metadata of a freshly created note carries its modifydate, and `update` with that metadata rewrites the same file without adding any |

## Left out

- Directory initialisation (`os.mkdir` of the notes and trash directories, `sys.exit` on failure): it is process-level side effects. The model assumes the directory exists.
- Directories inside the notes directory are not in the store. In the code, a directory carrying the derived name fails `isfile`, so `new` gets no prefix and then fails to open it. The model has no such case.
- Logging: it has no effect on behaviour.
- Notes.NewTwiceKeepsBoth: holds only when the second stamped name is free. The code checks only the derived name before opening the stamped name with `'w'`. Two creations with the same first line within one second, after the derived name is taken, therefore overwrite each other. `NewOverwritesStamped` and `SameSecondThirdOverwrites` state this behaviour of the code.
- Notes.New, Notes.Update, Notes.Open: filenames are compared exactly, character by character. A case-insensitive file system, the default on macOS, treats names that differ only in case as one file. There, `os.path.isfile` finds `Shopping List.txt` for the derived name `Shopping list.txt`, so `new` adds the stamp prefix where the model does not. Likewise `update` and `open` on a case variant hit the existing file, where the model adds a new entry or answers `None`. The name choice of `New`, the frame lemmas (`AgreeExcept`, `NewKeepsNamesake`, `NewTwiceKeepsBoth`) and the read-after-write lemmas hold for a case-sensitive file system only. Unicode normalisation of names, as on macOS file systems, is left out for the same reason.
- The MD5 digest: `digest` is a parameter. No collision-freedom is assumed or claimed.
- The access time set by `os.utime`: it is not kept in `FileEntry`.
- Floating-point timestamps and `float(note['modifydate'])`: times are integers.
- Platform detection and `st_birthtime` are the booleans `darwin` and `hasBirthtime` and a stored birth time. Which platforms make each flag true is not modelled; `lowersBirth` stands for the file system's birth-time rule (Windows leaves creation times alone under `os.utime`, macOS and FreeBSD lower them). The write-side newline translation of Windows is not modelled: writes are taken as POSIX, verbatim.
- Where an I/O call raises: the `Fault` and `readFails` parameters choose it freely. Encoding errors fall under them too.
- The `else` branch of `new` at simplenote_sync/notes.py:73-74 is unreachable. `GetFilename` always ends in `"." + ext`, so the name is never empty or falsy. The `except` branch of `get_filename` at simplenote_sync/notes.py:98-100 cannot be reached for string content either. Neither is modelled.
- GenMeta: on a filename missing from the store the code raises from `os.stat`. The model requires the name to be present rather than returning an error.
- Text.FirstLine: models `splitlines()[0]` only for non-empty content. Empty content raises `IndexError` in the code.
