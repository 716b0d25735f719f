/**
 The local note store: deriving a safe filename from a note's first line,
 creating a note file without overwriting a namesake, rewriting a known note
 file, reading a note file back, and the per-file metadata record.
 The notes directory is a `Store`; the wall clock, the platform, the file
 system's birth-time rule and the MD5 digest are parameters.
 */
module Notes {
  import opened Text
  import opened FileStore
  import opened Maybe

  /** The two configuration values the filename depends on: `cfg_nt_ext` and `cfg_nt_filenamelen`. */
  datatype Config = Config(ext: string, filenameLen: int)

  /** A note as handed over by the synchronisation engine; `key` is only logged. */
  datatype Note = Note(content: string, modifydate: Time, key: string)

  /** What `open` returns for a readable note file. */
  datatype NoteFile = NoteFile(content: string, modifydate: Time, createdate: Time)

  /** What `gen_meta` returns; `deleted` is always 0 here. */
  datatype NoteFileMeta = NoteFileMeta(filename: string, key: string, deleted: int, createdate: Time, modifydate: Time)

  /** The outcome of `new`: the store afterwards, and the filename or `False`. */
  datatype Created = Created(store: Store, filename: Option<string>)

  // ---------------------------------------------------------------- get_filename

  /** The part of the filename before `"." + ext`: safe, truncated, stripped first line. */
  function Body(content: string, filenameLen: int): (r: string)
    requires |content| > 0
    ensures AllSafe(r)
    ensures Trimmed(r)
    ensures filenameLen >= 0 ==> |r| <= filenameLen
    ensures |r| <= |Truncate(Filter(FirstLine(content)), filenameLen)|
  {
    var safename := Truncate(Filter(FirstLine(content)), filenameLen);
    PrefixAllSafe(Filter(FirstLine(content)), safename);
    StripKeepsSafe(safename);
    Strip(safename)
  }

  /** A filename splits back into its body and its `"." + ext` suffix. */
  lemma SplitName(body: string, ext: string)
    ensures var r := body + "." + ext;
            && |r| - |ext| - 1 == |body|
            && r[..|body|] == body
            && r[|body|..] == "." + ext
  {
    var r := body + "." + ext;
    assert r[..|body|] == body;
    assert r[|body|..] == "." + ext;
  }

  /** `Note.get_filename`: the body followed by a period and the configured extension. */
  function GetFilename(content: string, cfg: Config): (r: string)
    requires |content| > 0
    ensures |r| > |cfg.ext|
    ensures r[|r| - |cfg.ext| - 1..] == "." + cfg.ext
    ensures r[..|r| - |cfg.ext| - 1] == Strip(Truncate(Filter(FirstLine(content)), cfg.filenameLen))
    ensures AllSafe(r[..|r| - |cfg.ext| - 1])
    ensures Trimmed(r[..|r| - |cfg.ext| - 1])
    ensures cfg.filenameLen >= 0 ==> |r| - |cfg.ext| - 1 <= cfg.filenameLen
  {
    var body := Body(content, cfg.filenameLen);
    SplitName(body, cfg.ext);
    body + "." + cfg.ext
  }

  /** Only the first line names the file: whatever follows the first line break is ignored. */
  lemma GetFilenameFirstLineOnly(line: string, brk: char, rest: string, cfg: Config)
    requires |line| > 0
    requires NoLineBreak(line)
    requires IsLineBreak(brk)
    ensures GetFilename(line + [brk] + rest, cfg) == GetFilename(line, cfg)
  {
    FirstLineOfLines(line, brk, rest);
    FirstLineOfOneLine(line);
  }

  /** A non-empty body used as a note's whole content derives itself again. */
  lemma {:induction false} BodyIsFixedPoint(content: string, filenameLen: int)
    requires |content| > 0
    requires filenameLen >= 0
    requires |Body(content, filenameLen)| > 0
    ensures Body(Body(content, filenameLen), filenameLen) == Body(content, filenameLen)
  {
    var b := Body(content, filenameLen);
    forall i | 0 <= i < |b| ensures !IsLineBreak(b[i]) {
      SafeIsNotLineBreak(b[i]);
    }
    FirstLineOfOneLine(b);
    FilterKeepsSafe(b);
    assert Truncate(b, filenameLen) == b;
    StripTrimmed(b);
  }

  /** A note whose first line is `Shopping List` has that line as its body. */
  lemma ShoppingListBody(rest: string)
    ensures Body("Shopping List" + "\n" + rest, 20) == "Shopping List"
  {
    var line := "Shopping List";
    assert !IsWhitespace(line[0]) && !IsWhitespace(line[|line| - 1]);
    assert AllSafe(line);
    forall i | 0 <= i < |line| ensures !IsLineBreak(line[i]) {
      SafeIsNotLineBreak(line[i]);
    }
    assert line + "\n" + rest == line + ['\n'] + rest;
    FirstLineOfLines(line, '\n', rest);
    FilterKeepsSafe(line);
    assert Truncate(line, 20) == line;
    StripTrimmed(line);
  }

  /**
   Any note whose first line is `Shopping List`, for example
   `"Shopping List\nMilk\nEggs"`, is named `Shopping List.txt` with extension `txt`
   and length 20.
   */
  lemma ShoppingListName(rest: string)
    ensures GetFilename("Shopping List" + "\n" + rest, Config("txt", 20)) == "Shopping List" + "." + "txt"
  {
    ShoppingListBody(rest);
  }

  /** A first line without a single safe character names the file `"." + ext`. */
  lemma {:induction false} NoSafeCharName(content: string, cfg: Config)
    requires |content| > 0
    requires forall i :: 0 <= i < |FirstLine(content)| ==> !IsSafe(FirstLine(content)[i])
    ensures GetFilename(content, cfg) == "." + cfg.ext
  {
    FilterDropsUnsafe(FirstLine(content));
    assert Truncate([], cfg.filenameLen) == [];
  }

  // ---------------------------------------------------------------- new

  /** The name `new` writes to: the derived name, or the stamped name when the derived one is taken. */
  function TargetName(fs: Store, content: string, cfg: Config, stamp: string): string
    requires |content| > 0
  {
    var derived := GetFilename(content, cfg);
    if derived in fs then stamp + "_" + derived else derived
  }

  /**
   `Note.new`. `stamp` is the `%y%m%d-%H%M%S` rendering of the local time,
   `now` the wall-clock time of the write, and `lowersBirth` the file system's
   birth-time rule for `os.utime` (see `BirthAfterUtime`).
   */
  function New(fs: Store, note: Note, cfg: Config, stamp: string, now: Time, lowersBirth: bool, fault: Fault): (r: Created)
    requires |note.content| > 0
    ensures var d := GetFilename(note.content, cfg);
            d !in fs && r.filename.Some? ==> r.filename.value == d
    ensures var d := GetFilename(note.content, cfg);
            d in fs && r.filename.Some? ==> r.filename.value == stamp + "_" + d
    ensures r.filename.Some? <==> fault == NoFault
    ensures r.filename.Some? ==>
              && r.filename.value in r.store
              && r.store[r.filename.value].content == note.content
              && r.store[r.filename.value].mtime == note.modifydate
    ensures AgreeExcept(fs, r.store, TargetName(fs, note.content, cfg, stamp))
  {
    var name := TargetName(fs, note.content, cfg, stamp);
    var w := Write(fs, name, note.content, note.modifydate, now, lowersBirth, fault);
    Created(w.store, if w.ok then Some(name) else None)
  }

  /**
   A file already holding the derived name survives `new` untouched whenever
   the stamped name was free, and a successful `new` then names a different file.
   */
  lemma NewKeepsNamesake(fs: Store, note: Note, cfg: Config, stamp: string, now: Time, lowersBirth: bool, fault: Fault)
    requires |note.content| > 0
    requires GetFilename(note.content, cfg) in fs
    requires stamp + "_" + GetFilename(note.content, cfg) !in fs
    ensures var d := GetFilename(note.content, cfg);
            var r := New(fs, note, cfg, stamp, now, lowersBirth, fault);
            && d in r.store && r.store[d] == fs[d]
            && (r.filename.Some? ==> r.filename.value != d && r.filename.value !in fs)
  {
    var d := GetFilename(note.content, cfg);
    assert |stamp + "_" + d| > |d|;
  }

  /**
   Two notes with the same first line, created one after the other, end up in
   two different files, and the first is left as written, provided the second
   note's stamped name is still free after the first `new`. When the derived
   name already existed before the first note, that means the two were not
   created within the same second; `SameSecondThirdOverwrites` shows what
   happens otherwise.
   */
  lemma NewTwiceKeepsBoth(fs: Store, a: Note, b: Note, cfg: Config, stampA: string, stampB: string, nowA: Time, nowB: Time, lowersBirth: bool)
    requires |a.content| > 0 && |b.content| > 0
    requires FirstLine(a.content) == FirstLine(b.content)
    requires stampB + "_" + GetFilename(b.content, cfg) !in New(fs, a, cfg, stampA, nowA, lowersBirth, NoFault).store
    ensures var ra := New(fs, a, cfg, stampA, nowA, lowersBirth, NoFault);
            var rb := New(ra.store, b, cfg, stampB, nowB, lowersBirth, NoFault);
            && ra.filename.Some? && rb.filename.Some?
            && ra.filename.value != rb.filename.value
            && rb.store[ra.filename.value] == ra.store[ra.filename.value]
            && rb.store[rb.filename.value].content == b.content
  {
    var ra := New(fs, a, cfg, stampA, nowA, lowersBirth, NoFault);
    var d := GetFilename(a.content, cfg);
    assert GetFilename(b.content, cfg) == d;
    assert d in ra.store by {
      if d !in fs {
        assert ra.filename.value == d;
      }
    }
    NewKeepsNamesake(ra.store, b, cfg, stampB, nowB, lowersBirth, NoFault);
  }

  /**
   When the derived name and its stamped form are both taken, `new` opens the
   stamped name for writing and replaces what it held: no file is added.
   */
  lemma NewOverwritesStamped(fs: Store, note: Note, cfg: Config, stamp: string, now: Time, lowersBirth: bool)
    requires |note.content| > 0
    requires GetFilename(note.content, cfg) in fs
    requires stamp + "_" + GetFilename(note.content, cfg) in fs
    ensures var r := New(fs, note, cfg, stamp, now, lowersBirth, NoFault);
            && r.filename == Some(stamp + "_" + GetFilename(note.content, cfg))
            && r.store.Keys == fs.Keys
            && r.store[r.filename.value].content == note.content
  {
  }

  /**
   Three notes with the same first line created within one second share one
   stamp. The second and third both go to the stamped name, and the third
   replaces the second's file: `new` checks only the derived name before
   opening the stamped name for writing.
   */
  lemma SameSecondThirdOverwrites(fs: Store, a: Note, b: Note, c: Note, cfg: Config, stamp: string,
                                  nowA: Time, nowB: Time, nowC: Time, lowersBirth: bool)
    requires |a.content| > 0 && |b.content| > 0 && |c.content| > 0
    requires FirstLine(a.content) == FirstLine(b.content) == FirstLine(c.content)
    ensures var ra := New(fs, a, cfg, stamp, nowA, lowersBirth, NoFault);
            var rb := New(ra.store, b, cfg, stamp, nowB, lowersBirth, NoFault);
            var rc := New(rb.store, c, cfg, stamp, nowC, lowersBirth, NoFault);
            && rb.filename.Some? && rc.filename == rb.filename
            && rc.store.Keys == rb.store.Keys
            && rc.store[rc.filename.value].content == c.content
  {
    var ra := New(fs, a, cfg, stamp, nowA, lowersBirth, NoFault);
    var rb := New(ra.store, b, cfg, stamp, nowB, lowersBirth, NoFault);
    var d := GetFilename(a.content, cfg);
    assert GetFilename(b.content, cfg) == d && GetFilename(c.content, cfg) == d;
    assert d in ra.store by {
      if d !in fs {
        assert ra.filename.value == d;
      }
    }
    assert d in rb.store;
    NewOverwritesStamped(rb.store, c, cfg, stamp, nowC, lowersBirth);
  }

  /**
   When `Shopping List.txt` exists, a second note starting with that line, for
   example `"Shopping List\nBread"`, lands beside it under a stamped name.
   */
  lemma ShoppingListCollision(fs: Store, rest: string, stamp: string, modifydate: Time, key: string, now: Time, lowersBirth: bool)
    requires "Shopping List" + "." + "txt" in fs
    ensures var r := New(fs, Note("Shopping List" + "\n" + rest, modifydate, key), Config("txt", 20), stamp, now, lowersBirth, NoFault);
            r.filename == Some(stamp + "_" + ("Shopping List" + "." + "txt"))
  {
    var note := Note("Shopping List" + "\n" + rest, modifydate, key);
    ShoppingListName(rest);
    var r := New(fs, note, Config("txt", 20), stamp, now, lowersBirth, NoFault);
  }

  // ---------------------------------------------------------------- update

  /**
   `Note.update`: rewrite the file named by `meta` with the note's content and
   modify time. An existing file keeps its birth time unless the file system
   follows the BSD rule and the note's modify time is older.
   */
  function Update(fs: Store, note: Note, meta: NoteFileMeta, now: Time, lowersBirth: bool, fault: Fault): (r: Written)
    ensures r.ok <==> fault == NoFault
    ensures r.ok ==>
              && meta.filename in r.store
              && r.store[meta.filename].content == note.content
              && r.store[meta.filename].mtime == note.modifydate
    ensures AgreeExcept(fs, r.store, meta.filename)
    ensures meta.filename in fs && meta.filename in r.store ==>
              && r.store[meta.filename].birth <= fs[meta.filename].birth
              && (!lowersBirth || !r.ok || fs[meta.filename].birth <= note.modifydate ==>
                    r.store[meta.filename].birth == fs[meta.filename].birth)
    ensures r.ok && lowersBirth ==> r.store[meta.filename].birth <= note.modifydate
    ensures r.ok && lowersBirth && meta.filename in fs && note.modifydate < fs[meta.filename].birth ==>
              r.store[meta.filename].birth == note.modifydate
  {
    Write(fs, meta.filename, note.content, note.modifydate, now, lowersBirth, fault)
  }

  // ---------------------------------------------------------------- open

  /**
   `Note.open`. `readFails` stands for an exception from `open`/`read`;
   `darwin` for `re.match('darwin', sys.platform)`.
   */
  function Open(fs: Store, name: string, darwin: bool, readFails: bool): (r: Option<NoteFile>)
    ensures r.Some? <==> name in fs && !readFails
    ensures r.Some? ==>
              && r.value.content == ReadText(fs[name].content)
              && r.value.modifydate == fs[name].mtime
    ensures r.Some? && darwin ==> r.value.createdate == fs[name].birth
    ensures r.Some? && !darwin ==> r.value.createdate == r.value.modifydate
  {
    if name !in fs || readFails then None
    else
      var entry := fs[name];
      Some(NoteFile(ReadText(entry.content), entry.mtime, if darwin then entry.birth else entry.mtime))
  }

  /**
   Reading back a note that `new` wrote gives its modify time and, once line
   endings are normalised, its content; off darwin the creation date is that
   modify time too. On darwin with the BSD birth-time rule the creation date
   never comes after the modify time, and a fresh file written with an older
   modify time, the usual case when syncing a remote note, reports that modify
   time as its creation date.
   */
  lemma OpenAfterNew(fs: Store, note: Note, cfg: Config, stamp: string, now: Time, lowersBirth: bool, darwin: bool)
    requires |note.content| > 0
    ensures var r := New(fs, note, cfg, stamp, now, lowersBirth, NoFault);
            && r.filename.Some?
            && var f := Open(r.store, r.filename.value, darwin, false);
            && f.Some?
            && f.value.content == ReadText(note.content)
            && f.value.modifydate == note.modifydate
            && (!darwin ==> f.value.createdate == note.modifydate)
            && (darwin && lowersBirth ==> f.value.createdate <= note.modifydate)
            && (darwin && lowersBirth && r.filename.value !in fs && note.modifydate <= now ==>
                  f.value.createdate == note.modifydate)
            && (darwin && !lowersBirth && r.filename.value !in fs ==> f.value.createdate == now)
            && ('\r' !in note.content ==> f.value.content == note.content)
  {
    ReadTextVerbatim(note.content);
  }

  /**
   Reading back a note that `update` wrote gives its modify time and normalised
   content. On darwin an existing file reports the earlier of its old birth
   time and the note's modify time under the BSD birth-time rule, and its old
   birth time otherwise.
   */
  lemma OpenAfterUpdate(fs: Store, note: Note, meta: NoteFileMeta, now: Time, lowersBirth: bool, darwin: bool)
    ensures var r := Update(fs, note, meta, now, lowersBirth, NoFault);
            var f := Open(r.store, meta.filename, darwin, false);
            && f.Some?
            && f.value.content == ReadText(note.content)
            && f.value.modifydate == note.modifydate
            && (darwin && meta.filename in fs ==>
                  f.value.createdate == BirthAfterUtime(fs[meta.filename].birth, note.modifydate, lowersBirth))
            && ('\r' !in note.content ==> f.value.content == note.content)
  {
    ReadTextVerbatim(note.content);
  }

  // ---------------------------------------------------------------- gen_meta

  /**
   `Note.gen_meta`. `digest` stands for the MD5 hex digest of the UTF-8
   filename. `hasBirthtime` says whether `os.stat` results carry
   `st_birthtime` (macOS and FreeBSD, and Windows from Python 3.12); this is
   a different question from `open`'s `darwin` test. `None` is the
   `AttributeError` raised where the attribute is missing.
   */
  function GenMeta(fs: Store, name: string, hasBirthtime: bool, digest: string -> string): (r: Option<NoteFileMeta>)
    requires name in fs
    ensures r.Some? <==> hasBirthtime
    ensures r.Some? ==>
              && r.value.filename == name
              && r.value.deleted == 0
              && r.value.key == digest(name)
              && r.value.createdate == fs[name].birth
              && r.value.modifydate == fs[name].mtime
  {
    if hasBirthtime then Some(NoteFileMeta(name, digest(name), 0, fs[name].birth, fs[name].mtime)) else None
  }

  /** The key of a note file depends on its name only, never on what the file holds. */
  lemma GenMetaKeyIgnoresContent(fs: Store, gs: Store, name: string, digest: string -> string)
    requires name in fs && name in gs
    ensures GenMeta(fs, name, true, digest).value.key == GenMeta(gs, name, true, digest).value.key
  {
  }

  /**
   The metadata of a note file `new` just wrote carries the note's modify time,
   and feeding that metadata to `update` rewrites the same file.
   */
  lemma GenMetaAfterNew(fs: Store, note: Note, cfg: Config, stamp: string, now: Time, lowersBirth: bool,
                        digest: string -> string, later: Note, laterNow: Time)
    requires |note.content| > 0
    ensures var r := New(fs, note, cfg, stamp, now, lowersBirth, NoFault);
            && r.filename.Some?
            && var m := GenMeta(r.store, r.filename.value, true, digest);
            && m.Some?
            && m.value.modifydate == note.modifydate
            && m.value.key == digest(r.filename.value)
            && var u := Update(r.store, later, m.value, laterNow, lowersBirth, NoFault);
            && u.store.Keys == r.store.Keys
            && u.store[r.filename.value].content == later.content
  {
  }
}
