/** `Option` for the operations that answer `False` instead of a value. */
module Maybe {
  datatype Option<+T> = None | Some(value: T)
}

/**
 The notes directory, seen as a map from filename to the file's content and
 timestamps, and the two file-level primitives the note operations share:
 a text-mode write followed by setting the modification time, and a
 text-mode read.
 */
module FileStore {

  /** Seconds since the epoch. */
  type Time = int

  /** One regular file: what it holds, its modification time and its birth time. */
  datatype FileEntry = FileEntry(content: string, mtime: Time, birth: Time)

  /** Filenames are compared exactly, as on a case-sensitive file system. */
  type Store = map<string, FileEntry>

  /**
   Where a write can break off. `OpenFault`: `open(.., 'w')` raises and nothing
   is touched. `FaultAfter(k)`: the file is created or truncated and holds the
   first `k` characters of the content when `write`, `close` or `os.utime`
   raises; its modification time is then the time of the write, not the
   note's.
   */
  datatype Fault = NoFault | OpenFault | FaultAfter(written: nat)

  /** The store after a write, and whether the write reported success. */
  datatype Written = Written(store: Store, ok: bool)

  /** `b` agrees with `a` on every filename except `name`. */
  ghost predicate AgreeExcept(a: Store, b: Store, name: string) {
    && (forall n :: n != name ==> (n in a <==> n in b))
    && (forall n :: n != name && n in a ==> b[n] == a[n])
  }

  /** Birth time of `name` once it has been opened for writing at `now`: kept if it already existed. */
  function BirthAfterWrite(fs: Store, name: string, now: Time): Time {
    if name in fs then fs[name].birth else now
  }

  /**
   Birth time after `os.utime` sets the modification time to `mtime`.
   `lowersBirth` says whether the file system follows the BSD rule (macOS,
   FreeBSD): a modification time older than the birth time pulls the birth
   time back to it. Elsewhere the birth time is left alone.
   */
  function BirthAfterUtime(birth: Time, mtime: Time, lowersBirth: bool): (b: Time)
    ensures b <= birth
    ensures b == birth || b == mtime
    ensures lowersBirth ==> b <= mtime
    ensures !lowersBirth ==> b == birth
  {
    if lowersBirth && mtime < birth then mtime else birth
  }

  /**
   `open(name, 'w')`, `write(content)`, `close()`, then
   `os.utime(name, (now, mtime))`.
   */
  function Write(fs: Store, name: string, content: string, mtime: Time, now: Time, lowersBirth: bool, fault: Fault): (w: Written)
    ensures w.ok <==> fault == NoFault
    ensures w.ok ==> name in w.store && w.store[name].content == content && w.store[name].mtime == mtime
    ensures AgreeExcept(fs, w.store, name)
    ensures fault == OpenFault ==> w.store == fs
    ensures fault.FaultAfter? ==> name in w.store && w.store[name].content <= content && w.store[name].mtime == now
    ensures w.ok ==> w.store[name].birth == BirthAfterUtime(BirthAfterWrite(fs, name, now), mtime, lowersBirth)
    ensures !w.ok && name in w.store ==> w.store[name].birth == BirthAfterWrite(fs, name, now)
    ensures name in w.store && name in fs ==> w.store[name].birth <= fs[name].birth
    ensures name in w.store && name !in fs ==> w.store[name].birth <= now
  {
    var birth := BirthAfterWrite(fs, name, now);
    match fault
    case NoFault => Written(fs[name := FileEntry(content, mtime, BirthAfterUtime(birth, mtime, lowersBirth))], true)
    case OpenFault => Written(fs, false)
    case FaultAfter(k) =>
      var part := if k <= |content| then content[..k] else content;
      Written(fs[name := FileEntry(part, now, birth)], false)
  }

  /**
   What `f.read()` of a file opened with `open(name, 'r')` returns: universal
   newlines mode turns every `\r\n` and every lone `\r` into `\n`.
   */
  function ReadText(s: string): (r: string)
    ensures |r| <= |s|
    ensures '\r' !in r
  {
    if |s| == 0 then []
    else if s[0] == '\r' then
      "\n" + ReadText(if |s| >= 2 && s[1] == '\n' then s[2..] else s[1..])
    else
      [s[0]] + ReadText(s[1..])
  }

  /** Text reads back exactly as written if and only if it holds no carriage return. */
  lemma {:induction false} ReadTextVerbatim(s: string)
    ensures ReadText(s) == s <==> '\r' !in s
  {
    if '\r' !in s && |s| > 0 {
      assert '\r' !in s[1..] by {
        assert forall c :: c in s[1..] ==> c in s;
      }
      ReadTextVerbatim(s[1..]);
      assert s == [s[0]] + s[1..];
    }
  }

  /** Text before the first carriage return reads back unchanged. */
  lemma {:induction false} ReadTextPlainPrefix(a: string, b: string)
    requires '\r' !in a
    ensures ReadText(a + b) == a + ReadText(b)
  {
    if |a| > 0 {
      var s := a + b;
      assert s[0] == a[0] && a[0] in a;
      assert s[1..] == a[1..] + b;
      assert '\r' !in a[1..] by {
        assert forall c :: c in a[1..] ==> c in a;
      }
      calc {
        ReadText(s);
        [a[0]] + ReadText(a[1..] + b);
        { ReadTextPlainPrefix(a[1..], b); }
        [a[0]] + (a[1..] + ReadText(b));
        { assert a == [a[0]] + a[1..]; }
        a + ReadText(b);
      }
    } else {
      assert a + b == b;
    }
  }

  /** A `\r\n` pair reads back as a single `\n`; the text around it is kept in order. */
  lemma ReadTextCrLf(a: string, b: string)
    requires '\r' !in a
    ensures ReadText(a + "\r\n" + b) == a + "\n" + ReadText(b)
  {
    var t := "\r\n" + b;
    assert a + "\r\n" + b == a + t;
    ReadTextPlainPrefix(a, t);
    assert t[0] == '\r' && t[1] == '\n' && t[2..] == b;
  }

  /** A leading `\r` not followed by `\n` reads back as `\n`. */
  lemma ReadTextLeadingCr(b: string)
    requires |b| == 0 || b[0] != '\n'
    ensures ReadText("\r" + b) == "\n" + ReadText(b)
  {
    var t := "\r" + b;
    assert t[0] == '\r' && t[1..] == b;
    assert !(|t| >= 2 && t[1] == '\n');
  }

  /** A `\r` not followed by `\n` reads back as `\n`; the text around it is kept in order. */
  lemma ReadTextLoneCr(a: string, b: string)
    requires '\r' !in a
    requires |b| == 0 || b[0] != '\n'
    ensures ReadText(a + "\r" + b) == a + "\n" + ReadText(b)
  {
    var t := "\r" + b;
    assert a + "\r" + b == a + t;
    ReadTextPlainPrefix(a, t);
    ReadTextLeadingCr(b);
  }

  /** Reading back what was read changes nothing more. */
  lemma ReadTextIdempotent(s: string)
    ensures ReadText(ReadText(s)) == ReadText(s)
  {
    ReadTextVerbatim(ReadText(s));
  }
}
