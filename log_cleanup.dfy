/** The hourly clean-up of the log archives (`server/src/logging/cleanup.rs`):
    compressing day-old `.log` files, deleting files past the retention
    period, and deleting the oldest files while the directory is over its
    size limit. The archives directory is a `Directory` object whose listing
    the three steps change; whether the filesystem lets a file be removed or
    compressed is a parameter of it. */
module LogCleanup {
  import opened Wrappers
  import Sorting
  import LoggingConfig

  /** Files modified this many seconds ago or earlier are compressed. */
  const CompressAfterSeconds: int := 86400

  const SecondsPerDay: int := 86400

  /** The extension `compress_file` gives its output. */
  const ArchiveExtension: string := "log.gz"

  /** One entry of the archives directory with its metadata: the name, the
      modification time in seconds, the length in bytes, and whether it is
      a regular file. */
  datatype Entry = Entry(name: string, modified: int, size: nat, isFile: bool)

  /** What the filesystem does when asked: whether removing the named file
      succeeds, whether compressing it succeeds, and how long the compressed
      copy is. */
  datatype FileSystem = FileSystem(
    removes: string -> bool,
    compresses: string -> bool,
    compressedSize: string -> nat)

  /** The sort key of `enforce_disk_limit`. */
  function Modified(e: Entry): int {
    e.modified
  }

  // ---------------------------------------------------------------------------
  // File names
  // ---------------------------------------------------------------------------

  /** The index of the last '.' of a name, if it has one. */
  function LastDot(name: string): (r: Option<nat>)
    ensures r.Some? ==> r.value < |name| && name[r.value] == '.'
    ensures r.Some? ==> forall j :: r.value < j < |name| ==> name[j] != '.'
    ensures r.None? ==> forall j :: 0 <= j < |name| ==> name[j] != '.'
    decreases |name|
  {
    if name == [] then None
    else if name[|name| - 1] == '.' then Some(|name| - 1)
    else LastDot(name[..|name| - 1])
  }

  /** `Path::extension`: what follows the last '.', unless there is no dot
      or the only place for it is the first character. */
  function Extension(name: string): Option<string> {
    match LastDot(name)
    case None => None
    case Some(i) => if i == 0 then None else Some(name[i + 1..])
  }

  /** `Path::file_stem`: the name without its extension. */
  function Stem(name: string): string {
    match LastDot(name)
    case None => name
    case Some(i) => if i == 0 then name else name[..i]
  }

  /** `Path::with_extension`: the stem, then the new extension after a dot
      (no dot for an empty extension). */
  function WithExtension(name: string, ext: string): string {
    if ext == [] then Stem(name) else Stem(name) + "." + ext
  }

  /** The last '.' is at `i` when there is a dot there and none after it. */
  lemma LastDotAt(name: string, i: nat)
    requires i < |name| && name[i] == '.'
    requires forall j :: i < j < |name| ==> name[j] != '.'
    ensures LastDot(name) == Some(i)
  {
  }

  /** The archive of a `.log` file is its name with ".gz" appended, and its
      own extension is "gz", so a later cycle skips it. */
  lemma ArchiveName(name: string)
    ensures Extension(name) == Some("log") ==> WithExtension(name, ArchiveExtension) == name + ".gz"
    ensures Extension(WithExtension(name, ArchiveExtension)) == Some("gz")
  {
    var a := WithExtension(name, ArchiveExtension);
    assert a == Stem(name) + ".log.gz";
    LastDotAt(a, |Stem(name)| + 4);
    assert a[|Stem(name)| + 5..] == "gz";
    if Extension(name) == Some("log") {
      var i := LastDot(name).value;
      assert name == name[..i] + "." + name[i + 1..];
    }
  }

  /** An archive name is never the name of a `.log` file. */
  lemma ArchiveIsNotLog(e: Entry, f: Entry)
    requires Extension(f.name) == Some("log")
    ensures WithExtension(e.name, ArchiveExtension) != f.name
  {
    ArchiveName(e.name);
  }

  // ---------------------------------------------------------------------------
  // Listings
  // ---------------------------------------------------------------------------

  /** The names of a listing. */
  function NamesOf(entries: seq<Entry>): set<string> {
    if entries == [] then {} else NamesOf(entries[..|entries| - 1]) + {entries[|entries| - 1].name}
  }

  /** The listing once the entry named `name` is gone. */
  function Without(entries: seq<Entry>, name: string): seq<Entry> {
    if entries == [] then []
    else Without(entries[..|entries| - 1], name) + (if entries[|entries| - 1].name == name then [] else [entries[|entries| - 1]])
  }

  /** The entries left are those of other names. */
  lemma {:induction false} WithoutSpec(entries: seq<Entry>, name: string, e: Entry)
    ensures e in Without(entries, name) <==> e in entries && e.name != name
    decreases |entries|
  {
    if entries != [] {
      var p := entries[..|entries| - 1];
      assert entries == p + [entries[|entries| - 1]];
      WithoutSpec(p, name, e);
    }
  }

  lemma WithoutAllNext(entries: seq<Entry>, removed: seq<Entry>, x: Entry)
    ensures WithoutAll(entries, removed + [x]) == Without(WithoutAll(entries, removed), x.name)
  {
    assert (removed + [x])[..|removed|] == removed;
  }

  /** The listing once `e` is written: it replaces any entry of its name. */
  function Created(entries: seq<Entry>, e: Entry): seq<Entry> {
    Without(entries, e.name) + [e]
  }

  /** The listing once the entries named in `removed` are gone, in turn. */
  function WithoutAll(entries: seq<Entry>, removed: seq<Entry>): seq<Entry> {
    if removed == [] then entries
    else Without(WithoutAll(entries, removed[..|removed| - 1]), removed[|removed| - 1].name)
  }

  /** An entry survives the removals exactly when none of them names it. */
  lemma {:induction false} WithoutAllSpec(entries: seq<Entry>, removed: seq<Entry>, e: Entry)
    ensures e in WithoutAll(entries, removed) <==> e in entries && e.name !in NamesOf(removed)
    decreases |removed|
  {
    if removed != [] {
      var p := removed[..|removed| - 1];
      WithoutAllSpec(entries, p, e);
      WithoutSpec(WithoutAll(entries, p), removed[|removed| - 1].name, e);
    }
  }

  /** The total length of a listing. */
  function TotalSize(entries: seq<Entry>): nat {
    if entries == [] then 0 else entries[0].size + TotalSize(entries[1..])
  }

  lemma {:induction false} TotalSizeAppend(a: seq<Entry>, b: seq<Entry>)
    ensures TotalSize(a + b) == TotalSize(a) + TotalSize(b)
    decreases |a|
  {
    if a == [] {
      assert a + b == b;
    } else {
      assert (a + b)[1..] == a[1..] + b;
      TotalSizeAppend(a[1..], b);
    }
  }

  lemma TotalSizeSnoc(a: seq<Entry>, e: Entry)
    ensures TotalSize(a + [e]) == TotalSize(a) + e.size
  {
    TotalSizeAppend(a, [e]);
    assert [e][1..] == [];
  }

  lemma {:induction false} InsertTotal(x: Entry, s: seq<Entry>)
    ensures TotalSize(Sorting.Insert(x, s, Modified)) == x.size + TotalSize(s)
    decreases |s|
  {
    if s != [] && Modified(x) >= Modified(s[0]) {
      InsertTotal(x, s[1..]);
    }
  }

  /** Sorting a listing keeps its total length. */
  lemma {:induction false} SortedTotal(s: seq<Entry>)
    ensures TotalSize(Sorting.SortByKey(s, Modified)) == TotalSize(s)
    decreases |s|
  {
    if s != [] {
      var p := s[..|s| - 1];
      SortedTotal(p);
      InsertTotal(s[|s| - 1], Sorting.SortByKey(p, Modified));
      assert s == p + [s[|s| - 1]];
      TotalSizeAppend(p, [s[|s| - 1]]);
    }
  }

  /** The regular files of a listing, in its order. */
  function FilesOf(entries: seq<Entry>): seq<Entry> {
    if entries == [] then []
    else FilesOf(entries[..|entries| - 1]) + (if entries[|entries| - 1].isFile then [entries[|entries| - 1]] else [])
  }

  /** The archives directory: its listing, and the filesystem it lives on. */
  class Directory {
    var entries: seq<Entry>
    const fs: FileSystem

    constructor (entries: seq<Entry>, fs: FileSystem)
      ensures this.entries == entries && this.fs == fs
    {
      this.entries := entries;
      this.fs := fs;
    }

    /** `fs::remove_file`: the entry is gone when the removal succeeds. */
    method Remove(name: string) returns (ok: bool)
      modifies this
      ensures ok == fs.removes(name)
      ensures entries == if ok then Without(old(entries), name) else old(entries)
    {
      ok := fs.removes(name);
      if ok {
        entries := Without(entries, name);
      }
    }

    /** `compress_file`: on success the archive, named with the extension
        "log.gz" and modified `now`, is written and its path returned. */
    method CompressFile(name: string, now: int) returns (archive: Option<string>)
      modifies this
      ensures archive == if fs.compresses(name) then Some(WithExtension(name, ArchiveExtension)) else None
      ensures entries == if fs.compresses(name)
        then Created(old(entries), Entry(WithExtension(name, ArchiveExtension), now, fs.compressedSize(name), true))
        else old(entries)
    {
      if fs.compresses(name) {
        var path := WithExtension(name, ArchiveExtension);
        entries := Created(entries, Entry(path, now, fs.compressedSize(name), true));
        archive := Some(path);
      } else {
        archive := None;
      }
    }
  }

  // ---------------------------------------------------------------------------
  // Step 1: compressing old logs
  // ---------------------------------------------------------------------------

  /** The entries `compress_old_logs` compresses: not already ".gz", with
      the extension ".log", and modified more than a day before `now`. */
  predicate Compressible(e: Entry, now: int) {
    Extension(e.name) != Some("gz") && Extension(e.name) == Some("log") && e.modified < now - CompressAfterSeconds
  }

  /** The archive written for `e`. */
  function Archive(e: Entry, now: int, fs: FileSystem): Entry {
    Entry(WithExtension(e.name, ArchiveExtension), now, fs.compressedSize(e.name), true)
  }

  /** The listing after `compress_old_logs` has handled `e`: a compressed
      entry gets its archive, and only then is the original removed. */
  function CompressStep(entries: seq<Entry>, e: Entry, now: int, fs: FileSystem): seq<Entry> {
    if Compressible(e, now) && fs.compresses(e.name) then
      var archived := Created(entries, Archive(e, now, fs));
      if fs.removes(e.name) then Without(archived, e.name) else archived
    else entries
  }

  /** The listing after `compress_old_logs` has handled the entries `todo`
      in their order. */
  function Compressed(entries: seq<Entry>, todo: seq<Entry>, now: int, fs: FileSystem): seq<Entry> {
    if todo == [] then entries
    else CompressStep(Compressed(entries, todo[..|todo| - 1], now, fs), todo[|todo| - 1], now, fs)
  }

  /** The names of the archives written for `todo`. */
  function ArchivesOf(todo: seq<Entry>, now: int, fs: FileSystem): set<string> {
    if todo == [] then {}
    else
      var e := todo[|todo| - 1];
      ArchivesOf(todo[..|todo| - 1], now, fs) +
        (if Compressible(e, now) && fs.compresses(e.name) then {WithExtension(e.name, ArchiveExtension)} else {})
  }

  /** The names of the originals removed after compression. */
  function OriginalsRemoved(todo: seq<Entry>, now: int, fs: FileSystem): (r: set<string>)
    ensures forall n :: n in r ==> exists e :: e in todo && e.name == n && Extension(n) == Some("log")
  {
    if todo == [] then {}
    else
      var e := todo[|todo| - 1];
      var p := todo[..|todo| - 1];
      assert todo == p + [e];
      OriginalsRemoved(p, now, fs) +
        (if Compressible(e, now) && fs.compresses(e.name) && fs.removes(e.name) then {e.name} else {})
  }

  /** `compress_old_logs`: every `.log` file older than a day is compressed,
      and its original removed once that has succeeded. */
  method CompressOldLogs(dir: Directory, now: int)
    modifies dir
    ensures dir.entries == Compressed(old(dir.entries), old(dir.entries), now, dir.fs)
  {
    var listing := dir.entries;
    var cutoff := now - CompressAfterSeconds;
    for i := 0 to |listing|
      invariant dir.entries == Compressed(listing, listing[..i], now, dir.fs)
    {
      var e := listing[i];
      assert listing[..i + 1][..i] == listing[..i];
      if Extension(e.name) == Some("gz") {
        continue;
      }
      if Extension(e.name) != Some("log") {
        continue;
      }
      if e.modified < cutoff {
        var archive := dir.CompressFile(e.name, now);
        if archive.Some? {
          var _ := dir.Remove(e.name);
        }
      }
    }
    assert listing[..|listing|] == listing;
  }

  /** After compression, a name is listed exactly when it was listed before
      or is a new archive, and is not an original that was compressed and
      then removed: nothing else disappears, and an original goes only
      after its archive was written. */
  lemma {:induction false} CompressedNames(entries: seq<Entry>, todo: seq<Entry>, now: int, fs: FileSystem, n: string)
    ensures n in NamesOf(Compressed(entries, todo, now, fs)) <==>
      (n in NamesOf(entries) || n in ArchivesOf(todo, now, fs)) && n !in OriginalsRemoved(todo, now, fs)
    decreases |todo|
  {
    if todo != [] {
      var p := todo[..|todo| - 1];
      var e := todo[|todo| - 1];
      var before := Compressed(entries, p, now, fs);
      CompressedNames(entries, p, now, fs, n);
      if Compressible(e, now) && fs.compresses(e.name) {
        var a := Archive(e, now, fs);
        var archived := Created(before, a);
        CreatedNames(before, a, n);
        if fs.removes(e.name) {
          WithoutNames(archived, e.name, n);
        }
        if n in OriginalsRemoved(p, now, fs) {
          var f :| f in p && f.name == n && Extension(n) == Some("log");
          ArchiveIsNotLog(e, f);
        }
      }
    }
  }

  lemma WithoutNames(entries: seq<Entry>, name: string, n: string)
    ensures n in NamesOf(Without(entries, name)) <==> n in NamesOf(entries) && n != name
  {
    NamesOfSpec(entries, n);
    NamesOfSpec(Without(entries, name), n);
    if n in NamesOf(entries) && n != name {
      var e :| e in entries && e.name == n;
      WithoutSpec(entries, name, e);
    }
    if n in NamesOf(Without(entries, name)) {
      var e :| e in Without(entries, name) && e.name == n;
      WithoutSpec(entries, name, e);
    }
  }

  lemma CreatedNames(entries: seq<Entry>, e: Entry, n: string)
    ensures n in NamesOf(Created(entries, e)) <==> n in NamesOf(entries) || n == e.name
  {
    var w := Without(entries, e.name);
    WithoutNames(entries, e.name, n);
    NamesOfSpec(w + [e], n);
    NamesOfSpec(w, n);
  }

  /** A name is listed exactly when some entry has it. */
  lemma {:induction false} NamesOfSpec(entries: seq<Entry>, n: string)
    ensures n in NamesOf(entries) <==> exists e :: e in entries && e.name == n
    decreases |entries|
  {
    if entries != [] {
      var p := entries[..|entries| - 1];
      assert entries == p + [entries[|entries| - 1]];
      NamesOfSpec(p, n);
    }
  }

  // ---------------------------------------------------------------------------
  // Step 2: deleting logs past the retention period
  // ---------------------------------------------------------------------------

  /** The modification time before which a file is past retention. */
  function RetentionCutoff(now: int, retentionDays: nat): int {
    now - retentionDays * SecondsPerDay
  }

  /** The entries of `todo` that `delete_old_logs` removes: modified before
      the cutoff, and removable. */
  function Expired(todo: seq<Entry>, cutoff: int, fs: FileSystem): seq<Entry> {
    if todo == [] then []
    else
      var e := todo[|todo| - 1];
      Expired(todo[..|todo| - 1], cutoff, fs) + (if e.modified < cutoff && fs.removes(e.name) then [e] else [])
  }

  /** The entries removed are exactly those past the cutoff that could be
      removed. */
  lemma {:induction false} ExpiredSpec(todo: seq<Entry>, cutoff: int, fs: FileSystem, e: Entry)
    ensures e in Expired(todo, cutoff, fs) <==> e in todo && e.modified < cutoff && fs.removes(e.name)
    decreases |todo|
  {
    if todo != [] {
      var p := todo[..|todo| - 1];
      assert todo == p + [todo[|todo| - 1]];
      ExpiredSpec(p, cutoff, fs, e);
    }
  }

  lemma ExpiredNext(todo: seq<Entry>, i: nat, cutoff: int, fs: FileSystem)
    requires i < |todo|
    ensures Expired(todo[..i + 1], cutoff, fs) ==
      Expired(todo[..i], cutoff, fs) + (if todo[i].modified < cutoff && fs.removes(todo[i].name) then [todo[i]] else [])
  {
    assert todo[..i + 1][..i] == todo[..i];
  }

  /** `delete_old_logs`: removes every entry modified before `retention_days`
      days before `now`, and counts the files and bytes it freed. */
  method DeleteOldLogs(dir: Directory, retentionDays: nat, now: int) returns (deletedCount: nat, deletedBytes: nat)
    modifies dir
    ensures var deleted := Expired(old(dir.entries), RetentionCutoff(now, retentionDays), dir.fs);
      dir.entries == WithoutAll(old(dir.entries), deleted) &&
      deletedCount == |deleted| && deletedBytes == TotalSize(deleted)
  {
    var listing := dir.entries;
    var cutoff := RetentionCutoff(now, retentionDays);
    deletedCount, deletedBytes := 0, 0;
    for i := 0 to |listing|
      invariant dir.entries == WithoutAll(listing, Expired(listing[..i], cutoff, dir.fs))
      invariant deletedCount == |Expired(listing[..i], cutoff, dir.fs)|
      invariant deletedBytes == TotalSize(Expired(listing[..i], cutoff, dir.fs))
    {
      var e := listing[i];
      ghost var done := Expired(listing[..i], cutoff, dir.fs);
      ExpiredNext(listing, i, cutoff, dir.fs);
      if e.modified < cutoff {
        var removed := dir.Remove(e.name);
        if removed {
          WithoutAllNext(listing, done, e);
          TotalSizeSnoc(done, e);
          deletedCount := deletedCount + 1;
          deletedBytes := deletedBytes + e.size;
        } else {
          assert done + [] == done;
        }
      } else {
        assert done + [] == done;
      }
    }
    assert listing[..|listing|] == listing;
  }

  /** On a listing with distinct names, what survives the deletion is
      exactly the entries that are not past retention or that could not be
      removed. */
  lemma DeletionSpec(entries: seq<Entry>, cutoff: int, fs: FileSystem, e: Entry)
    requires forall i, j :: 0 <= i < j < |entries| ==> entries[i].name != entries[j].name
    ensures e in WithoutAll(entries, Expired(entries, cutoff, fs)) <==>
      e in entries && !(e.modified < cutoff && fs.removes(e.name))
  {
    var deleted := Expired(entries, cutoff, fs);
    WithoutAllSpec(entries, deleted, e);
    NamesOfSpec(deleted, e.name);
    ExpiredSpec(entries, cutoff, fs, e);
    if e in entries && e.name in NamesOf(deleted) {
      var f :| f in deleted && f.name == e.name;
      ExpiredSpec(entries, cutoff, fs, f);
      var i, j :| 0 <= i < |entries| && entries[i] == e && 0 <= j < |entries| && entries[j] == f;
      assert i == j;
    }
  }

  /** A file sixty days old is past a thirty-day retention. */
  lemma SixtyDaysExpire(now: int)
    ensures now - 60 * SecondsPerDay < RetentionCutoff(now, 30)
  {
  }

  // ---------------------------------------------------------------------------
  // Step 3: enforcing the size limit
  // ---------------------------------------------------------------------------

  /** The directory's limit in bytes. */
  function Limit(maxSizeMb: nat): nat {
    maxSizeMb * 1024 * 1024
  }

  /** The deletions of the loop of `enforce_disk_limit` and the total it
      ends with. */
  datatype Eviction = Eviction(removed: seq<Entry>, total: int)

  /** The loop of `enforce_disk_limit` over `files` from the running
      `total`: it stops once the total is within the limit, and a file's
      length comes off only when its removal succeeds. */
  function Evict(files: seq<Entry>, total: int, limit: int, fs: FileSystem): Eviction
    decreases |files|
  {
    if files == [] || total <= limit then Eviction([], total)
    else if fs.removes(files[0].name) then
      var rest := Evict(files[1..], total - files[0].size, limit, fs);
      Eviction([files[0]] + rest.removed, rest.total)
    else Evict(files[1..], total, limit, fs)
  }

  /** The regular files of a listing, oldest first; files modified at the
      same time keep their order, as `sort_by_key` is stable. */
  function Oldest(entries: seq<Entry>): seq<Entry> {
    Sorting.SortByKey(FilesOf(entries), Modified)
  }

  /** The first loop of `enforce_disk_limit`: the regular files of the
      listing, in its order, and their total length. */
  method RegularFiles(listing: seq<Entry>) returns (files: seq<Entry>, total: nat)
    ensures files == FilesOf(listing) && total == TotalSize(files)
  {
    files := [];
    total := 0;
    for i := 0 to |listing|
      invariant files == FilesOf(listing[..i]) && total == TotalSize(files)
    {
      assert listing[..i + 1][..i] == listing[..i];
      if listing[i].isFile {
        TotalSizeSnoc(files, listing[i]);
        total := total + listing[i].size;
        files := files + [listing[i]];
      } else {
        assert files + [] == files;
      }
    }
    assert listing[..|listing|] == listing;
  }

  /** `enforce_disk_limit`: when the regular files exceed `max_size_mb`
      megabytes, removes the oldest ones until they fit. `total` is the
      total it ends with. */
  method EnforceDiskLimit(dir: Directory, maxSizeMb: nat) returns (total: nat, deletedCount: nat)
    modifies dir
    ensures var ev := Evict(Oldest(old(dir.entries)), TotalSize(FilesOf(old(dir.entries))), Limit(maxSizeMb), dir.fs);
      dir.entries == WithoutAll(old(dir.entries), ev.removed) && total == ev.total && deletedCount == |ev.removed|
  {
    var listing := dir.entries;
    var files;
    files, total := RegularFiles(listing);
    var limit := Limit(maxSizeMb);
    deletedCount := 0;
    if total <= limit {
      return;
    }
    SortedTotal(files);
    files := Sorting.SortByKey(files, Modified);
    total, deletedCount := EvictOldest(dir, files, total, limit);
  }

  /** `removed`, then what the eviction `ev` removes. */
  function After(removed: seq<Entry>, ev: Eviction): Eviction {
    Eviction(removed + ev.removed, ev.total)
  }

  /** One turn of the loop of `enforce_disk_limit`, from file `i`. */
  lemma EvictStep(files: seq<Entry>, i: nat, total: int, limit: int, fs: FileSystem)
    requires i < |files| && total > limit
    ensures Evict(files[i..], total, limit, fs) ==
      if fs.removes(files[i].name) then After([files[i]], Evict(files[i + 1..], total - files[i].size, limit, fs))
      else Evict(files[i + 1..], total, limit, fs)
  {
    assert files[i..][1..] == files[i + 1..];
  }

  lemma TotalSizeFrom(files: seq<Entry>, i: nat)
    requires i < |files|
    ensures TotalSize(files[i..]) == files[i].size + TotalSize(files[i + 1..])
  {
    assert files[i..][1..] == files[i + 1..];
  }

  lemma AfterAfter(a: seq<Entry>, b: seq<Entry>, ev: Eviction)
    ensures After(a, After(b, ev)) == After(a + b, ev)
  {
    assert a + (b + ev.removed) == (a + b) + ev.removed;
  }

  /** The loop's invariant carried past file `i`. */
  lemma EvictAdvance(files: seq<Entry>, i: nat, total: int, t: int, limit: int, fs: FileSystem, removed: seq<Entry>)
    requires i < |files| && t > limit
    requires Evict(files, total, limit, fs) == After(removed, Evict(files[i..], t, limit, fs))
    ensures fs.removes(files[i].name) ==>
      Evict(files, total, limit, fs) == After(removed + [files[i]], Evict(files[i + 1..], t - files[i].size, limit, fs))
    ensures !fs.removes(files[i].name) ==>
      Evict(files, total, limit, fs) == After(removed, Evict(files[i + 1..], t, limit, fs))
  {
    EvictStep(files, i, t, limit, fs);
    if fs.removes(files[i].name) {
      AfterAfter(removed, [files[i]], Evict(files[i + 1..], t - files[i].size, limit, fs));
    }
  }

  /** The second loop of `enforce_disk_limit`: over the files oldest first,
      until the total is within the limit, removing each and taking its
      length off the total when the removal succeeds. The total never
      drops below zero. */
  method EvictOldest(dir: Directory, files: seq<Entry>, total: nat, limit: nat) returns (newTotal: nat, deletedCount: nat)
    modifies dir
    requires total >= TotalSize(files)
    ensures var ev := Evict(files, total, limit, dir.fs);
      dir.entries == WithoutAll(old(dir.entries), ev.removed) && newTotal == ev.total && deletedCount == |ev.removed|
  {
    ghost var listing := dir.entries;
    ghost var removed: seq<Entry> := [];
    newTotal, deletedCount := total, 0;
    var i := 0;
    assert files[0..] == files;
    assert Evict(files, total, limit, dir.fs) == After([], Evict(files, total, limit, dir.fs));
    while i < |files|
      invariant i <= |files| && newTotal >= TotalSize(files[i..])
      invariant dir.entries == WithoutAll(listing, removed) && deletedCount == |removed|
      invariant Evict(files, total, limit, dir.fs) == After(removed, Evict(files[i..], newTotal, limit, dir.fs))
      decreases |files| - i
    {
      if newTotal <= limit {
        break;
      }
      var f := files[i];
      EvictAdvance(files, i, total, newTotal, limit, dir.fs, removed);
      TotalSizeFrom(files, i);
      var ok := dir.Remove(f.name);
      if ok {
        WithoutAllNext(listing, removed, f);
        newTotal := newTotal - f.size;
        deletedCount := deletedCount + 1;
        removed := removed + [f];
      }
      i := i + 1;
    }
    assert Evict(files[i..], newTotal, limit, dir.fs) == Eviction([], newTotal);
    assert removed + [] == removed;
  }

  /** With every removal succeeding, the loop ends within the limit as long
      as removing all the files would: in particular from the files' own
      total. */
  lemma {:induction false} EvictWithinLimit(files: seq<Entry>, total: int, limit: int, fs: FileSystem)
    requires forall f :: f in files ==> fs.removes(f.name)
    requires total - TotalSize(files) <= limit
    ensures Evict(files, total, limit, fs).total <= limit
    decreases |files|
  {
    if files != [] && total > limit {
      assert files[0] in files;
      EvictWithinLimit(files[1..], total - files[0].size, limit, fs);
    }
  }

  /** What the loop removes comes off the total, is removable, and was
      visited while the total exceeded the limit: the last removal was
      needed. */
  lemma {:induction false} EvictAccounting(files: seq<Entry>, total: int, limit: int, fs: FileSystem)
    ensures Evict(files, total, limit, fs).total == total - TotalSize(Evict(files, total, limit, fs).removed)
    ensures forall f :: f in Evict(files, total, limit, fs).removed ==> f in files && fs.removes(f.name)
    ensures var ev := Evict(files, total, limit, fs);
      ev.removed != [] ==> ev.total + ev.removed[|ev.removed| - 1].size > limit
    decreases |files|
  {
    if files != [] && total > limit {
      var rest := if fs.removes(files[0].name) then total - files[0].size else total;
      EvictAccounting(files[1..], rest, limit, fs);
      var ev := Evict(files, total, limit, fs);
      var tail := Evict(files[1..], rest, limit, fs);
      if fs.removes(files[0].name) {
        assert ([files[0]] + tail.removed)[1..] == tail.removed;
        if tail.removed == [] {
          assert ev.removed == [files[0]];
        } else {
          assert ev.removed[|ev.removed| - 1] == tail.removed[|tail.removed| - 1];
        }
      }
    }
  }

  /** The removable files of a listing. */
  function Removable(files: seq<Entry>, fs: FileSystem): seq<Entry> {
    if files == [] then []
    else (if fs.removes(files[0].name) then [files[0]] else []) + Removable(files[1..], fs)
  }

  /** The loop visits a prefix of the files, the `k` oldest, and removes
      every removable one among them; when it stopped before the end, the
      total was within the limit. */
  lemma {:induction false} EvictPrefix(files: seq<Entry>, total: int, limit: int, fs: FileSystem) returns (k: nat)
    ensures k <= |files| && Evict(files, total, limit, fs).removed == Removable(files[..k], fs)
    ensures k < |files| ==> Evict(files, total, limit, fs).total <= limit
    decreases |files|
  {
    if files == [] || total <= limit {
      k := 0;
      assert files[..0] == [];
    } else {
      var rest := if fs.removes(files[0].name) then total - files[0].size else total;
      var j := EvictPrefix(files[1..], rest, limit, fs);
      k := j + 1;
      assert files[..k][1..] == files[1..][..j];
    }
  }

  /** Nothing is removed when the files are already within the limit. */
  lemma WithinLimitKeepsAll(entries: seq<Entry>, maxSizeMb: nat, fs: FileSystem)
    requires TotalSize(FilesOf(entries)) <= Limit(maxSizeMb)
    ensures Evict(Oldest(entries), TotalSize(FilesOf(entries)), Limit(maxSizeMb), fs) ==
      Eviction([], TotalSize(FilesOf(entries)))
  {
  }

  /** With every removal succeeding, `enforce_disk_limit` ends within the
      limit. */
  lemma DiskLimitHolds(entries: seq<Entry>, maxSizeMb: nat, fs: FileSystem)
    requires forall n :: fs.removes(n)
    ensures Evict(Oldest(entries), TotalSize(FilesOf(entries)), Limit(maxSizeMb), fs).total <= Limit(maxSizeMb)
  {
    SortedTotal(FilesOf(entries));
    EvictWithinLimit(Oldest(entries), TotalSize(FilesOf(entries)), Limit(maxSizeMb), fs);
  }

  // ---------------------------------------------------------------------------
  // The cycle
  // ---------------------------------------------------------------------------

  /** The listing after one cycle: compression when enabled, then the
      retention, then the size limit, each on what the previous step left. */
  function Cleaned(entries: seq<Entry>, config: LoggingConfig.LogConfig, now: int, fs: FileSystem): seq<Entry> {
    var compressed := if config.compressionEnabled then Compressed(entries, entries, now, fs) else entries;
    var retained := WithoutAll(compressed, Expired(compressed, RetentionCutoff(now, config.retentionDays), fs));
    var ev := Evict(Oldest(retained), TotalSize(FilesOf(retained)), Limit(config.maxTotalSizeMb), fs);
    WithoutAll(retained, ev.removed)
  }

  /** `perform_cleanup`: the three steps in order on the archives directory. */
  method PerformCleanup(dir: Directory, config: LoggingConfig.LogConfig, now: int)
    modifies dir
    ensures dir.entries == Cleaned(old(dir.entries), config, now, dir.fs)
  {
    if config.compressionEnabled {
      CompressOldLogs(dir, now);
    }
    var _, _ := DeleteOldLogs(dir, config.retentionDays, now);
    var _, _ := EnforceDiskLimit(dir, config.maxTotalSizeMb);
  }
}
