/** The cache of parser/src/sourcemanager.cpp and the database rows it stands for. */
module SourceManager {
  import opened Wrappers

  // A path is the list of its components; the root directory is one component.
  type Path = seq<string>

  type FileId = nat

  type Hash = nat

  /** A content is known by its hash; its text may be in memory or not. */
  datatype Content = Content(hash: Hash, text: Option<string>)

  datatype File = File(id: FileId, path: Path, directory: bool, content: Option<Content>)

  datatype FileRow = FileRow(path: Path, directory: bool, content: Option<Hash>)

  function RowOf(f: File): FileRow {
    FileRow(f.path, f.directory, if f.content.None? then None else Some(f.content.value.hash))
  }

  /** What a call of getFile sees on disk: the canonical paths of what exists, the
      directories, and the text of the plain text files that can be opened. */
  datatype Disk = Disk(canonical: map<Path, Path>, directories: set<Path>, texts: map<Path, string>)

  // The ancestors of a canonical path exist, and their paths are canonical.
  ghost predicate Consistent(d: Disk) {
    && (forall p <- d.canonical :: |d.canonical[p]| > 1 ==> IsCanonical(d, Parent(d.canonical[p])))
    && (forall p <- d.texts :: IsCanonical(d, p)) && forall p <- d.directories :: IsCanonical(d, p)
  }

  ghost predicate IsCanonical(d: Disk, p: Path) {
    p in d.canonical && d.canonical[p] == p
  }

  function Parent(p: Path): Path
    requires p != []
  {
    p[..|p| - 1]
  }

  function CanonicalPath(d: Disk, p: Path): Path {
    if p in d.canonical then d.canonical[p] else p
  }

  // The canonical path and those of its ancestors.
  ghost function Chain(d: Disk, p: Path): seq<Path>
    requires Consistent(d)
    decreases if p in d.canonical then 0 else 1, |CanonicalPath(d, p)|
  {
    var c := CanonicalPath(d, p);
    [c] + (if |c| <= 1 then [] else Chain(d, Parent(c)))
  }

  // std::replace of NUL characters by spaces.
  function WithoutNul(s: string): (r: string)
    ensures |r| == |s|
  {
    seq(|s|, i requires 0 <= i < |s| => if s[i] == '\0' then ' ' else s[i])
  }

  // ----- coherence -----

  /** fnvHash and sha1Hash. */
  datatype Hashes = Hashes(ofPath: Path -> FileId, ofText: string -> Hash)

  // Different paths of a set have different ids.
  ghost predicate OneToOne(h: Hashes, paths: set<Path>) {
    forall p, q :: p in paths && q in paths && h.ofPath(p) == h.ofPath(q) ==> p == q
  }

  // Cached files are found under their paths, and have the ids of their paths.
  ghost predicate Keyed(files: map<Path, File>, h: Hashes) {
    forall p <- files :: files[p].path == p && files[p].id == h.ofPath(p)
  }

  ghost predicate RowsKeyed(rows: map<FileId, FileRow>, h: Hashes) {
    forall i <- rows :: i == h.ofPath(rows[i].path)
  }

  // Every file row is cached, as it is in the database.
  ghost predicate RowsCached(files: map<Path, File>, rows: map<FileId, FileRow>) {
    forall i <- rows :: rows[i].path in files && RowOf(files[rows[i].path]) == rows[i]
  }

  // A file that is not in the database has its content in memory.
  ghost predicate Loaded(files: map<Path, File>, rows: map<FileId, FileRow>, h: Hashes) {
    forall p <- files :: files[p].id in rows || Ready(files[p].content, h)
  }

  predicate Ready(c: Option<Content>, h: Hashes) {
    c.Some? ==> c.value.text.Some? && c.value.hash == h.ofText(c.value.text.value)
  }

  // No reference dangles.
  ghost predicate NoDangling(rows: map<FileId, FileRow>, contents: map<Hash, string>) {
    forall i <- rows :: rows[i].content.Some? ==> rows[i].content.value in contents
  }

  // Every content is referenced.
  ghost predicate NoGarbage(rows: map<FileId, FileRow>, contents: map<Hash, string>) {
    forall c <- contents :: Referenced(rows, c)
  }

  ghost predicate Referenced(rows: map<FileId, FileRow>, c: Hash) {
    exists i :: i in rows && rows[i].content == Some(c)
  }

  ghost predicate ContentsKeyed(contents: map<Hash, string>, h: Hashes) {
    forall c <- contents :: h.ofText(contents[c]) == c
  }

  class Database {
    var files: map<FileId, FileRow>
    var contents: map<Hash, string>
    // How often persist met a row with the same id.
    ghost var alreadyPersistent: nat

    constructor ()
      ensures files == map[] && contents == map[] && alreadyPersistent == 0
    {
      files, contents, alreadyPersistent := map[], map[], 0;
    }

    // Returns false in place of the exception object_already_persistent.
    method PersistFile(f: File) returns (ok: bool)
      modifies this
      ensures ok == (f.id !in old(files)) && contents == old(contents)
      ensures files == if ok then old(files)[f.id := RowOf(f)] else old(files)
      ensures alreadyPersistent == if ok then old(alreadyPersistent) else old(alreadyPersistent) + 1
    {
      ok := f.id !in files;
      if ok {
        files := files[f.id := RowOf(f)];
      } else {
        alreadyPersistent := alreadyPersistent + 1;
      }
    }

    method PersistContent(c: Hash, text: string) returns (ok: bool)
      modifies this
      ensures ok == (c !in old(contents)) && files == old(files)
      ensures contents == if ok then old(contents)[c := text] else old(contents)
      ensures alreadyPersistent == if ok then old(alreadyPersistent) else old(alreadyPersistent) + 1
    {
      ok := c !in contents;
      if ok {
        contents := contents[c := text];
      } else {
        alreadyPersistent := alreadyPersistent + 1;
      }
    }
  }

  // The entry made for a path that is not in the cache.
  function NewFile(p: Path, d: Disk, h: Hashes): File {
    var content := if p in d.directories || p !in d.texts then None else Some(NewContent(d.texts[p], h));
    File(h.ofPath(p), p, p in d.directories, content)
  }

  function NewContent(text: string, h: Hashes): Content {
    Content(h.ofText(WithoutNul(text)), Some(WithoutNul(text)))
  }

  function Unloaded(f: File): File {
    if f.content.None? then f else f.(content := Some(f.content.value.(text := None)))
  }

  // The rows that refer to a content.
  function Referring(rows: map<FileId, FileRow>, c: Hash): set<FileId> {
    set i | i in rows && rows[i].content == Some(c)
  }

  // ----- one file more, one file less -----

  // The contents after a file has been persisted.
  function WithContent(contents: map<Hash, string>, f: File): map<Hash, string>
    requires f.content.Some? ==> f.content.value.text.Some?
  {
    if f.content.None? || f.content.value.hash in contents then contents
    else contents[f.content.value.hash := f.content.value.text.value]
  }

  lemma AddCached(files: map<Path, File>, rows: map<FileId, FileRow>, h: Hashes, f: File)
    requires Keyed(files, h) && RowsKeyed(rows, h) && RowsCached(files, rows) && Loaded(files, rows, h)
    requires f.path in files && files[f.path] == f && f.id !in rows
    ensures var files', rows' := files[f.path := Unloaded(f)], rows[f.id := RowOf(f)];
      Keyed(files', h) && RowsKeyed(rows', h) && RowsCached(files', rows') && Loaded(files', rows', h)
  {
  }

  lemma AddContent(rows: map<FileId, FileRow>, contents: map<Hash, string>, h: Hashes, f: File)
    requires NoDangling(rows, contents) && NoGarbage(rows, contents) && ContentsKeyed(contents, h)
    requires f.id !in rows && Ready(f.content, h)
    ensures var rows', contents' := rows[f.id := RowOf(f)], WithContent(contents, f);
      NoDangling(rows', contents') && NoGarbage(rows', contents') && ContentsKeyed(contents', h)
  {
    var rows', contents' := rows[f.id := RowOf(f)], WithContent(contents, f);
    forall c <- contents' ensures Referenced(rows', c) {
      if c in contents {
        var i :| i in rows && rows[i].content == Some(c);
        assert i in rows' && rows'[i].content == Some(c);
      } else {
        assert rows'[f.id].content == Some(c);
      }
    }
  }

  // The contents after a file with content c has been removed.
  function WithoutContent(rows: map<FileId, FileRow>, contents: map<Hash, string>, c: Option<Hash>): map<Hash, string> {
    if c.Some? && |Referring(rows, c.value)| == 1 then contents - {c.value} else contents
  }

  // Removal of a row; its content goes if no other row refers to it.
  lemma RemoveContent(rows: map<FileId, FileRow>, contents: map<Hash, string>, i: FileId)
    requires NoDangling(rows, contents) && NoGarbage(rows, contents) && i in rows
    ensures var rows', contents' := rows - {i}, WithoutContent(rows, contents, rows[i].content);
      NoDangling(rows', contents') && NoGarbage(rows', contents')
  {
    var rows', c := rows - {i}, rows[i].content;
    if c.Some? {
      var refs := Referring(rows, c.value);
      assert i in refs;
      if |refs| == 1 {
        OnlyOne(refs, i);
      } else {
        var j := Another(refs, i);
        assert j in rows' && rows'[j].content == c;
      }
    }
    forall e <- contents | c != Some(e) ensures Referenced(rows', e) {
      var j :| j in rows && rows[j].content == Some(e);
      assert j in rows' && rows'[j].content == Some(e);
    }
  }

  lemma OnlyOne(s: set<FileId>, i: FileId)
    requires i in s && |s| == 1
    ensures s == {i}
  {
    assert |s - {i}| == |s| - 1;
    assert s == {i} + (s - {i});
  }

  lemma Another(s: set<FileId>, i: FileId) returns (j: FileId)
    requires i in s && |s| != 1
    ensures j in s && j != i
  {
    assert |s - {i}| == |s| - 1;
    j :| j in s - {i};
  }

  // ----- loading the cache -----

  // A content is not loaded with its file.
  function FileOf(i: FileId, row: FileRow): File {
    File(i, row.path, row.directory, if row.content.None? then None else Some(Content(row.content.value, None)))
  }

  ghost predicate Reloaded(files: map<Path, File>, seen: set<FileId>, rows: map<FileId, FileRow>, h: Hashes) {
    && seen <= rows.Keys && Keyed(files, h)
    && (forall i <- seen :: rows[i].path in files && RowOf(files[rows[i].path]) == rows[i])
    && forall p <- files :: files[p].id in seen && rows[files[p].id].path == p
  }

  lemma ReloadOne(files: map<Path, File>, seen: set<FileId>, rows: map<FileId, FileRow>, h: Hashes, i: FileId)
    requires Reloaded(files, seen, rows, h) && RowsKeyed(rows, h) && i in rows && i !in seen
    ensures Reloaded(files[rows[i].path := FileOf(i, rows[i])], seen + {i}, rows, h)
  {
  }

  // ----- the source manager -----

  class Manager {
    const db: Database
    const hashes: Hashes
    var files: map<Path, File>
    var persistedFiles: set<FileId>
    var persistedContents: set<Hash>

    /** The cache agrees with the database, and the database with itself. */
    ghost predicate Coherent()
      reads this, db
    {
      && Cached()
      && NoDangling(db.files, db.contents) && NoGarbage(db.files, db.contents) && ContentsKeyed(db.contents, hashes)
    }

    ghost predicate Cached()
      reads this, db
    {
      && persistedFiles == db.files.Keys && persistedContents == db.contents.Keys
      && Keyed(files, hashes) && RowsKeyed(db.files, hashes) && RowsCached(files, db.files)
      && Loaded(files, db.files, hashes)
    }

    constructor (database: Database, h: Hashes)
      requires RowsKeyed(database.files, h)
      requires NoDangling(database.files, database.contents) && NoGarbage(database.files, database.contents)
      requires ContentsKeyed(database.contents, h)
      ensures Coherent() && db == database && hashes == h
      ensures files.Keys == (set i | i in db.files :: db.files[i].path)
    {
      db, hashes := database, h;
      files, persistedFiles, persistedContents := map[], {}, {};
      new;
      ReloadCache();
    }

    method ReloadCache()
      requires RowsKeyed(db.files, hashes)
      requires NoDangling(db.files, db.contents) && NoGarbage(db.files, db.contents) && ContentsKeyed(db.contents, hashes)
      modifies this
      ensures Coherent()
      ensures files.Keys == (set i | i in db.files :: db.files[i].path)
    {
      files, persistedFiles := map[], {};
      var todo := db.files.Keys;
      while todo != {}
        invariant todo <= db.files.Keys && persistedFiles == db.files.Keys - todo
        invariant Reloaded(files, persistedFiles, db.files, hashes)
      {
        var i :| i in todo;
        ReloadOne(files, persistedFiles, db.files, hashes, i);
        files := files[db.files[i].path := FileOf(i, db.files[i])];
        persistedFiles := persistedFiles + {i};
        todo := todo - {i};
      }
      persistedContents := db.contents.Keys;
    }

    /** A file is looked up under its canonical path; it and its ancestors are
        entered into the cache if they are not there, and nothing else changes. */
    method GetFile(path: Path, d: Disk) returns (file: File)
      requires Coherent() && Consistent(d)
      modifies this`files
      ensures Coherent() && Extended(old(files), files, Chain(d, path), d, hashes)
      ensures CanonicalPath(d, path) in files && file == files[CanonicalPath(d, path)]
      ensures forall p <- files :: p !in old(files) && |p| > 1 ==> CanonicalPath(d, Parent(p)) in files
      decreases if path in d.canonical then 0 else 1, |CanonicalPath(d, path)|, 1
    {
      var canonical := CanonicalPath(d, path);
      file := GetCreateFileEntry(canonical, path, d);
      CacheNew(files, db.files, hashes, file);
      files := files[canonical := file];
    }

    method GetCreateFileEntry(canonical: Path, ghost path: Path, d: Disk) returns (file: File)
      requires Coherent() && Consistent(d) && canonical == CanonicalPath(d, path)
      modifies this`files
      ensures Coherent() && Extended(old(files), files, Chain(d, path), d, hashes)
      ensures file == if canonical in old(files) then old(files)[canonical] else NewFile(canonical, d, hashes)
      ensures canonical in old(files) ==> files == old(files)
      ensures forall p <- files :: p !in old(files) && |p| > 1 ==> CanonicalPath(d, Parent(p)) in files
      ensures canonical !in old(files) && |canonical| > 1 ==> CanonicalPath(d, Parent(canonical)) in files
      ensures canonical !in old(files) ==>
        && file.path == canonical && file.id == hashes.ofPath(canonical) && file.directory == (canonical in d.directories)
        && (file.content.Some? <==> canonical !in d.directories && canonical in d.texts)
      ensures canonical !in old(files) && file.content.Some? ==>
        var disk, text := d.texts[canonical], file.content.value.text;
        && text.Some? && file.content.value.hash == hashes.ofText(text.value) && |text.value| == |disk|
        && forall i :: 0 <= i < |disk| ==> text.value[i] == if disk[i] == '\0' then ' ' else disk[i]
      decreases if path in d.canonical then 0 else 1, |canonical|, 0
    {
      if canonical in files {
        return files[canonical];
      }
      if |canonical| > 1 {
        var parent := GetFile(Parent(canonical), d);
      }
      file := NewFile(canonical, d, hashes);
    }

    /** The ids of all cached files get into the database, none of them twice; every
        file has its own row exactly when no two cached paths have the same id. */
    method PersistFiles()
      requires Coherent()
      modifies this, db
      ensures Coherent() && db.alreadyPersistent == old(db.alreadyPersistent)
      ensures SameEntries(old(files), files) && forall p <- files :: files[p].id in db.files
      ensures RowsKept(old(db.files), db.files)
      ensures HasRows(files, db.files) <==> OneToOne(hashes, files.Keys)
    {
      PersistEach();
      HasRowsIff(files, db.files, hashes);
    }

    method PersistEach()
      requires Coherent()
      modifies this, db
      ensures Coherent() && db.alreadyPersistent == old(db.alreadyPersistent)
      ensures SameEntries(old(files), files) && forall p <- files :: files[p].id in db.files
      ensures RowsKept(old(db.files), db.files)
    {
      var todo := files.Keys;
      while todo != {}
        invariant Coherent() && db.alreadyPersistent == old(db.alreadyPersistent)
        invariant SameEntries(old(files), files) && todo <= files.Keys
        invariant forall p <- files :: p in todo || files[p].id in db.files
        invariant RowsKept(old(db.files), db.files)
      {
        var p :| p in todo;
        PersistNext(p);
        todo := todo - {p};
      }
    }

    method PersistNext(p: Path)
      requires Coherent() && p in files
      modifies this, db
      ensures Coherent() && db.alreadyPersistent == old(db.alreadyPersistent)
      ensures SameEntries(old(files), files) && RowsKept(old(db.files), db.files) && files[p].id in db.files
    {
      PersistOne(p);
    }

    method PersistOne(p: Path)
      requires Coherent() && p in files
      modifies this, db
      ensures Coherent() && db.alreadyPersistent == old(db.alreadyPersistent)
      ensures SameEntries(old(files), files)
      ensures var f := old(files[p]);
        db.files == if f.id in old(db.files) then old(db.files) else old(db.files)[f.id := RowOf(f)]
    {
      var f := files[p];
      if f.id in persistedFiles {
        return;
      }
      persistedFiles := persistedFiles + {f.id};
      AddCached(files, db.files, hashes, f);
      AddContent(db.files, db.contents, hashes, f);
      var ok := PersistContentOf(f);
      if ok {
        ok := db.PersistFile(f);
        if ok {
          files := files[p := Unloaded(f)];
        }
      }
    }

    // Contents in the database are not persisted again.
    method PersistContentOf(f: File) returns (ok: bool)
      requires persistedContents == db.contents.Keys && Ready(f.content, hashes)
      modifies this`persistedContents, db
      ensures ok && persistedContents == db.contents.Keys && db.contents == WithContent(old(db.contents), f)
      ensures db.files == old(db.files) && db.alreadyPersistent == old(db.alreadyPersistent)
    {
      ok := true;
      if f.content.Some? && f.content.value.hash !in persistedContents {
        ok := db.PersistContent(f.content.value.hash, f.content.value.text.value);
        if ok {
          persistedContents := persistedContents + {f.content.value.hash};
        }
      }
    }

    /** A persistent file goes, and its content unless another file has the same. A
        cached file with the same id must have its content in memory now; with
        different ids for different cached paths there is none. */
    method RemoveFile(file: File)
      requires Coherent() && file.id in db.files && RowOf(file) == db.files[file.id]
      modifies this, db
      ensures Coherent() <==> forall p <- files :: files[p].id == file.id ==> Ready(files[p].content, hashes)
      ensures OneToOne(hashes, old(files).Keys) ==> Coherent()
      ensures db.alreadyPersistent == old(db.alreadyPersistent)
      ensures db.files == old(db.files) - {file.id} && files == old(files) - {file.path}
      ensures forall c <- db.contents :: c in old(db.contents) && db.contents[c] == old(db.contents)[c]
    {
      RemoveContent(db.files, db.contents, file.id);
      RemoveCached(files, db.files, hashes, file.id);
      RemoveRow(file);
    }

    method RemoveRow(file: File)
      requires persistedFiles == db.files.Keys && persistedContents == db.contents.Keys
      modifies this, db
      ensures persistedFiles == db.files.Keys && persistedContents == db.contents.Keys
      ensures db.alreadyPersistent == old(db.alreadyPersistent)
      ensures db.files == old(db.files) - {file.id} && files == old(files) - {file.path}
      ensures db.contents == WithoutContent(old(db.files), old(db.contents), RowOf(file).content)
    {
      var removeContent := false;
      if file.content.Some? {
        var relFiles := Referring(db.files, file.content.value.hash);
        if |relFiles| == 1 {
          removeContent := true;
          db.contents := db.contents - {file.content.value.hash};
        }
      }
      db.files := db.files - {file.id};
      files := files - {file.path};
      persistedFiles := persistedFiles - {file.id};
      if removeContent {
        persistedContents := persistedContents - {file.content.value.hash};
      }
    }

    /** Writing the cache out and reading it back gives the same files exactly when
        no two of their paths have the same id. */
    method PersistAndReload()
      requires Coherent()
      modifies this, db
      ensures Coherent() && (SameEntries(old(files), files) <==> OneToOne(hashes, old(files).Keys))
      ensures db.alreadyPersistent == old(db.alreadyPersistent)
    {
      PersistFiles();
      ghost var kept := files;
      ReloadCache();
      SameAfterReload(kept, files, db.files, hashes);
      SameThrough(old(files), kept, files);
    }
  }

  ghost predicate RowsKept(rows: map<FileId, FileRow>, rows': map<FileId, FileRow>) {
    rows.Keys <= rows'.Keys && forall i <- rows :: rows'[i] == rows[i]
  }

  // Each cached file is the one in the row with its id.
  ghost predicate HasRows(files: map<Path, File>, rows: map<FileId, FileRow>) {
    forall p <- files :: files[p].id in rows && rows[files[p].id] == RowOf(files[p])
  }

  lemma HasRowsIff(files: map<Path, File>, rows: map<FileId, FileRow>, h: Hashes)
    requires Keyed(files, h) && RowsKeyed(rows, h) && RowsCached(files, rows)
    requires forall p <- files :: files[p].id in rows
    ensures HasRows(files, rows) <==> OneToOne(h, files.Keys)
  {
    if OneToOne(h, files.Keys) {
      forall p <- files ensures rows[files[p].id] == RowOf(files[p]) {
        assert rows[files[p].id].path == p;
      }
    }
  }

  // The same files, whether or not their contents are in memory.
  ghost predicate SameEntries(files: map<Path, File>, files': map<Path, File>) {
    files.Keys == files'.Keys && forall p <- files :: files[p].id == files'[p].id && RowOf(files[p]) == RowOf(files'[p])
  }

  // New entries are those of a chain of ancestors, as they are on disk.
  ghost predicate Extended(files: map<Path, File>, files': map<Path, File>, chain: seq<Path>, d: Disk, h: Hashes) {
    && (forall p <- files :: p in files' && files'[p] == files[p])
    && forall p <- files' :: p in files || (p in chain && files'[p] == NewFile(p, d, h))
  }

  lemma CacheNew(files: map<Path, File>, rows: map<FileId, FileRow>, h: Hashes, f: File)
    requires Keyed(files, h) && RowsCached(files, rows) && Loaded(files, rows, h)
    requires f.id == h.ofPath(f.path) && (if f.path in files then files[f.path] == f else Ready(f.content, h))
    ensures var files' := files[f.path := f]; Keyed(files', h) && RowsCached(files', rows) && Loaded(files', rows, h)
  {
  }

  lemma RemoveCached(files: map<Path, File>, rows: map<FileId, FileRow>, h: Hashes, i: FileId)
    requires Keyed(files, h) && RowsKeyed(rows, h) && RowsCached(files, rows) && Loaded(files, rows, h)
    requires i in rows
    ensures var files', rows' := files - {rows[i].path}, rows - {i};
      && Keyed(files', h) && RowsKeyed(rows', h) && RowsCached(files', rows')
      && (Loaded(files', rows', h) <==> forall p <- files' :: files'[p].id == i ==> Ready(files'[p].content, h))
      && (OneToOne(h, files.Keys) ==> forall p <- files' :: files'[p].id != i)
  {
  }

  lemma SameAfterReload(files: map<Path, File>, files': map<Path, File>, rows: map<FileId, FileRow>, h: Hashes)
    requires Keyed(files, h) && Keyed(files', h) && RowsKeyed(rows, h)
    requires RowsCached(files, rows) && RowsCached(files', rows)
    requires (forall p <- files :: files[p].id in rows) && files'.Keys == (set i | i in rows :: rows[i].path)
    ensures SameEntries(files, files') <==> OneToOne(h, files.Keys)
  {
    HasRowsIff(files, rows, h);
    if HasRows(files, rows) {
      forall p <- files ensures p in files' && RowOf(files[p]) == RowOf(files'[p]) && files[p].id == files'[p].id {
        assert rows[files[p].id].path == p;
      }
      assert forall p <- files' :: p in files;
    }
    if SameEntries(files, files') {
      forall p <- files ensures rows[files[p].id] == RowOf(files[p]) {
        var i :| i in rows && rows[i].path == p;
        assert i == files[p].id;
      }
    }
  }

  // What was the same before is the same as something else exactly when that is.
  lemma SameThrough(files: map<Path, File>, kept: map<Path, File>, files': map<Path, File>)
    requires SameEntries(files, kept)
    ensures SameEntries(files, files') <==> SameEntries(kept, files')
  {
  }
}
