/** `notesFromFiles`: grouping note files into notes by name, classifying
    each note by its set of extensions and constructing the notes. */
module Assemble {
  import opened Wrappers
  import opened Strings
  import opened Paths
  import opened NoteTypes
  import opened LazyFiles
  import opened Notes

  /** What the path of one note file says: the note's name, its folder
      segments and the file's extension. */
  datatype NoteFile = NoteFile(path: string, name: string, dir: seq<string>, ext: string)

  /** `name.replace(/\.note$/, "")`. */
  function StripNoteSuffix(name: string): string {
    if EndsWith(name, ".note") then name[..|name| - 5] else name
  }

  /** The name, extension and directory of a note file found below `root`:
      the parsed name without `.note`, the extension without its dot, and
      the file's directory relative to `root` as segments. */
  function NoteFileOf(cwd: seq<string>, root: string, path: string): NoteFile
    requires Canonical(cwd)
  {
    var parts := Parse(path);
    NoteFile(path, StripNoteSuffix(parts.name), DirSegments(cwd, root, parts.dir),
      if |parts.ext| > 0 then parts.ext[1..] else "")
  }

  /** A base name after a directory prefix is what `parse` takes as the
      base name. */
  lemma ParseBase(prefix: string, base: string)
    requires prefix == "" || prefix[|prefix| - 1] == '/'
    requires |base| > 0 && base[|base| - 1] != '/' && '/' !in base
    ensures Parse(prefix + base).name == SplitExt(base).0
    ensures Parse(prefix + base).ext == SplitExt(base).1
  {
    var path := prefix + base;
    assert TrimTrailingSlashes(path) == path by {
      assert path[|path| - 1] == base[|base| - 1];
    }
    if prefix == "" {
      assert path == base;
      assert LastIndexOf(path, '/') == None;
    } else {
      LastIndexOfAfter(prefix, base, '/');
      assert path[|prefix|..] == base;
    }
    assert (match LastIndexOf(path, '/') case None => path case Some(k) => path[k + 1..]) == base;
  }

  /** The directory `parse` gives for a base name after a prefix ending in
      a separator: the prefix without that separator (the root for `/`). */
  lemma ParseDir(prefix: string, base: string)
    requires prefix == "" || prefix[|prefix| - 1] == '/'
    requires |base| > 0 && base[|base| - 1] != '/' && '/' !in base
    ensures Parse(prefix + base).dir == if prefix == "" then "" else if |prefix| == 1 then "/" else prefix[..|prefix| - 1]
  {
    var path := prefix + base;
    assert TrimTrailingSlashes(path) == path by {
      assert path[|path| - 1] == base[|base| - 1];
    }
    if prefix == "" {
      assert path == base;
      assert LastIndexOf(path, '/') == None;
    } else {
      LastIndexOfAfter(prefix, base, '/');
      assert path[..|prefix| - 1] == prefix[..|prefix| - 1];
    }
  }

  /** The extension of `<n>.note.<ext>` is its last part. */
  lemma SplitNoteExt(n: string, ext: string)
    requires '.' !in ext
    ensures SplitExt(n + ".note." + ext) == (n + ".note", "." + ext)
  {
    var base := n + ".note." + ext;
    LastIndexOfAfter(n + ".note.", ext, '.');
    assert base == (n + ".note.") + ext;
    var k := |n| + 5;
    assert base[..k] == n + ".note";
    assert base[k..] == "." + ext;
  }

  /** `<n>.note.<ext>` holds no separator when `n` and `ext` hold none. */
  lemma NoteBaseName(n: string, ext: string)
    requires '/' !in n && '/' !in ext
    ensures '/' !in n + ".note." + ext
  {
    var base := n + ".note." + ext;
    forall i | 0 <= i < |base| ensures base[i] != '/' {
      if i < |n| { assert base[i] == n[i]; }
      else if i < |n| + 6 { assert base[i] == ".note."[i - |n|]; }
      else { assert base[i] == ext[i - |n| - 6]; }
    }
  }

  /** `parse` of `<prefix><n>.note.<ext>`: the name is `<n>.note` and the
      extension `.<ext>`. */
  lemma ParseNoteFile(prefix: string, n: string, ext: string)
    requires prefix == "" || prefix[|prefix| - 1] == '/'
    requires '/' !in n && |ext| > 0 && forall i :: 0 <= i < |ext| ==> IsWordChar(ext[i])
    ensures Parse(prefix + n + ".note." + ext).name == n + ".note"
    ensures Parse(prefix + n + ".note." + ext).ext == "." + ext
  {
    var base := n + ".note." + ext;
    assert prefix + n + ".note." + ext == prefix + base;
    assert '/' !in ext && '.' !in ext by {
      assert forall i :: 0 <= i < |ext| ==> ext[i] != '/' && ext[i] != '.';
    }
    NoteBaseName(n, ext);
    assert base[|base| - 1] == ext[|ext| - 1];
    ParseBase(prefix, base);
    SplitNoteExt(n, ext);
  }

  /** For a file `<n>.note.<ext>`, the note's name is `n` and the file's key
      is `ext`. */
  lemma NoteFileOfShape(cwd: seq<string>, root: string, prefix: string, n: string, ext: string)
    requires Canonical(cwd)
    requires prefix == "" || prefix[|prefix| - 1] == '/'
    requires '/' !in n && |ext| > 0 && forall i :: 0 <= i < |ext| ==> IsWordChar(ext[i])
    ensures NoteFileOf(cwd, root, prefix + n + ".note." + ext).name == n
    ensures NoteFileOf(cwd, root, prefix + n + ".note." + ext).ext == ext
  {
    ParseNoteFile(prefix, n, ext);
    assert EndsWith(n + ".note", ".note");
    assert (n + ".note")[..|n|] == n;
    assert ("." + ext)[1..] == ext;
  }

  /** A note as gathered from its files: name, directory and files by
      extension (`F` is a path string or a `LazyFile`). */
  datatype NoteInfo<F> = NoteInfo(name: string, dir: seq<string>, files: map<string, F>)

  /** The notes gathered so far, with their names in the order first seen
      (the iteration order of the `noteInfo` object). */
  datatype Grouping = Grouping(order: seq<string>, infos: map<string, NoteInfo<string>>)

  /** One step of the grouping loop: a new name starts a note in the
      directory of this file; a known name keeps its directory, whatever this
      file's is; either way the file is stored under its extension,
      replacing an earlier one. */
  function AddFile(g: Grouping, f: NoteFile): Grouping {
    var info := if f.name in g.infos then g.infos[f.name] else NoteInfo(f.name, f.dir, map[]);
    Grouping(if f.name in g.infos then g.order else g.order + [f.name],
      g.infos[f.name := info.(files := info.files[f.ext := f.path])])
  }

  /** The grouping loop over `files`, in order. */
  function Group(files: seq<NoteFile>): Grouping
    decreases |files|
  {
    if |files| == 0 then Grouping([], map[])
    else AddFile(Group(files[..|files| - 1]), files[|files| - 1])
  }

  /** The note files of `paths`, in order. */
  function Entries(cwd: seq<string>, root: string, paths: seq<string>): (r: seq<NoteFile>)
    requires Canonical(cwd)
    ensures |r| == |paths| && forall i :: 0 <= i < |paths| ==> r[i] == NoteFileOf(cwd, root, paths[i])
  {
    seq(|paths|, i requires 0 <= i < |paths| => NoteFileOf(cwd, root, paths[i]))
  }

  predicate Distinct<T(==)>(s: seq<T>) {
    forall i, j :: 0 <= i < j < |s| ==> s[i] != s[j]
  }

  /** `files[i]` is the first file of note `n`. */
  predicate FirstOf(files: seq<NoteFile>, n: string, i: int) {
    0 <= i < |files| && files[i].name == n && forall j :: 0 <= j < i ==> files[j].name != n
  }

  /** The first file of note `m` comes before the first file of note `n`. */
  predicate FirstBefore(files: seq<NoteFile>, m: string, n: string) {
    exists i, j :: 0 <= i < j < |files| && FirstOf(files, m, i) && FirstOf(files, n, j)
  }

  /** `files[i]` is the last file of note `n` with extension `e`. */
  predicate LastOf(files: seq<NoteFile>, n: string, e: string, i: int) {
    0 <= i < |files| && files[i].name == n && files[i].ext == e &&
    forall j :: i < j < |files| ==> !(files[j].name == n && files[j].ext == e)
  }

  /** The names are exactly the names of the files, each listed once, in
      the order of their first files. */
  lemma {:induction false} GroupNames(files: seq<NoteFile>)
    ensures Distinct(Group(files).order)
    ensures forall n :: n in Group(files).infos <==> n in Group(files).order
    ensures forall n :: n in Group(files).infos <==> exists i :: 0 <= i < |files| && files[i].name == n
    ensures forall a, b :: 0 <= a < b < |Group(files).order| ==>
      FirstBefore(files, Group(files).order[a], Group(files).order[b])
    decreases |files|
  {
    if |files| > 0 {
      GroupNames(files[..|files| - 1]);
      GroupNamesStep(files);
      GroupOrderStep(files);
    }
  }

  /** The names grouped after one more file are those of all the files. */
  lemma GroupNamesStep(files: seq<NoteFile>)
    requires |files| > 0
    requires var front := files[..|files| - 1];
      forall n :: n in Group(front).infos <==> exists i :: 0 <= i < |front| && front[i].name == n
    ensures forall n :: n in Group(files).infos <==> exists i :: 0 <= i < |files| && files[i].name == n
  {
    var front := files[..|files| - 1];
    var g := Group(front);
    forall n ensures n in Group(files).infos <==> exists i :: 0 <= i < |files| && files[i].name == n {
      if n in g.infos {
        var i :| 0 <= i < |front| && front[i].name == n;
        assert files[i] == front[i];
      }
      if exists i :: 0 <= i < |files| && files[i].name == n {
        var i :| 0 <= i < |files| && files[i].name == n;
        if i < |front| {
          assert front[i] == files[i];
        }
      }
    }
  }

  /** After one more file the names stay in order of first appearance. */
  lemma GroupOrderStep(files: seq<NoteFile>)
    requires |files| > 0
    requires var front := files[..|files| - 1];
      (forall n :: n in Group(front).infos <==> n in Group(front).order) &&
      (forall n :: n in Group(front).infos <==> exists i :: 0 <= i < |front| && front[i].name == n) &&
      forall a, b :: 0 <= a < b < |Group(front).order| ==> FirstBefore(front, Group(front).order[a], Group(front).order[b])
    ensures forall a, b :: 0 <= a < b < |Group(files).order| ==>
      FirstBefore(files, Group(files).order[a], Group(files).order[b])
  {
    var front := files[..|files| - 1];
    var f := files[|files| - 1];
    var g := Group(front);
    forall a, b | 0 <= a < b < |Group(files).order|
      ensures FirstBefore(files, Group(files).order[a], Group(files).order[b])
    {
      var o := Group(files).order;
      if b < |g.order| {
        assert o[a] == g.order[a] && o[b] == g.order[b];
        var i, j :| 0 <= i < j < |front| && FirstOf(front, g.order[a], i) && FirstOf(front, g.order[b], j);
        FirstOfExtends(front, files, g.order[a], i);
        FirstOfExtends(front, files, g.order[b], j);
        assert FirstBefore(files, o[a], o[b]);
      } else {
        assert f.name !in g.infos && o == g.order + [f.name];
        assert a < |g.order| && o[a] == g.order[a] && g.order[a] in g.order;
        var i :| FirstOf(front, g.order[a], i) by {
          var i0 :| 0 <= i0 < |front| && front[i0].name == g.order[a];
          FirstExists(front, g.order[a], i0);
        }
        FirstOfExtends(front, files, g.order[a], i);
        assert FirstOf(files, o[b], |files| - 1) by {
          forall j | 0 <= j < |files| - 1 ensures files[j].name != f.name {
            assert front[j] == files[j];
          }
        }
        assert FirstBefore(files, o[a], o[b]);
      }
    }
  }


  lemma FirstOfExtends(front: seq<NoteFile>, files: seq<NoteFile>, n: string, i: int)
    requires front <= files && FirstOf(front, n, i)
    ensures FirstOf(files, n, i)
  {
    assert forall j :: 0 <= j <= i ==> files[j] == front[j];
  }

  /** A name that occurs has a first occurrence. */
  lemma {:induction false} FirstExists(files: seq<NoteFile>, n: string, i: int)
    requires 0 <= i < |files| && files[i].name == n
    ensures exists k :: FirstOf(files, n, k)
    decreases i
  {
    if !FirstOf(files, n, i) {
      var j :| 0 <= j < i && files[j].name == n;
      FirstExists(files, n, j);
    }
  }

  /** Every note is keyed by its own name and lies in the directory of its
      first file: a later file of the same name in another directory does
      not move it. */
  lemma {:induction false} GroupDirs(files: seq<NoteFile>)
    ensures forall n :: n in Group(files).infos ==>
      Group(files).infos[n].name == n &&
      exists i :: FirstOf(files, n, i) && Group(files).infos[n].dir == files[i].dir
    decreases |files|
  {
    if |files| > 0 {
      var front := files[..|files| - 1];
      var f := files[|files| - 1];
      var g := Group(front);
      assert forall j :: 0 <= j < |front| ==> files[j] == front[j];
      GroupDirs(front);
      forall n | n in Group(files).infos
        ensures Group(files).infos[n].name == n &&
          exists i :: FirstOf(files, n, i) && Group(files).infos[n].dir == files[i].dir
      {
        if n in g.infos {
          var i :| FirstOf(front, n, i) && g.infos[n].dir == front[i].dir;
          assert FirstOf(files, n, i);
        } else {
          assert n == f.name;
          GroupNames(front);
          forall j | 0 <= j < |files| - 1 ensures files[j].name != n {
            assert front[j] == files[j];
          }
          assert FirstOf(files, n, |files| - 1);
        }
      }
    }
  }

  /** A note has a file for exactly the extensions its files have. */
  lemma {:induction false} GroupFileKeys(files: seq<NoteFile>)
    ensures forall n, e :: n in Group(files).infos ==>
      (e in Group(files).infos[n].files <==> exists i :: 0 <= i < |files| && files[i].name == n && files[i].ext == e)
    decreases |files|
  {
    if |files| > 0 {
      var front := files[..|files| - 1];
      var f := files[|files| - 1];
      var g := Group(front);
      assert forall j :: 0 <= j < |front| ==> files[j] == front[j];
      GroupFileKeys(front);
      forall n, e | n in Group(files).infos
        ensures e in Group(files).infos[n].files <==> exists i :: 0 <= i < |files| && files[i].name == n && files[i].ext == e
      {
        if exists i :: 0 <= i < |files| && files[i].name == n && files[i].ext == e {
          var i :| 0 <= i < |files| && files[i].name == n && files[i].ext == e;
          if i < |front| {
            assert front[i].name == n && front[i].ext == e;
            if n !in g.infos {
              GroupNames(front);
              assert false;
            }
          }
        }
      }
    }
  }

  /** For an extension used twice by a note, the later file wins. */
  lemma {:induction false} GroupFilesLastWins(files: seq<NoteFile>)
    ensures forall n, e :: n in Group(files).infos && e in Group(files).infos[n].files ==>
      exists i :: LastOf(files, n, e, i) && Group(files).infos[n].files[e] == files[i].path
    decreases |files|
  {
    if |files| > 0 {
      var front := files[..|files| - 1];
      var f := files[|files| - 1];
      var g := Group(front);
      assert forall j :: 0 <= j < |front| ==> files[j] == front[j];
      GroupFilesLastWins(front);
      forall n, e | n in Group(files).infos && e in Group(files).infos[n].files
        ensures exists i :: LastOf(files, n, e, i) && Group(files).infos[n].files[e] == files[i].path
      {
        if n == f.name && e == f.ext {
          assert LastOf(files, n, e, |files| - 1);
        } else {
          var i :| LastOf(front, n, e, i) && g.infos[n].files[e] == front[i].path;
          assert LastOf(files, n, e, i);
        }
      }
    }
  }

  /** The class of a note with extensions `exts`: the first matching class,
      the base `Note` when none matches. */
  function DetectedType(types: seq<NoteType>, exts: set<string>): NoteType {
    match FirstMatch(Combos(types), exts)
    case Some(i) => types[i]
    case None => BaseNote
  }

  /** The two revisions of the classification loop. */
  datatype Revision =
    | Modular // `src/project.ts`: `detectNoteType` falls back to the base `Note`
    | Bundled // `src/analyse.tsx`: `detectNoteKind` may give `undefined`, and the note keeps its initial type

  /** The classification loop of `src/project.ts`. */
  method ClassifyModular(order: seq<string>, infos: map<string, NoteInfo<LazyFile>>, types: seq<NoteType>)
    returns (kinds: map<string, NoteType>)
    requires forall n :: n in order ==> n in infos
    ensures kinds.Keys == set n | n in order
    ensures forall n :: n in kinds ==> kinds[n] == DetectedType(types, infos[n].files.Keys)
  {
    kinds := map[];
    for i := 0 to |order|
      invariant forall n :: n in kinds <==> n in order[..i]
      invariant forall n :: n in kinds ==> kinds[n] == DetectedType(types, infos[n].files.Keys)
    {
      var t := DetectNoteType(types, infos[order[i]].files.Keys);
      kinds := kinds[order[i] := t];
      assert order[..i + 1] == order[..i] + [order[i]];
    }
    assert order[..|order|] == order;
    assert kinds.Keys == set n | n in order;
  }

  /** The classification loop of `src/analyse.tsx`: every note starts as a
      base `Note`, and a note no class matches is skipped (`continue`). */
  method ClassifyBundled(order: seq<string>, infos: map<string, NoteInfo<LazyFile>>, types: seq<NoteType>)
    returns (kinds: map<string, NoteType>)
    requires forall n :: n in order ==> n in infos
    ensures kinds.Keys == set n | n in order
    ensures forall n :: n in kinds ==> kinds[n] == DetectedType(types, infos[n].files.Keys)
  {
    kinds := map n | n in order :: BaseNote;
    for i := 0 to |order|
      invariant kinds.Keys == set n | n in order
      invariant forall n :: n in kinds && n in order[..i] ==> kinds[n] == DetectedType(types, infos[n].files.Keys)
      invariant forall n :: n in kinds && n !in order[..i] ==> kinds[n] == BaseNote
    {
      assert order[..i + 1] == order[..i] + [order[i]];
      var t := DetectNoteKind(types, infos[order[i]].files.Keys);
      if t.None? {
        continue;
      }
      kinds := kinds[order[i] := t.value];
    }
    assert order[..|order|] == order;
  }

  /** The paths of the files of a gathered note. */
  function PathsOf(info: NoteInfo<LazyFile>): NoteInfo<string> {
    NoteInfo(info.name, info.dir, map e | e in info.files :: info.files[e].path)
  }

  /** Whether note `note` was constructed from `info` as a note of class
      `kind`, with nothing read or cached yet. */
  ghost predicate BuiltFrom(note: Note, info: NoteInfo<string>, kind: NoteType)
    reads note, note.files.Values
  {
    MadeFrom(note, info, kind) &&
    (forall e :: e in note.files ==> note.files[e].cache == None) &&
    note.titleCache == None && note.urlCache == None && note.outgoing == [] && note.incoming == []
  }

  /** Whether `note` is a note of class `kind` with the name, directory and
      file paths of `info`. */
  predicate MadeFrom(note: Note, info: NoteInfo<string>, kind: NoteType) {
    note.name == info.name && note.dir == info.dir && note.kind == kind &&
    note.files.Keys == info.files.Keys &&
    forall e :: e in note.files ==> note.files[e].path == info.files[e]
  }

  /** The grouping loop: new `LazyFile`s for the files, gathered by name. */
  method GatherFiles(files: seq<NoteFile>) returns (order: seq<string>, infos: map<string, NoteInfo<LazyFile>>)
    ensures order == Group(files).order && infos.Keys == Group(files).infos.Keys
    ensures forall n :: n in infos ==> PathsOf(infos[n]) == Group(files).infos[n]
    ensures forall n, e :: n in infos && e in infos[n].files ==>
      fresh(infos[n].files[e]) && infos[n].files[e].cache == None
  {
    order, infos := [], map[];
    for i := 0 to |files|
      invariant order == Group(files[..i]).order && infos.Keys == Group(files[..i]).infos.Keys
      invariant forall n :: n in infos ==> PathsOf(infos[n]) == Group(files[..i]).infos[n]
      invariant forall n, e :: n in infos && e in infos[n].files ==>
        fresh(infos[n].files[e]) && infos[n].files[e].cache == None
    {
      assert files[..i + 1][..i] == files[..i];
      ghost var g := Group(files[..i]);
      var f := files[i];
      if f.name !in infos {
        infos := infos[f.name := NoteInfo(f.name, f.dir, map[])];
        order := order + [f.name];
      }
      // a known name in another directory is only logged
      var file := new LazyFile(f.path);
      var info := infos[f.name];
      PathsOfAdd(info, f.ext, file);
      infos := infos[f.name := info.(files := info.files[f.ext := file])];
      assert PathsOf(infos[f.name]) == AddFile(g, f).infos[f.name];
    }
    assert files[..|files|] == files;
  }

  lemma PathsOfAdd(info: NoteInfo<LazyFile>, e: string, file: LazyFile)
    ensures PathsOf(info.(files := info.files[e := file])) ==
      PathsOf(info).(files := PathsOf(info).files[e := file.path])
  {
  }

  /** The construction loop: one new note per gathered name. */
  method Construct(order: seq<string>, infos: map<string, NoteInfo<LazyFile>>, kinds: map<string, NoteType>)
    returns (notes: map<string, Note>)
    requires forall n :: n in order ==> n in infos && n in kinds
    ensures notes.Keys == set n | n in order
    ensures forall n :: n in notes ==>
      notes[n].name == infos[n].name && notes[n].dir == infos[n].dir && notes[n].files == infos[n].files &&
      notes[n].kind == kinds[n] && notes[n].titleCache == None && notes[n].urlCache == None &&
      notes[n].outgoing == [] && notes[n].incoming == []
    ensures forall n :: n in notes ==> fresh(notes[n])
    ensures forall a, b :: a in notes && b in notes && a != b ==> notes[a] != notes[b]
  {
    notes := map[];
    for i := 0 to |order|
      invariant notes.Keys == set n | n in order[..i]
      invariant forall n :: n in notes ==>
        notes[n].name == infos[n].name && notes[n].dir == infos[n].dir && notes[n].files == infos[n].files &&
        notes[n].kind == kinds[n] && notes[n].titleCache == None && notes[n].urlCache == None &&
        notes[n].outgoing == [] && notes[n].incoming == []
      invariant forall n :: n in notes ==> fresh(notes[n])
      invariant forall a, b :: a in notes && b in notes && a != b ==> notes[a] != notes[b]
    {
      assert order[..i + 1] == order[..i] + [order[i]];
      var info := infos[order[i]];
      var note := new Note(kinds[order[i]], info.name, info.dir, info.files);
      notes := notes[order[i] := note];
    }
    assert order[..|order|] == order;
  }

  /** `notesFromFiles`: the notes of `paths`, keyed by name and listed in
      the order their names first occur. Each is constructed from its
      gathered name, directory and files as the class its extensions pick. */
  method NotesFromFiles(rev: Revision, cwd: seq<string>, srcDir: string, types: seq<NoteType>, paths: seq<string>)
    returns (order: seq<string>, notes: map<string, Note>)
    requires Canonical(cwd)
    ensures var g := Group(Entries(cwd, srcDir, paths));
      order == g.order && notes.Keys == g.infos.Keys &&
      forall n :: n in notes ==> BuiltFrom(notes[n], g.infos[n], DetectedType(types, g.infos[n].files.Keys))
    ensures forall n :: n in notes ==> fresh(notes[n]) && forall f :: f in notes[n].files.Values ==> fresh(f)
    ensures forall a, b :: a in notes && b in notes && a != b ==> notes[a] != notes[b]
  {
    var files := Entries(cwd, srcDir, paths);
    var infos: map<string, NoteInfo<LazyFile>>;
    order, infos := GatherFiles(files);
    GroupNames(files);
    var kinds: map<string, NoteType>;
    if rev == Modular {
      kinds := ClassifyModular(order, infos, types);
    } else {
      kinds := ClassifyBundled(order, infos, types);
    }
    notes := Construct(order, infos, kinds);
    ghost var g := Group(files);
    forall n | n in notes
      ensures BuiltFrom(notes[n], g.infos[n], DetectedType(types, g.infos[n].files.Keys))
    {
      assert PathsOf(infos[n]) == g.infos[n];
      assert infos[n].files.Keys == g.infos[n].files.Keys;
      forall e | e in notes[n].files
        ensures notes[n].files[e].path == g.infos[n].files[e]
      {
        assert PathsOf(infos[n]).files[e] == infos[n].files[e].path;
      }
      assert MadeFrom(notes[n], g.infos[n], DetectedType(types, g.infos[n].files.Keys));
    }
  }
}
