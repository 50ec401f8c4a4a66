/** `detectNotes` of the first revision (`analyse.tsx`): note files grouped
    into plain records by name, with an assertion that a name stays in one
    directory, and each record labelled with the kind its extensions pick
    from a fixed table, or `null`. */
module Legacy {
  import opened Wrappers
  import opened Errors
  import opened Strings
  import opened Paths
  import opened NoteTypes
  import opened Assemble

  /** The `Note` record of the first revision: `kind` is `null` when no
      entry of the table matches. */
  datatype LegacyNote = LegacyNote(name: string, kind: Option<string>, dir: seq<string>, files: map<string, string>)

  /** The records by name; `order` is the order of their keys. */
  datatype Detected = Detected(order: seq<string>, notes: map<string, LegacyNote>)

  /** The segments of a directory below the root: none empty, none holding
      a separator. */
  predicate ProperDir(dir: seq<string>) {
    forall i :: 0 <= i < |dir| ==> dir[i] != "" && '/' !in dir[i]
  }

  /** The directory of a note file is made of proper segments. */
  lemma NoteFileDirProper(cwd: seq<string>, root: string, path: string)
    requires Canonical(cwd)
    ensures ProperDir(NoteFileOf(cwd, root, path).dir)
  {
    DirSegmentsAreRelative(cwd, root, Parse(path).dir);
  }

  /** The grouping loop with its assertion: a file whose note was first
      seen in a directory that joins to a different string stops the loop;
      otherwise the file is added as in the later revisions. */
  function Gathered(files: seq<NoteFile>): Result<Grouping, Error>
    decreases |files|
  {
    if |files| == 0 then Ok(Grouping([], map[]))
    else
      match Gathered(files[..|files| - 1])
      case Err(e) => Err(e)
      case Ok(g) =>
        var f := files[|files| - 1];
        if f.name in g.infos && Join(g.infos[f.name].dir, "/") != Join(f.dir, "/") then Err(RepeatedName(f.name, f.path))
        else Ok(AddFile(g, f))
  }

  /** The file at `i` names a note whose earlier files lie in another
      directory. */
  predicate Clash(files: seq<NoteFile>, i: int) {
    0 <= i < |files| && files[i].name in Group(files[..i]).infos &&
    Group(files[..i]).infos[files[i].name].dir != files[i].dir
  }

  /** `i` is the first clashing file. */
  predicate FirstClash(files: seq<NoteFile>, i: int) {
    Clash(files, i) && forall j :: 0 <= j < i ==> !Clash(files, j)
  }

  /** One more file: the assertion decides between stopping and adding the
      file. */
  lemma GatheredSnoc(files: seq<NoteFile>, i: nat)
    requires i < |files| && Gathered(files[..i]).Ok?
    ensures var g, f := Gathered(files[..i]).value, files[i];
      Gathered(files[..i + 1]) ==
        if f.name in g.infos && Join(g.infos[f.name].dir, "/") != Join(f.dir, "/") then Err(RepeatedName(f.name, f.path))
        else Ok(AddFile(g, f))
  {
    assert files[..i + 1][..i] == files[..i];
  }

  /** Once the grouping has stopped, later files change nothing. */
  lemma {:induction false} GatheredStops(files: seq<NoteFile>, k: nat)
    requires k <= |files| && Gathered(files[..k]).Err?
    ensures Gathered(files) == Gathered(files[..k])
    decreases |files|
  {
    if k < |files| {
      var front := files[..|files| - 1];
      assert front[..k] == files[..k];
      GatheredStops(front, k);
    } else {
      assert files[..k] == files;
    }
  }

  /** The notes gathered are the names listed. */
  lemma {:induction false} GatheredKeys(files: seq<NoteFile>)
    ensures Gathered(files).Ok? ==> forall n :: n in Gathered(files).value.infos <==> n in Gathered(files).value.order
    decreases |files|
  {
    if |files| > 0 {
      GatheredKeys(files[..|files| - 1]);
    }
  }

  /** Clashes before `k` are decided by the files before `k`. */
  lemma ClashPrefix(files: seq<NoteFile>, k: nat)
    requires k <= |files|
    ensures forall j :: 0 <= j < k ==> (Clash(files, j) <==> Clash(files[..k], j))
  {
    forall j | 0 <= j < k ensures Clash(files, j) <==> Clash(files[..k], j) {
      assert files[..j] == files[..k][..j];
    }
  }

  /** One step of the loop after clean files: the assertion fails exactly
      when the new file clashes, and otherwise the grouping grows as in the
      later revisions. */
  lemma GatheredStep(files: seq<NoteFile>)
    requires |files| > 0 && ProperDir(files[|files| - 1].dir)
    requires forall i :: 0 <= i < |files| - 1 ==> ProperDir(files[i].dir)
    requires Gathered(files[..|files| - 1]) == Ok(Group(files[..|files| - 1]))
    ensures Gathered(files).Ok? <==> !Clash(files, |files| - 1)
    ensures Gathered(files).Ok? ==> Gathered(files).value == Group(files)
    ensures Gathered(files).Err? ==> Gathered(files).error == RepeatedName(files[|files| - 1].name, files[|files| - 1].path)
  {
    var k := |files| - 1;
    var front := files[..k];
    var f := files[k];
    var g := Group(front);
    if f.name in g.infos {
      GroupDirs(front);
      var i :| FirstOf(front, f.name, i) && g.infos[f.name].dir == front[i].dir;
      assert front[i] == files[i];
      JoinInjective(g.infos[f.name].dir, f.dir);
    }
  }

  /** The assertion fails exactly when some file puts its note in a second
      directory, and then it fails at the first such file; otherwise the
      result is the grouping of the later revisions. */
  lemma {:induction false} GatheredGroups(files: seq<NoteFile>)
    requires forall i :: 0 <= i < |files| ==> ProperDir(files[i].dir)
    ensures Gathered(files).Ok? <==> forall i :: 0 <= i < |files| ==> !Clash(files, i)
    ensures Gathered(files).Ok? ==> Gathered(files).value == Group(files)
    ensures Gathered(files).Err? ==>
      exists i :: FirstClash(files, i) && Gathered(files).error == RepeatedName(files[i].name, files[i].path)
    decreases |files|
  {
    if |files| > 0 {
      var k := |files| - 1;
      var front := files[..k];
      GatheredGroups(front);
      ClashPrefix(files, k);
      if Gathered(front).Err? {
        var i :| FirstClash(front, i) && Gathered(front).error == RepeatedName(front[i].name, front[i].path);
        assert files[i] == front[i];
        assert Clash(files, i) && FirstClash(files, i);
        GatheredStops(files, k);
      } else {
        GatheredStep(files);
        if Clash(files, k) {
          assert FirstClash(files, k);
        } else {
          forall j | 0 <= j < |files| ensures !Clash(files, j) {
            if j < k {
              assert !Clash(front, j);
            }
          }
        }
      }
    }
  }

  /** A gathered note labelled with its kind. */
  function Labelled(info: NoteInfo<string>): LegacyNote {
    LegacyNote(info.name, LegacyKind(info.files.Keys), info.dir, info.files)
  }

  /** What `detectNotes(paths, options)` gives, with `options.root` absent
      when `options` is: reading it fails as soon as there is a path. */
  function DetectedNotes(paths: seq<string>, options: Option<string>, cwd: seq<string>): Result<Detected, Error>
    requires Canonical(cwd)
  {
    if options.None? then
      if |paths| == 0 then Ok(Detected([], map[])) else Err(MissingOptions)
    else
      match Gathered(Entries(cwd, options.value, paths))
      case Err(e) => Err(e)
      case Ok(g) => Ok(Detected(g.order, map n | n in g.infos :: Labelled(g.infos[n])))
  }

  /** The grouping loop of `detectNotes`, for the root `root`. */
  method GatherNotes(paths: seq<string>, root: string, cwd: seq<string>) returns (r: Result<Grouping, Error>)
    requires Canonical(cwd)
    ensures r == Gathered(Entries(cwd, root, paths))
  {
    var order: seq<string> := [];
    var infos: map<string, NoteInfo<string>> := map[];
    ghost var files := Entries(cwd, root, paths);
    for i := 0 to |paths|
      invariant Gathered(files[..i]) == Ok(Grouping(order, infos))
    {
      var f := NoteFileOf(cwd, root, paths[i]);
      GatheredSnoc(files, i);
      assert files[i] == f;
      if f.name in infos && Join(infos[f.name].dir, "/") != Join(f.dir, "/") {
        GatheredStops(files, i + 1);
        return Err(RepeatedName(f.name, f.path));
      }
      ghost var next := AddFile(Grouping(order, infos), f);
      var info := if f.name in infos then infos[f.name] else NoteInfo(f.name, f.dir, map[]);
      if f.name !in infos {
        order := order + [f.name];
      }
      infos := infos[f.name := info.(files := info.files[f.ext := f.path])];
      assert Grouping(order, infos) == next;
    }
    assert files[..|paths|] == files;
    r := Ok(Grouping(order, infos));
  }

  /** The labelling loop of `detectNotes`: each note, in key order, gets
      the kind its extensions pick. */
  method LabelNotes(order: seq<string>, infos: map<string, NoteInfo<string>>) returns (notes: map<string, LegacyNote>)
    requires forall n :: n in infos <==> n in order
    ensures notes == map n | n in infos :: Labelled(infos[n])
  {
    notes := map[];
    for i := 0 to |order|
      invariant notes.Keys == set j | 0 <= j < i :: order[j]
      invariant forall n :: n in notes ==> notes[n] == Labelled(infos[n])
    {
      var info := infos[order[i]];
      var kind := DetectLegacyKind(info.files.Keys);
      notes := notes[order[i] := LegacyNote(info.name, kind, info.dir, info.files)];
    }
    assert notes.Keys == infos.Keys by {
      forall n | n in infos ensures n in notes {
        var j :| 0 <= j < |order| && order[j] == n;
      }
    }
  }

  /** `detectNotes`: without `options` the first path already fails. */
  method DetectNotes(paths: seq<string>, options: Option<string>, cwd: seq<string>) returns (r: Result<Detected, Error>)
    requires Canonical(cwd)
    ensures r == DetectedNotes(paths, options, cwd)
  {
    if options.None? {
      if |paths| == 0 {
        return Ok(Detected([], map[]));
      }
      return Err(MissingOptions);
    }
    var g := GatherNotes(paths, options.value, cwd);
    if g.Err? {
      return Err(g.error);
    }
    GatheredKeys(Entries(cwd, options.value, paths));
    var notes := LabelNotes(g.value.order, g.value.infos);
    r := Ok(Detected(g.value.order, notes));
  }

  /** With a root, the notes are those of the later revisions' grouping,
      each labelled by the table, exactly when no name is used in two
      directories; otherwise the first file that reuses a name in another
      directory is reported. */
  lemma DetectedNotesGroups(paths: seq<string>, root: string, cwd: seq<string>)
    requires Canonical(cwd)
    ensures var files := Entries(cwd, root, paths); var r := DetectedNotes(paths, Some(root), cwd);
      (r.Ok? <==> forall i :: 0 <= i < |files| ==> !Clash(files, i)) &&
      (r.Ok? ==>
        r.value.order == Group(files).order && r.value.notes.Keys == Group(files).infos.Keys &&
        forall n :: n in r.value.notes ==> r.value.notes[n] == Labelled(Group(files).infos[n])) &&
      (r.Err? ==> exists i :: FirstClash(files, i) && r.error == RepeatedName(files[i].name, paths[i]))
  {
    var files := Entries(cwd, root, paths);
    forall i | 0 <= i < |files| ensures ProperDir(files[i].dir) {
      NoteFileDirProper(cwd, root, paths[i]);
    }
    GatheredGroups(files);
  }
}
