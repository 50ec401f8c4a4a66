/** The snapshot test of the first revision (`test/analyse_test.ts`): its
    four paths, worked through `detectNotes`. */
module LegacyTest {
  import opened Wrappers
  import opened Errors
  import opened Strings
  import opened Paths
  import opened NoteTypes
  import opened Assemble
  import opened Legacy

  /** The snapshot test's paths. */
  const FixturePaths: seq<string> := ["maths/a.note.md", "maths/b.note.md", "c.note.typ", "c.note.pdf"]

  /** The files of the snapshot test's paths with the working directory as
      root. */
  const FixtureFiles: seq<NoteFile> := [
    NoteFile("maths/a.note.md", "a", ["maths"], "md"),
    NoteFile("maths/b.note.md", "b", ["maths"], "md"),
    NoteFile("c.note.typ", "c", [], "typ"),
    NoteFile("c.note.pdf", "c", [], "pdf")]

  lemma FixtureEntries(cwd: seq<string>)
    requires Canonical(cwd)
    ensures Entries(cwd, ".", FixturePaths) == FixtureFiles
  {
    assert Canonical(["maths"]);
    EntriesOfShape(cwd, "maths", "a", "b", "c", "md", "typ", "pdf");
    FixturePathsShape();
  }

  /** The snapshot test's paths, taken apart. */
  lemma FixturePathsShape()
    ensures FixturePaths == ["maths" + "/" + "a" + ".note." + "md", "maths" + "/" + "b" + ".note." + "md",
      "c" + ".note." + "typ", "c" + ".note." + "pdf"]
  {
    assert "maths" + "/" + "a" + ".note." + "md" == FixturePaths[0];
    assert "maths" + "/" + "b" + ".note." + "md" == FixturePaths[1];
    assert "c" + ".note." + "typ" == FixturePaths[2];
    assert "c" + ".note." + "pdf" == FixturePaths[3];
  }

  /** The fixture's shape: two notes in directory `d` and one at the top
      with two files. */
  lemma EntriesOfShape(cwd: seq<string>, d: string, a: string, b: string, c: string, e1: string, e2: string, e3: string)
    requires Canonical(cwd) && Canonical([d])
    requires '/' !in a && '/' !in b && '/' !in c
    requires WordChars(e1) && WordChars(e2) && WordChars(e3)
    ensures Entries(cwd, ".", [d + "/" + a + ".note." + e1, d + "/" + b + ".note." + e1, c + ".note." + e2, c + ".note." + e3]) ==
      [NoteFile(d + "/" + a + ".note." + e1, a, [d], e1), NoteFile(d + "/" + b + ".note." + e1, b, [d], e1),
       NoteFile(c + ".note." + e2, c, [], e2), NoteFile(c + ".note." + e3, c, [], e3)]
  {
    var q0, q1 := d + "/" + a + ".note." + e1, d + "/" + b + ".note." + e1;
    var q2, q3 := c + ".note." + e2, c + ".note." + e3;
    PairInDir(cwd, d, a, b, e1);
    PairAtTop(cwd, c, e2, e3);
    EntriesAppend(cwd, ".", [q0, q1], [q2, q3]);
    assert [q0, q1, q2, q3] == [q0, q1] + [q2, q3];
  }

  /** Two notes' files with the same extension in directory `d`. */
  lemma PairInDir(cwd: seq<string>, d: string, a: string, b: string, e: string)
    requires Canonical(cwd) && Canonical([d])
    requires '/' !in a && '/' !in b && WordChars(e)
    ensures Entries(cwd, ".", [d + "/" + a + ".note." + e, d + "/" + b + ".note." + e]) ==
      [NoteFile(d + "/" + a + ".note." + e, a, [d], e), NoteFile(d + "/" + b + ".note." + e, b, [d], e)]
  {
    SubDir(cwd, d);
    var p := d + "/";
    assert p[..|p| - 1] == d;
    FixtureFile(cwd, p, a, e, [d]);
    FixtureFile(cwd, p, b, e, [d]);
    EntriesPair(cwd, ".", d + "/" + a + ".note." + e, d + "/" + b + ".note." + e);
  }

  /** Two files of one note at the top. */
  lemma PairAtTop(cwd: seq<string>, c: string, e2: string, e3: string)
    requires Canonical(cwd)
    requires '/' !in c && WordChars(e2) && WordChars(e3)
    ensures Entries(cwd, ".", [c + ".note." + e2, c + ".note." + e3]) ==
      [NoteFile(c + ".note." + e2, c, [], e2), NoteFile(c + ".note." + e3, c, [], e3)]
  {
    TopDir(cwd);
    assert "" + c == c;
    FixtureFile(cwd, "", c, e2, []);
    FixtureFile(cwd, "", c, e3, []);
    EntriesPair(cwd, ".", c + ".note." + e2, c + ".note." + e3);
  }

  lemma EntriesOne(cwd: seq<string>, root: string, p: string)
    requires Canonical(cwd)
    ensures Entries(cwd, root, [p]) == [NoteFileOf(cwd, root, p)]
  {
  }

  /** The note files of two paths. */
  lemma EntriesPair(cwd: seq<string>, root: string, p0: string, p1: string)
    requires Canonical(cwd)
    ensures Entries(cwd, root, [p0, p1]) == [NoteFileOf(cwd, root, p0), NoteFileOf(cwd, root, p1)]
  {
    EntriesOne(cwd, root, p0);
    EntriesOne(cwd, root, p1);
    EntriesAppend(cwd, root, [p0], [p1]);
    assert [p0] + [p1] == [p0, p1];
  }

  lemma EntriesAppend(cwd: seq<string>, root: string, a: seq<string>, b: seq<string>)
    requires Canonical(cwd)
    ensures Entries(cwd, root, a + b) == Entries(cwd, root, a) + Entries(cwd, root, b)
  {
    var r, s := Entries(cwd, root, a + b), Entries(cwd, root, a) + Entries(cwd, root, b);
    var ea, eb := Entries(cwd, root, a), Entries(cwd, root, b);
    assert |ea| == |a| && s == ea + eb;
    forall i | 0 <= i < |a + b| ensures r[i] == s[i] {
      if i < |a| {
        assert (a + b)[i] == a[i];
        assert r[i] == NoteFileOf(cwd, root, a[i]) == ea[i];
        assert s[i] == ea[i];
      } else {
        assert (a + b)[i] == b[i - |a|];
        assert r[i] == NoteFileOf(cwd, root, b[i - |a|]) == eb[i - |a|];
        assert s[i] == (ea + eb)[i] == eb[i - |ea|];
      }
    }
  }

  /** Below the root `.`, the directory `d` is the one segment `d`. */
  lemma SubDir(cwd: seq<string>, d: string)
    requires Canonical(cwd) && Canonical([d])
    ensures DirSegments(cwd, ".", d) == [d]
  {
    assert Resolve(cwd, ".") == cwd by {
      assert Split(".", '/') == ["."] && ["."][1..] == [];
    }
    assert d != "" && d != "." && d != ".." && '/' !in d by {
      assert [d][0] == d;
    }
    assert Resolve(cwd, d) == cwd + [d] by {
      assert Split(d, '/') == [d] && [d][1..] == [];
      assert NormalizeSegments(cwd, [d], false) == NormalizeSegments(cwd + [d], [], false);
      assert !StartsWith(d, "/") by { assert d[0] != '/'; }
    }
    DirSegmentsAreRelative(cwd, ".", d);
  }

  /** Below the root `.`, the empty directory is the root itself. */
  lemma TopDir(cwd: seq<string>)
    requires Canonical(cwd)
    ensures DirSegments(cwd, ".", "") == []
  {
    assert Resolve(cwd, ".") == cwd by {
      assert Split(".", '/') == ["."] && ["."][1..] == [];
    }
    assert Resolve(cwd, "") == cwd + [] by {
      assert Split("", '/') == [""] && [""][1..] == [];
    }
    DirSegmentsAreRelative(cwd, ".", "");
  }

  /** One or more word characters. */
  predicate WordChars(s: string) {
    |s| > 0 && forall i :: 0 <= i < |s| ==> IsWordChar(s[i])
  }

  /** The grouping of the fixture files: `a`, `b` and `c`, with `c`'s two
      files merged. */
  lemma FixtureGathered()
    ensures Gathered(FixtureFiles) == Ok(Grouping(["a", "b", "c"], FixtureInfos))
  {
    var files := FixtureFiles;
    var g1 := Grouping(["a"], map["a" := NoteInfo("a", ["maths"], map["md" := "maths/a.note.md"])]);
    var g2 := Grouping(["a", "b"], g1.infos["b" := NoteInfo("b", ["maths"], map["md" := "maths/b.note.md"])]);
    var g3 := Grouping(["a", "b", "c"], g2.infos["c" := NoteInfo("c", [], map["typ" := "c.note.typ"])]);
    assert Gathered(files[..1]) == Ok(g1) by {
      assert files[..1][..0] == [];
      assert AddFile(Grouping([], map[]), files[0]) == g1;
    }
    assert Gathered(files[..2]) == Ok(g2) by {
      assert files[..2][..1] == files[..1];
      assert files[1].name !in g1.infos;
      assert AddFile(g1, files[1]) == g2;
    }
    assert Gathered(files[..3]) == Ok(g3) by {
      assert files[..3][..2] == files[..2];
      assert files[2].name !in g2.infos;
      assert AddFile(g2, files[2]) == g3;
    }
    assert files[..3] == files[..|files| - 1];
    assert files[3].name in g3.infos && g3.infos["c"].dir == files[3].dir;
    var g4 := Grouping(["a", "b", "c"], g2.infos["c" := NoteInfo("c", [], map["typ" := "c.note.typ", "pdf" := "c.note.pdf"])]);
    assert AddFile(g3, files[3]) == g4;
    assert Gathered(files) == Ok(g4);
  }

  /** The grouping of the fixture files, as given at `files` of each note. */
  const FixtureInfos: map<string, NoteInfo<string>> := map[
    "a" := NoteInfo("a", ["maths"], map["md" := "maths/a.note.md"]),
    "b" := NoteInfo("b", ["maths"], map["md" := "maths/b.note.md"]),
    "c" := NoteInfo("c", [], map["typ" := "c.note.typ", "pdf" := "c.note.pdf"])]

  /** The snapshot the test expects: `a` and `b` in `maths`, both Markdown,
      and `c` at the top with a Typst source and its PDF. */
  const FixtureSnapshot: map<string, LegacyNote> := map[
    "a" := LegacyNote("a", Some("Markdown"), ["maths"], map["md" := "maths/a.note.md"]),
    "b" := LegacyNote("b", Some("Markdown"), ["maths"], map["md" := "maths/b.note.md"]),
    "c" := LegacyNote("c", Some("Typst PDF"), [], map["typ" := "c.note.typ", "pdf" := "c.note.pdf"])]

  /** The labelling loop over the fixture's notes gives the snapshot. */
  lemma FixtureLabels()
    ensures (map n | n in FixtureInfos :: Labelled(FixtureInfos[n])) == FixtureSnapshot
  {
    MarkdownLabel("a", ["maths"], "maths/a.note.md");
    MarkdownLabel("b", ["maths"], "maths/b.note.md");
    TypstLabel();
    LabelledThree("a", "b", "c", FixtureInfos["a"], FixtureInfos["b"], FixtureInfos["c"]);
  }

  /** Labelling a three-note map labels each note. */
  lemma LabelledThree(k1: string, k2: string, k3: string, v1: NoteInfo<string>, v2: NoteInfo<string>, v3: NoteInfo<string>)
    requires k1 != k2 && k1 != k3 && k2 != k3
    ensures var infos := map[k1 := v1, k2 := v2, k3 := v3];
      (map n | n in infos :: Labelled(infos[n])) == map[k1 := Labelled(v1), k2 := Labelled(v2), k3 := Labelled(v3)]
  {
    var infos := map[k1 := v1, k2 := v2, k3 := v3];
    var m := map n | n in infos :: Labelled(infos[n]);
    var want := map[k1 := Labelled(v1), k2 := Labelled(v2), k3 := Labelled(v3)];
    assert m.Keys == want.Keys;
    forall k | k in m ensures m[k] == want[k] {
      assert k == k1 || k == k2 || k == k3;
    }
  }

  /** A note with only a Markdown file is labelled Markdown. */
  lemma MarkdownLabel(n: string, dir: seq<string>, path: string)
    ensures Labelled(NoteInfo(n, dir, map["md" := path])) == LegacyNote(n, Some("Markdown"), dir, map["md" := path])
  {
    assert map["md" := path].Keys == {"md"};
    LegacyKinds({"md"});
  }

  /** The fixture's Typst note, with its PDF, is labelled Typst PDF. */
  lemma TypstLabel()
    ensures Labelled(NoteInfo("c", [], map["typ" := "c.note.typ", "pdf" := "c.note.pdf"])) ==
      LegacyNote("c", Some("Typst PDF"), [], map["typ" := "c.note.typ", "pdf" := "c.note.pdf"])
  {
    assert map["typ" := "c.note.typ", "pdf" := "c.note.pdf"].Keys == {"typ", "pdf"};
    LegacyKinds({"typ", "pdf"});
  }

  /** As written, the snapshot test calls `detectNotes` without `options`,
      which fails on the first path. */
  lemma FixtureWithoutOptions(cwd: seq<string>)
    requires Canonical(cwd)
    ensures DetectedNotes(FixturePaths, None, cwd) == Err(MissingOptions)
  {
  }

  /** With the working directory as root the fixture gives the expected
      snapshot, in the order `a`, `b`, `c`. */
  lemma FixtureNotes(cwd: seq<string>)
    requires Canonical(cwd)
    ensures DetectedNotes(FixturePaths, Some("."), cwd) == Ok(Detected(["a", "b", "c"], FixtureSnapshot))
  {
    FixtureEntries(cwd);
    FixtureGathered();
    DetectedFrom(FixturePaths, ".", cwd, Grouping(["a", "b", "c"], FixtureInfos));
    FixtureLabels();
  }

  lemma DetectedFrom(paths: seq<string>, root: string, cwd: seq<string>, g: Grouping)
    requires Canonical(cwd) && Gathered(Entries(cwd, root, paths)) == Ok(g)
    ensures DetectedNotes(paths, Some(root), cwd) == Ok(Detected(g.order, map n | n in g.infos :: Labelled(g.infos[n])))
  {
  }

  /** One fixture path `<prefix><n>.note.<ext>` below the root `.`, with
      `dir` the segments of its directory. */
  lemma FixtureFile(cwd: seq<string>, prefix: string, n: string, ext: string, dir: seq<string>)
    requires Canonical(cwd)
    requires prefix == "" || prefix[|prefix| - 1] == '/'
    requires '/' !in n && WordChars(ext)
    requires DirSegments(cwd, ".", if prefix == "" then "" else if |prefix| == 1 then "/" else prefix[..|prefix| - 1]) == dir
    ensures NoteFileOf(cwd, ".", prefix + n + ".note." + ext) == NoteFile(prefix + n + ".note." + ext, n, dir, ext)
  {
    NoteFileOfShape(cwd, ".", prefix, n, ext);
    NoteFileDir(prefix, n, ext);
  }

  /** The directory `parse` gives for `<prefix><n>.note.<ext>`. */
  lemma NoteFileDir(prefix: string, n: string, ext: string)
    requires prefix == "" || prefix[|prefix| - 1] == '/'
    requires '/' !in n && |ext| > 0 && forall i :: 0 <= i < |ext| ==> IsWordChar(ext[i])
    ensures Parse(prefix + n + ".note." + ext).dir == if prefix == "" then "" else if |prefix| == 1 then "/" else prefix[..|prefix| - 1]
  {
    var base := n + ".note." + ext;
    assert prefix + n + ".note." + ext == prefix + base;
    assert '/' !in ext by {
      assert forall i :: 0 <= i < |ext| ==> ext[i] != '/';
    }
    NoteBaseName(n, ext);
    assert base[|base| - 1] == ext[|ext| - 1];
    ParseDir(prefix, base);
  }
}
