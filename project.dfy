/** `Project`: a source directory of notes analysed into notes, a folder
    tree and a reference graph, and built into one page per note. */
module Projects {
  import opened Wrappers
  import opened Errors
  import opened Strings
  import opened Paths
  import opened LazyFiles
  import opened NoteTypes
  import opened Notes
  import opened Assemble
  import opened Folders
  import opened CrossRefs

  /** `ProjectData`: the note files found, the notes by name (`order` is
      the order of their keys), the folder tree and the reference graph. */
  datatype ProjectData = ProjectData(
    files: seq<string>, order: seq<string>, notes: map<string, Note>, tree: Folder<Note>, refs: Graph)

  /** What `analysis` holds before the first analysis. */
  function NoData(): ProjectData {
    ProjectData([], [], map[], EmptyFolder(), Graph(map[], map[]))
  }

  /** `getNoteFiles` and `findNoteFiles`: of the paths the walk of the
      source directory yields, in order, those matching `/\.note\.\w+$/`. */
  function NoteFiles(walked: seq<string>): (r: seq<string>)
    ensures forall p :: p in r <==> p in walked && IsNoteFile(p)
    ensures |r| <= |walked|
    decreases |walked|
  {
    if |walked| == 0 then []
    else
      var rest := NoteFiles(walked[..|walked| - 1]);
      assert forall p :: p in walked <==> p in walked[..|walked| - 1] || p == walked[|walked| - 1];
      if IsNoteFile(walked[|walked| - 1]) then rest + [walked[|walked| - 1]] else rest
  }

  /** `Object.values(notes)`: the notes in key order. */
  function InOrder(order: seq<string>, notes: map<string, Note>): (r: seq<Note>)
    requires forall n :: n in order ==> n in notes
    ensures |r| == |order| && forall i :: 0 <= i < |order| ==> r[i] == notes[order[i]]
  {
    seq(|order|, i requires 0 <= i < |order| => notes[order[i]])
  }

  /** `refs[dir][name] ?? []`: a name's set, empty when it has none. */
  function Lookup(m: map<string, set<string>>, n: string): (r: set<string>)
    ensures n in m ==> r == m[n]
    ensures n !in m ==> r == {}
  {
    if n in m then m[n] else {}
  }

  /** `names.map((name) => notes[name])`. */
  function RefList(names: seq<string>, notes: map<string, Note>): (r: seq<Note>)
    requires forall k :: 0 <= k < |names| ==> names[k] in notes
    ensures |r| == |names| && forall k :: 0 <= k < |names| ==> r[k] == notes[names[k]]
  {
    seq(|names|, k requires 0 <= k < |names| => notes[names[k]])
  }

  /** `Array.from(m[n] ?? []).sort().map((name) => notes[name])`. */
  ghost function SortedRefs(m: map<string, set<string>>, n: string, notes: map<string, Note>): seq<Note>
    requires Lookup(m, n) <= notes.Keys
  {
    RefList(SortedSet(Lookup(m, n)), notes)
  }

  /** When every note is keyed by its own name, the sorted list of a name's
      references holds exactly the notes named in its set, each once, in
      ascending order of name. */
  lemma SortedRefsListed(m: map<string, set<string>>, n: string, notes: map<string, Note>)
    requires forall k :: k in notes ==> notes[k].name == k
    requires Lookup(m, n) <= notes.Keys
    ensures forall i, j :: 0 <= i < j < |SortedRefs(m, n, notes)| ==>
      Less(SortedRefs(m, n, notes)[i].name, SortedRefs(m, n, notes)[j].name)
    ensures forall x :: x in Lookup(m, n) <==> exists i :: 0 <= i < |SortedRefs(m, n, notes)| && SortedRefs(m, n, notes)[i].name == x
    ensures |SortedRefs(m, n, notes)| == |Lookup(m, n)|
  {
    var names := SortedSet(Lookup(m, n));
    var list := SortedRefs(m, n, notes);
    assert forall i :: 0 <= i < |list| ==> list[i].name == names[i];
    forall x | x in Lookup(m, n) ensures exists i :: 0 <= i < |list| && list[i].name == x {
      var i :| 0 <= i < |names| && names[i] == x;
      assert list[i].name == x;
    }
  }

  /** The notes a map holds. */
  function NoteObjects(notes: map<string, Note>): set<Note> {
    set n | n in notes :: notes[n]
  }

  /** A note's list of references in one direction. */
  function RefsIn(note: Note, outgoing: bool): seq<Note>
    reads note
  {
    if outgoing then note.outgoing else note.incoming
  }

  /** `note.refs[direction] = list`. */
  method SetRefsIn(note: Note, outgoing: bool, list: seq<Note>)
    modifies note
    ensures RefsIn(note, outgoing) == list && RefsIn(note, !outgoing) == old(RefsIn(note, !outgoing))
    ensures note.titleCache == old(note.titleCache) && note.urlCache == old(note.urlCache)
  {
    if outgoing {
      note.outgoing := list;
    } else {
      note.incoming := list;
    }
  }

  /** One round of the inner loop of `analyse`: the note at `i` gets its
      sorted list, and the notes before it keep theirs. */
  method SetNext(order: seq<string>, notes: map<string, Note>, m: map<string, set<string>>, outgoing: bool, i: nat)
    requires i < |order| && forall n :: n in order ==> n in notes && Lookup(m, n) <= notes.Keys
    requires forall a, b :: a in notes && b in notes && a != b ==> notes[a] != notes[b]
    requires forall j :: 0 <= j < i ==> RefsIn(notes[order[j]], outgoing) == SortedRefs(m, order[j], notes)
    modifies notes[order[i]]
    ensures forall j :: 0 <= j < i + 1 ==> RefsIn(notes[order[j]], outgoing) == SortedRefs(m, order[j], notes)
    ensures forall n :: n in notes ==> RefsIn(notes[n], !outgoing) == old(RefsIn(notes[n], !outgoing))
    ensures forall n :: n in notes ==>
      notes[n].titleCache == old(notes[n].titleCache) && notes[n].urlCache == old(notes[n].urlCache)
  {
    var names := SortStrings(Lookup(m, order[i]));
    SetRefsIn(notes[order[i]], outgoing, RefList(names, notes));
    forall j | 0 <= j < i + 1 ensures RefsIn(notes[order[j]], outgoing) == SortedRefs(m, order[j], notes) {
      if order[j] != order[i] {
        assert notes[order[j]] != notes[order[i]];
      }
    }
  }

  /** The inner loop of `analyse` for one direction, `outgoing` or
      `incoming`: each note's list in that direction becomes the notes its
      set in `m` names, sorted by name; the other direction and the caches
      are kept. */
  method SetDirection(order: seq<string>, notes: map<string, Note>, m: map<string, set<string>>, outgoing: bool)
    requires notes.Keys == set n | n in order
    requires forall n :: n in order ==> Lookup(m, n) <= notes.Keys
    requires forall a, b :: a in notes && b in notes && a != b ==> notes[a] != notes[b]
    modifies NoteObjects(notes)
    ensures forall n :: n in notes ==> RefsIn(notes[n], outgoing) == SortedRefs(m, n, notes)
    ensures forall n :: n in notes ==> RefsIn(notes[n], !outgoing) == old(RefsIn(notes[n], !outgoing))
    ensures forall n :: n in notes ==>
      notes[n].titleCache == old(notes[n].titleCache) && notes[n].urlCache == old(notes[n].urlCache)
  {
    for i := 0 to |order|
      invariant forall j :: 0 <= j < i ==> RefsIn(notes[order[j]], outgoing) == SortedRefs(m, order[j], notes)
      invariant forall n :: n in notes ==> RefsIn(notes[n], !outgoing) == old(RefsIn(notes[n], !outgoing))
      invariant forall n :: n in notes ==>
        notes[n].titleCache == old(notes[n].titleCache) && notes[n].urlCache == old(notes[n].urlCache)
    {
      SetNext(order, notes, m, outgoing, i);
    }
    forall n | n in notes ensures RefsIn(notes[n], outgoing) == SortedRefs(m, n, notes) {
      var j :| 0 <= j < |order| && order[j] == n;
    }
  }

  /** The loops of `analyse` over the two directions: each note's
      `refs.outgoing` and `refs.incoming` become the notes its graph sets
      name, sorted by name. */
  method SetRefs(order: seq<string>, notes: map<string, Note>, g: Graph)
    requires notes.Keys == set n | n in order
    requires forall n :: n in order ==> Lookup(g.outgoing, n) <= notes.Keys && Lookup(g.incoming, n) <= notes.Keys
    requires forall a, b :: a in notes && b in notes && a != b ==> notes[a] != notes[b]
    modifies NoteObjects(notes)
    ensures forall n :: n in notes ==>
      notes[n].outgoing == SortedRefs(g.outgoing, n, notes) && notes[n].incoming == SortedRefs(g.incoming, n, notes)
  {
    SetDirection(order, notes, g.outgoing, true);
    SetDirection(order, notes, g.incoming, false);
  }

  /** What an analysis of the files `walked` in file system `fs` gives: the
      matching files; the notes they assemble into, each of the class its
      extensions pick; the tree of those notes; and the graph of the
      references the file system's texts hold. */
  predicate Analysed(d: ProjectData, srcDir: string, types: seq<NoteType>, walked: seq<string>, cwd: seq<string>, fs: FileSystem)
    requires Canonical(cwd)
  {
    d.files == NoteFiles(walked) &&
    var g := Group(Entries(cwd, srcDir, d.files));
    d.order == g.order && d.notes.Keys == g.infos.Keys &&
    (forall n :: n in d.order ==> n in d.notes) &&
    (forall n :: n in d.notes ==> MadeFrom(d.notes[n], g.infos[n], DetectedType(types, g.infos[n].files.Keys))) &&
    d.tree == Tree(Placements(d.order, d.notes)) &&
    BuildGraph(FsSnapshot(InOrder(d.order, d.notes), fs), d.notes.Keys) == Ok(d.refs)
  }

  /** Each note's references are the notes its graph sets name, sorted. */
  ghost predicate RefsListed(d: ProjectData)
    reads NoteObjects(d.notes)
  {
    forall n :: n in d.notes ==>
      Lookup(d.refs.outgoing, n) <= d.notes.Keys && d.notes[n].outgoing == SortedRefs(d.refs.outgoing, n, d.notes) &&
      Lookup(d.refs.incoming, n) <= d.notes.Keys && d.notes[n].incoming == SortedRefs(d.refs.incoming, n, d.notes)
  }

  /** What `renderPage` is given: a string, or a JSX element (its markup
      stands for what rendering it would give). */
  datatype Page = Text(html: string) | Element(markup: string)

  /** `renderPage`: strings are written as they are, elements after the
      doctype. */
  function PageHtml(p: Page): string {
    match p
    case Text(html) => html
    case Element(markup) => "<!DOCTYPE html>" + markup
  }

  /** What the default `render` of `Note` returns around the inspected
      note `inspected`: a template string in `src/note.ts`, an element in
      `src/analyse.tsx`. */
  function DefaultRender(rev: Revision, inspected: string): (p: Page)
    ensures p.Text? <==> rev == Modular
    ensures rev == Modular ==>
      p.html == "\n\t\tThis page was generated by the default note renderer.\n\t\t<pre>" + inspected + "</pre>\n\t\t"
  {
    if rev == Modular then Text("\n\t\tThis page was generated by the default note renderer.\n\t\t<pre>" + inspected + "</pre>\n\t\t")
    else Element("<main>This page was generated by the default note renderer.<pre>" + inspected + "</pre></main>")
  }

  /** The page of a classified note is its theme's, which may throw (the
      minimal theme's url note reads its url); an unclassified note gets the
      default one, which does not. */
  function NotePage(rev: Revision, render: (NoteType, string) -> Result<Page, Error>, inspect: string -> string,
                    kind: NoteType, name: string): (r: Result<Page, Error>)
    ensures kind == BaseNote ==> r == Ok(DefaultRender(rev, inspect(name)))
    ensures kind != BaseNote ==> r == render(kind, name)
  {
    if kind == BaseNote then Ok(DefaultRender(rev, inspect(name))) else render(kind, name)
  }

  /** The default renderer's page is written without a doctype by the
      modular revision and with one by the bundled one. */
  lemma DefaultPageDoctype(rev: Revision, inspected: string)
    ensures rev == Modular ==> PageHtml(DefaultRender(rev, inspected)) == DefaultRender(rev, inspected).html
    ensures rev == Bundled ==> StartsWith(PageHtml(DefaultRender(rev, inspected)), "<!DOCTYPE html>")
  {
  }

  /** The outcome of rendering every note, in key order. */
  function Pages(rev: Revision, render: (NoteType, string) -> Result<Page, Error>, inspect: string -> string,
                 order: seq<string>, notes: map<string, Note>): (r: seq<Result<Page, Error>>)
    requires forall n :: n in order ==> n in notes
    ensures |r| == |order| && forall i :: 0 <= i < |order| ==> r[i] == NotePage(rev, render, inspect, notes[order[i]].kind, order[i])
  {
    seq(|order|, i requires 0 <= i < |order| => NotePage(rev, render, inspect, notes[order[i]].kind, order[i]))
  }

  /** How many renders succeed before the first that throws. */
  function OkCount(rs: seq<Result<Page, Error>>): (n: nat)
    ensures n <= |rs| && (forall i :: 0 <= i < n ==> rs[i].Ok?) && (n < |rs| ==> rs[n].Err?)
  {
    if |rs| == 0 || rs[0].Err? then 0 else 1 + OkCount(rs[1..])
  }

  /** The pages of the first `n` renders, all of which succeeded. */
  function PagesOf(rs: seq<Result<Page, Error>>, n: nat): (r: seq<Page>)
    requires n <= |rs| && forall i :: 0 <= i < n ==> rs[i].Ok?
    ensures |r| == n && forall i :: 0 <= i < n ==> Ok(r[i]) == rs[i]
  {
    seq(n, i requires 0 <= i < n => rs[i].value)
  }

  /** The file system effects of `build`, in order. */
  datatype Action =
    | EmptyDir(path: string)
    | CopyTree(src: string, dest: string)
    | Write(page: string, html: string)

  /** `index.html`, then `<name>.html` for every note in key order. */
  function PageWrites(index: Page, order: seq<string>, pages: seq<Page>): (r: seq<Action>)
    requires |pages| == |order|
    ensures |r| == |order| + 1
    ensures r[0] == Write("index.html", PageHtml(index))
    ensures forall i :: 0 <= i < |order| ==>
      r[i + 1] == Write(HtmlName(order[i]), PageHtml(pages[i]))
  {
    [Write("index.html", PageHtml(index))] +
    seq(|order|, i requires 0 <= i < |order| =>
      Write(HtmlName(order[i]), PageHtml(pages[i])))
  }

  /** Appending the write of the last note's page. */
  lemma PageWritesSnoc(index: Page, order: seq<string>, pages: seq<Page>)
    requires |pages| == |order| > 0
    ensures PageWrites(index, order, pages) ==
      PageWrites(index, order[..|order| - 1], pages[..|order| - 1]) +
      [Write(HtmlName(order[|order| - 1]), PageHtml(pages[|order| - 1]))]
  {
  }

  /** One more successful render adds the write of its page. */
  lemma PageWritesStep(index: Page, order: seq<string>, rs: seq<Result<Page, Error>>, i: nat)
    requires i < |order| == |rs| && forall j :: 0 <= j <= i ==> rs[j].Ok?
    ensures PageWrites(index, order[..i + 1], PagesOf(rs, i + 1)) ==
      PageWrites(index, order[..i], PagesOf(rs, i)) + [Write(HtmlName(order[i]), PageHtml(rs[i].value))]
  {
    var pages := PagesOf(rs, i + 1);
    PageWritesSnoc(index, order[..i + 1], pages);
    assert order[..i + 1][..i] == order[..i];
    assert pages[..i] == PagesOf(rs, i);
  }

  /** The first render that throws ends the run of successful ones. */
  lemma OkCountAt(rs: seq<Result<Page, Error>>, i: nat)
    requires i < |rs| && rs[i].Err? && forall j :: 0 <= j < i ==> rs[j].Ok?
    ensures OkCount(rs) == i
  {
  }

  /** The site the writes leave behind: each page name holds the last text
      written to it. */
  function Site(actions: seq<Action>): map<string, string>
    decreases |actions|
  {
    if |actions| == 0 then map[]
    else
      var last := actions[|actions| - 1];
      var site := Site(actions[..|actions| - 1]);
      if last.Write? then site[last.page := last.html] else site
  }

  lemma SiteSnoc(actions: seq<Action>, a: Action)
    ensures Site(actions + [a]) == if a.Write? then Site(actions)[a.page := a.html] else Site(actions)
  {
    assert (actions + [a])[..|actions|] == actions;
  }

  /** The page names of the notes. */
  function HtmlNames(order: seq<string>): set<string> {
    set i | 0 <= i < |order| :: HtmlName(order[i])
  }

  lemma HtmlNamesSnoc(order: seq<string>)
    requires |order| > 0
    ensures HtmlNames(order) == HtmlNames(order[..|order| - 1]) + {HtmlName(order[|order| - 1])}
  {
    var front := order[..|order| - 1];
    forall x | x in HtmlNames(order) ensures x in HtmlNames(front) + {HtmlName(order[|order| - 1])} {
      var i :| 0 <= i < |order| && x == HtmlName(order[i]);
      if i < |front| {
        assert x == HtmlName(front[i]);
      }
    }
    forall x | x in HtmlNames(front) ensures x in HtmlNames(order) {
      var i :| 0 <= i < |front| && x == HtmlName(front[i]);
      assert x == HtmlName(order[i]);
    }
  }

  /** The writes of a build leave `index.html` and the page of every note,
      and nothing else. */
  lemma {:induction false} SiteKeys(index: Page, order: seq<string>, pages: seq<Page>)
    requires |pages| == |order|
    ensures Site(PageWrites(index, order, pages)).Keys == {"index.html"} + HtmlNames(order)
    decreases |order|
  {
    if |order| == 0 {
      var w := PageWrites(index, order, pages);
      assert w == [] + [w[0]];
      SiteSnoc([], w[0]);
      assert HtmlNames(order) == {};
    } else {
      var k := |order| - 1;
      SiteKeys(index, order[..k], pages[..k]);
      PageWritesSnoc(index, order, pages);
      SiteSnoc(PageWrites(index, order[..k], pages[..k]), Write(HtmlName(order[k]), PageHtml(pages[k])));
      HtmlNamesSnoc(order);
    }
  }

  /** After the writes of a build, the page of every note holds that note's
      page. */
  lemma {:induction false} SiteNotePages(index: Page, order: seq<string>, pages: seq<Page>)
    requires |pages| == |order| && Distinct(order)
    ensures forall i :: 0 <= i < |order| ==> HtmlName(order[i]) in Site(PageWrites(index, order, pages))
    ensures forall i :: 0 <= i < |order| ==> Site(PageWrites(index, order, pages))[HtmlName(order[i])] == PageHtml(pages[i])
    decreases |order|
  {
    if |order| > 0 {
      var k := |order| - 1;
      var front := order[..k];
      var wf := PageWrites(index, front, pages[..k]);
      var site := Site(PageWrites(index, order, pages));
      assert site == Site(wf)[HtmlName(order[k]) := PageHtml(pages[k])] by {
        PageWritesSnoc(index, order, pages);
        SiteSnoc(wf, Write(HtmlName(order[k]), PageHtml(pages[k])));
      }
      assert forall a, b :: 0 <= a < b < |front| ==> front[a] != front[b];
      SiteNotePages(index, front, pages[..k]);
      forall i | 0 <= i < |order|
        ensures HtmlName(order[i]) in site && site[HtmlName(order[i])] == PageHtml(pages[i])
      {
        if i < k {
          HtmlNamesDiffer(order[i], order[k]);
          assert front[i] == order[i] && pages[..k][i] == pages[i];
          assert HtmlName(front[i]) in Site(wf);
        }
      }
    }
  }

  /** `index.html` holds the index page unless a note is named `index`, whose
      page then replaces it. */
  lemma {:induction false} SiteIndexPage(index: Page, order: seq<string>, pages: seq<Page>)
    requires |pages| == |order|
    ensures "index.html" in Site(PageWrites(index, order, pages))
    ensures "index" !in order ==> Site(PageWrites(index, order, pages))["index.html"] == PageHtml(index)
    decreases |order|
  {
    if |order| == 0 {
      var w := PageWrites(index, order, pages);
      assert w == [] + [w[0]];
      SiteSnoc([], w[0]);
      assert Site(w) == map["index.html" := PageHtml(index)];
    } else {
      var k := |order| - 1;
      SiteIndexPage(index, order[..k], pages[..k]);
      var prev := Site(PageWrites(index, order[..k], pages[..k]));
      SitePageWritesSnoc(index, order, pages);
      if "index" !in order {
        assert order[k] != "index";
        HtmlNamesDiffer("index", order[k]);
        IndexHtmlName();
        assert HtmlName(order[k]) != "index.html";
        assert "index" !in order[..k];
        assert prev["index.html"] == PageHtml(index);
        assert Site(PageWrites(index, order, pages))["index.html"] == prev["index.html"];
      }
    }
  }

  /** The last note's page is the last write. */
  lemma SitePageWritesSnoc(index: Page, order: seq<string>, pages: seq<Page>)
    requires |pages| == |order| > 0
    ensures var k := |order| - 1;
      Site(PageWrites(index, order, pages)) == Site(PageWrites(index, order[..k], pages[..k]))[HtmlName(order[k]) := PageHtml(pages[k])]
  {
    var k := |order| - 1;
    PageWritesSnoc(index, order, pages);
    var before, w := PageWrites(index, order[..k], pages[..k]), Write(HtmlName(order[k]), PageHtml(pages[k]));
    SiteSnoc(before, w);
    assert PageWrites(index, order, pages) == before + [w];
  }

  /** The page of a note named `index` is `index.html`. */
  lemma IndexHtmlName()
    ensures HtmlName("index") == "index.html"
  {
  }

  /** `${name}.html`: the page of note `name`. */
  function HtmlName(name: string): string {
    name + ".html"
  }

  /** Different names give different page names. */
  lemma HtmlNamesDiffer(a: string, b: string)
    requires a != b
    ensures HtmlName(a) != HtmlName(b)
  {
    if |a| == |b| {
      var i :| 0 <= i < |a| && a[i] != b[i];
      assert (HtmlName(a))[i] == a[i];
      assert (HtmlName(b))[i] == b[i];
    } else {
      assert |HtmlName(a)| != |HtmlName(b)|;
    }
  }

  /** The notes are keyed by their own names, each listed once in `order`,
      and no two keys share a note. */
  predicate Keyed(order: seq<string>, notes: map<string, Note>) {
    notes.Keys == (set n | n in order) && Distinct(order) &&
    (forall n :: n in notes ==> notes[n].name == n) &&
    (forall a, b :: a in notes && b in notes && a != b ==> notes[a] != notes[b])
  }

  /** `order` and `notes` are the notes the files `paths` assemble into, each
      of the class its extensions pick. */
  predicate Assembled(order: seq<string>, notes: map<string, Note>, cwd: seq<string>, srcDir: string, types: seq<NoteType>, paths: seq<string>)
    requires Canonical(cwd)
  {
    var g := Group(Entries(cwd, srcDir, paths));
    order == g.order && notes.Keys == g.infos.Keys &&
    forall n :: n in notes ==> MadeFrom(notes[n], g.infos[n], DetectedType(types, g.infos[n].files.Keys))
  }

  /** Notes taken one for one from a grouping, with its names, are keyed by
      name. */
  lemma GroupKeyed(files: seq<NoteFile>, order: seq<string>, notes: map<string, Note>)
    requires order == Group(files).order && notes.Keys == Group(files).infos.Keys
    requires forall n :: n in notes ==> notes[n].name == Group(files).infos[n].name
    requires forall a, b :: a in notes && b in notes && a != b ==> notes[a] != notes[b]
    ensures Keyed(order, notes)
  {
    GroupNames(files);
    GroupDirs(files);
  }

  /** The files of the notes in key order are files of the notes. */
  lemma FilesOfInOrder(order: seq<string>, notes: map<string, Note>)
    requires forall n :: n in order ==> n in notes
    ensures forall o :: o in FilesOf(InOrder(order, notes)) ==> exists n :: n in notes && o in notes[n].files.Values
  {
    var ns := InOrder(order, notes);
    forall o | o in FilesOf(ns) ensures exists n :: n in notes && o in notes[n].files.Values {
      var i, f :| 0 <= i < |ns| && f in ns[i].files.Values && o == f;
      assert ns[i] == notes[order[i]];
    }
  }

  /** The first half of `analyse`: the note files assembled into new notes
      whose files have not been read yet. */
  method Collect(rev: Revision, cwd: seq<string>, srcDir: string, types: seq<NoteType>, paths: seq<string>)
    returns (order: seq<string>, notes: map<string, Note>)
    requires Canonical(cwd)
    ensures Assembled(order, notes, cwd, srcDir, types, paths)
    ensures Keyed(order, notes)
    ensures forall n :: n in notes ==> fresh(notes[n])
    ensures forall n, f :: n in notes && f in notes[n].files.Values ==> f.cache == None
    ensures fresh(NoteObjects(notes)) && fresh(FilesOf(InOrder(order, notes)))
  {
    order, notes := NotesFromFiles(rev, cwd, srcDir, types, paths);
    ghost var g := Group(Entries(cwd, srcDir, paths));
    forall n | n in notes ensures notes[n].name == g.infos[n].name {
      assert MadeFrom(notes[n], g.infos[n], DetectedType(types, g.infos[n].files.Keys));
    }
    GroupKeyed(Entries(cwd, srcDir, paths), order, notes);
    forall n, f | n in notes && f in notes[n].files.Values ensures f.cache == None {
      var e :| e in notes[n].files && notes[n].files[e] == f;
    }
    FilesOfInOrder(order, notes);
  }

  /** Before the graph is built: the notes in key order carry the names of
      `notes`, and with nothing read yet their references are those of the
      file system's texts. */
  lemma LinkReady(order: seq<string>, notes: map<string, Note>, fs: FileSystem)
    requires Keyed(order, notes)
    requires forall n, f :: n in notes && f in notes[n].files.Values ==> f.cache == None
    ensures NamesOf(InOrder(order, notes)) == notes.Keys
    ensures Snapshot(InOrder(order, notes), fs) == FsSnapshot(InOrder(order, notes), fs)
  {
    var ns := InOrder(order, notes);
    assert NamesOf(ns) == notes.Keys by {
      forall n | n in notes ensures n in NamesOf(ns) {
        var i :| 0 <= i < |order| && order[i] == n;
        assert ns[i].name == n;
      }
    }
    forall i, f | 0 <= i < |ns| && f in ns[i].files.Values
      ensures f.Current(fs) == ReadFs(fs, f.path)
    {
      assert order[i] in notes;
    }
    SnapshotFromFs(ns, fs);
  }

  /** A built graph of the notes in key order names only notes. */
  lemma LinkedNamesKnown(order: seq<string>, notes: map<string, Note>, es: seq<Extracted>, g: Graph)
    requires Keyed(order, notes)
    requires |es| == |order| && forall i :: 0 <= i < |es| ==> es[i].name == order[i]
    requires BuildGraph(es, notes.Keys) == Ok(g)
    ensures forall n :: n in order ==> Lookup(g.outgoing, n) <= notes.Keys && Lookup(g.incoming, n) <= notes.Keys
  {
    EntriesKeyed(order, notes, es);
    GraphNamesKnown(es, notes.Keys);
  }

  /** The snapshot of the notes in key order is named by the keys. */
  lemma SnapshotNames(order: seq<string>, notes: map<string, Note>, fs: FileSystem)
    requires Keyed(order, notes)
    ensures var es := FsSnapshot(InOrder(order, notes), fs);
      |es| == |order| && forall i :: 0 <= i < |es| ==> es[i].name == order[i]
  {
    var ns := InOrder(order, notes);
    forall i | 0 <= i < |order| ensures FsSnapshot(ns, fs)[i].name == order[i] {
      assert ns[i] == notes[order[i]];
    }
  }

  /** Entries named as the notes in key order carry the notes' names, each
      once. */
  lemma EntriesKeyed(order: seq<string>, notes: map<string, Note>, es: seq<Extracted>)
    requires Keyed(order, notes)
    requires |es| == |order| && forall i :: 0 <= i < |es| ==> es[i].name == order[i]
    ensures EntryNames(es) == notes.Keys && CrossRefs.DistinctNames(es)
  {
    forall n | n in notes ensures n in EntryNames(es) {
      var i :| 0 <= i < |order| && order[i] == n;
      assert es[i].name == n;
      EntryNamesMember(es, n);
    }
    forall n | n in EntryNames(es) ensures n in notes {
      EntryNamesMember(es, n);
    }
  }


  /** The second half of `analyse`: the graph of the references the
      file system's texts hold, and each note's lists set from it. */
  method Link(order: seq<string>, notes: map<string, Note>, fs: FileSystem) returns (graph: Result<Graph, Error>)
    requires Keyed(order, notes)
    requires forall n, f :: n in notes && f in notes[n].files.Values ==> f.cache == None
    modifies FilesOf(InOrder(order, notes)), NoteObjects(notes)
    ensures graph == BuildGraph(FsSnapshot(InOrder(order, notes), fs), notes.Keys)
    ensures graph.Ok? ==> RefsListed(ProjectData([], order, notes, EmptyFolder(), graph.value))
  {
    LinkReady(order, notes, fs);
    graph := GetCrossrefGraph(InOrder(order, notes), fs);
    if graph.Err? {
      return;
    }
    SnapshotNames(order, notes, fs);
    LinkedNamesKnown(order, notes, FsSnapshot(InOrder(order, notes), fs), graph.value);
    SetRefs(order, notes, graph.value);
  }

  /** The start of `build`: the build directory is emptied, then each
      asset path is copied to its place below it. */
  method Prepare(buildDir: string, copyPaths: seq<(string, string)>) returns (actions: seq<Action>)
    ensures |actions| == 1 + |copyPaths| && actions[0] == EmptyDir(buildDir)
    ensures forall i :: 0 <= i < |copyPaths| ==> actions[i + 1] == CopyTree(copyPaths[i].0, JoinPaths(buildDir, copyPaths[i].1))
  {
    actions := [EmptyDir(buildDir)];
    for i := 0 to |copyPaths|
      invariant |actions| == 1 + i && actions[0] == EmptyDir(buildDir)
      invariant forall j :: 0 <= j < i ==> actions[j + 1] == CopyTree(copyPaths[j].0, JoinPaths(buildDir, copyPaths[j].1))
    {
      actions := actions + [CopyTree(copyPaths[i].0, JoinPaths(buildDir, copyPaths[i].1))];
    }
  }

  /** The end of `build`: the index page, then the page of every note in
      key order. The first page whose render throws stops the loop: the
      pages before it are written, it and those after it are not, and its
      name and error are returned. */
  method WritePages(rev: Revision, render: (NoteType, string) -> Result<Page, Error>, inspect: string -> string,
                    index: Page, order: seq<string>, notes: map<string, Note>) returns (actions: seq<Action>, failed: Option<(string, Error)>)
    requires forall n :: n in order ==> n in notes
    ensures var rs := Pages(rev, render, inspect, order, notes); var n := OkCount(rs);
      actions == PageWrites(index, order[..n], PagesOf(rs, n)) &&
      (failed.None? <==> n == |order|) &&
      (failed.Some? ==> failed.value == (order[n], rs[n].error))
  {
    ghost var rs := Pages(rev, render, inspect, order, notes);
    actions := [Write("index.html", PageHtml(index))];
    for i := 0 to |order|
      invariant forall j :: 0 <= j < i ==> rs[j].Ok?
      invariant actions == PageWrites(index, order[..i], PagesOf(rs, i))
    {
      var name := order[i];
      var page := NotePage(rev, render, inspect, notes[name].kind, name);
      assert page == rs[i];
      if page.Err? {
        OkCountAt(rs, i);
        return actions, Some((name, page.error));
      }
      PageWritesStep(index, order, rs, i);
      actions := actions + [Write(HtmlName(name), PageHtml(page.value))];
    }
    assert order[..|order|] == order;
    failed := None;
  }

  /** How `build` ends: the analysis threw, the index page or a note's
      page threw while rendering, or every page was written. */
  datatype BuildOutcome =
    | AnalysisFailed(error: Error)
    | IndexFailed(data: ProjectData, error: Error)
    | PageFailed(data: ProjectData, name: string, error: Error)
    | Built(data: ProjectData)

  class Project {
    /** Which revision of the program the project follows. */
    const rev: Revision
    /** Directory holding the note files. */
    const srcDir: string
    /** Output directory of the static site. */
    const buildDir: string
    /** `copyPaths` in key order: each source path and where it goes below
        `buildDir`. */
    const copyPaths: seq<(string, string)>
    /** The theme's `ROOT`. */
    const urlRoot: string
    /** The theme's note classes, in order. */
    const noteTypes: seq<NoteType>
    /** What the last successful analysis found. */
    var analysis: ProjectData

    constructor(rev: Revision, srcDir: string, buildDir: string, copyPaths: seq<(string, string)>, urlRoot: string, noteTypes: seq<NoteType>)
      ensures this.rev == rev && this.srcDir == srcDir && this.buildDir == buildDir && this.copyPaths == copyPaths
      ensures this.urlRoot == urlRoot && this.noteTypes == noteTypes
      ensures analysis == NoData()
    {
      this.rev := rev;
      this.srcDir := srcDir;
      this.buildDir := buildDir;
      this.copyPaths := copyPaths;
      this.urlRoot := urlRoot;
      this.noteTypes := noteTypes;
      analysis := NoData();
    }

    /** `analyse`: `walk` stands for the directory walk, which lists the
        files below a directory. On success the analysis is replaced as a
        whole; when the graph cannot be built the old analysis stays. */
    method Analyse(walk: string -> seq<string>, cwd: seq<string>, fs: FileSystem) returns (r: Result<ProjectData, Error>)
      requires Canonical(cwd)
      modifies this
      ensures r.Ok? ==> analysis == r.value && Analysed(r.value, srcDir, noteTypes, walk(StripTrailingSlash(srcDir)), cwd, fs)
      ensures r.Ok? ==> RefsListed(r.value)
      ensures r.Err? ==> analysis == old(analysis)
    {
      var files := NoteFiles(walk(StripTrailingSlash(srcDir)));
      var order, notes := Collect(rev, cwd, srcDir, noteTypes, files);
      var tree := NotesByFolder(order, notes);
      var graph := Link(order, notes, fs);
      if graph.Err? {
        return Err(graph.error);
      }
      var data := ProjectData(files, order, notes, tree, graph.value);
      assert RefsListed(data);
      analysis := data;
      r := Ok(data);
    }

    /** `build`: the build directory is emptied and the assets copied before
        the analysis; if the analysis fails nothing is written. Otherwise
        `index.html` is written first, then one page per note in key order,
        until a render throws. `indexPage` and `render` stand for the theme,
        `inspect` for `Deno.inspect`. */
    method Build(walk: string -> seq<string>, cwd: seq<string>, fs: FileSystem,
                 indexPage: ProjectData -> Result<Page, Error>, render: (NoteType, string) -> Result<Page, Error>,
                 inspect: string -> string)
      returns (actions: seq<Action>, r: BuildOutcome)
      requires Canonical(cwd)
      modifies this
      ensures |actions| >= 1 + |copyPaths| && actions[0] == EmptyDir(buildDir)
      ensures forall i :: 0 <= i < |copyPaths| ==> actions[i + 1] == CopyTree(copyPaths[i].0, JoinPaths(buildDir, copyPaths[i].1))
      ensures r.AnalysisFailed? ==> |actions| == 1 + |copyPaths| && analysis == old(analysis)
      ensures !r.AnalysisFailed? ==>
        analysis == r.data && Analysed(r.data, srcDir, noteTypes, walk(StripTrailingSlash(srcDir)), cwd, fs) && RefsListed(r.data)
      ensures r.IndexFailed? ==> |actions| == 1 + |copyPaths| && indexPage(r.data) == Err(r.error)
      ensures r.PageFailed? || r.Built? ==>
        indexPage(r.data).Ok? &&
        var rs := Pages(rev, render, inspect, r.data.order, r.data.notes); var n := OkCount(rs);
        actions[1 + |copyPaths|..] == PageWrites(indexPage(r.data).value, r.data.order[..n], PagesOf(rs, n)) &&
        (r.Built? <==> n == |rs|) &&
        (r.PageFailed? ==> r.name == r.data.order[n] && r.error == rs[n].error)
    {
      actions := Prepare(buildDir, copyPaths);
      var a := Analyse(walk, cwd, fs);
      if a.Err? {
        return actions, AnalysisFailed(a.error);
      }
      var data := a.value;
      var index := indexPage(data);
      if index.Err? {
        return actions, IndexFailed(data, index.error);
      }
      var writes, failed := WritePages(rev, render, inspect, index.value, data.order, data.notes);
      actions := actions + writes;
      assert actions[1 + |copyPaths|..] == writes;
      if failed.Some? {
        r := PageFailed(data, failed.value.0, failed.value.1);
      } else {
        r := Built(data);
      }
    }
  }
}
