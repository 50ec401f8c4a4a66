/** `getCrossrefGraph`: the graph of references between notes, checked
    against the names of the notes. */
module CrossRefs {
  import opened Wrappers
  import opened Errors
  import opened LazyFiles
  import opened Notes

  /** `CrossRefs`: the names each note refers to, and the names of the
      notes referring to each note. */
  datatype Graph = Graph(outgoing: map<string, set<string>>, incoming: map<string, set<string>>)

  /** A note's name and what its `extractRefs` gave. */
  datatype Extracted = Extracted(name: string, refs: Result<set<string>, Error>)

  /** The inner loop: `name` is added to the incoming set of every name in
      `refs`, an absent set being created empty first. */
  function AddIncoming(incoming: map<string, set<string>>, name: string, refs: set<string>): map<string, set<string>> {
    map k | k in incoming.Keys + refs :: (if k in incoming then incoming[k] else {}) + (if k in refs then {name} else {})
  }

  /** The outer loop over the notes in order; the first note whose
      references cannot be read, or name an unknown note, stops it. */
  function BuildGraph(es: seq<Extracted>, allNames: set<string>): Result<Graph, Error>
    decreases |es|
  {
    if |es| == 0 then Ok(Graph(map[], map[]))
    else
      var e := es[|es| - 1];
      match BuildGraph(es[..|es| - 1], allNames)
      case Err(err) => Err(err)
      case Ok(g) =>
        match e.refs
        case Err(err) => Err(err)
        case Ok(refs) =>
          if refs - allNames != {} then Err(UnknownRefs(e.name, refs - allNames))
          else Ok(Graph(g.outgoing[e.name := refs], AddIncoming(g.incoming, e.name, refs)))
  }

  /** The references of `e` were read and all name known notes. */
  predicate Valid(e: Extracted, allNames: set<string>) {
    e.refs.Ok? && e.refs.value <= allNames
  }

  /** The error an invalid entry raises. */
  function ErrorOf(e: Extracted, allNames: set<string>): Error
    requires !Valid(e, allNames)
  {
    if e.refs.Err? then e.refs.error else UnknownRefs(e.name, e.refs.value - allNames)
  }

  /** `es[i]` is the first entry that is not valid. */
  predicate FirstInvalid(es: seq<Extracted>, allNames: set<string>, i: int) {
    0 <= i < |es| && !Valid(es[i], allNames) && forall j :: 0 <= j < i ==> Valid(es[j], allNames)
  }

  /** The graph is built exactly when every note's references were read and
      are known names; otherwise the first offending note's error is
      raised. */
  lemma {:induction false} GraphValidation(es: seq<Extracted>, allNames: set<string>)
    ensures BuildGraph(es, allNames).Ok? <==> forall i :: 0 <= i < |es| ==> Valid(es[i], allNames)
    ensures BuildGraph(es, allNames).Err? ==>
      exists i :: FirstInvalid(es, allNames, i) && BuildGraph(es, allNames).error == ErrorOf(es[i], allNames)
    decreases |es|
  {
    if |es| > 0 {
      var front := es[..|es| - 1];
      assert forall j :: 0 <= j < |front| ==> front[j] == es[j];
      GraphValidation(front, allNames);
      if BuildGraph(front, allNames).Err? {
        var i :| FirstInvalid(front, allNames, i) && BuildGraph(front, allNames).error == ErrorOf(front[i], allNames);
        assert FirstInvalid(es, allNames, i);
      } else if !Valid(es[|es| - 1], allNames) {
        var e := es[|es| - 1];
        if e.refs.Ok? {
          var x :| x in e.refs.value && x !in allNames;
          assert x in e.refs.value - allNames;
        }
        assert FirstInvalid(es, allNames, |es| - 1);
      } else {
        assert BuildGraph(es, allNames).Ok?;
      }
    }
  }

  /** Once a prefix fails, the whole fails with the same error: later
      notes are not looked at. */
  lemma {:induction false} ErrorStops(es: seq<Extracted>, k: nat, allNames: set<string>)
    requires k <= |es| && BuildGraph(es[..k], allNames).Err?
    ensures BuildGraph(es, allNames) == BuildGraph(es[..k], allNames)
    decreases |es| - k
  {
    if k < |es| {
      var front := es[..|es| - 1];
      assert front[..k] == es[..k];
      ErrorStops(front, k, allNames);
    } else {
      assert es[..k] == es;
    }
  }

  /** The references an entry holds, none for a failed one. */
  function RefsOf(e: Extracted): set<string> {
    if e.refs.Ok? then e.refs.value else {}
  }

  predicate DistinctNames(es: seq<Extracted>) {
    forall i, j :: 0 <= i < j < |es| ==> es[i].name != es[j].name
  }

  /** The names of the entries. */
  function EntryNames(es: seq<Extracted>): set<string>
    decreases |es|
  {
    if |es| == 0 then {} else EntryNames(es[..|es| - 1]) + {es[|es| - 1].name}
  }

  /** A name is among the entries' names exactly when some entry has it. */
  lemma {:induction false} EntryNamesMember(es: seq<Extracted>, n: string)
    ensures n in EntryNames(es) <==> exists i :: 0 <= i < |es| && es[i].name == n
    decreases |es|
  {
    if |es| > 0 {
      var front := es[..|es| - 1];
      EntryNamesMember(front, n);
      if exists i :: 0 <= i < |front| && front[i].name == n {
        var i :| 0 <= i < |front| && front[i].name == n;
        assert es[i] == front[i];
      }
      if exists i :: 0 <= i < |es| && es[i].name == n {
        var i :| 0 <= i < |es| && es[i].name == n;
        if i < |front| {
          assert front[i] == es[i];
        }
      }
    }
  }

  /** Every name some entry refers to. */
  function AllRefs(es: seq<Extracted>): set<string> {
    set i, r | 0 <= i < |es| && r in RefsOf(es[i]) :: r
  }

  /** The names of the entries that refer to `r`. */
  function Referrers(es: seq<Extracted>, r: string): set<string> {
    set i | 0 <= i < |es| && r in RefsOf(es[i]) :: es[i].name
  }

  /** The names referred to grow by the last entry's references. */
  lemma AllRefsSnoc(es: seq<Extracted>)
    requires |es| > 0
    ensures AllRefs(es) == AllRefs(es[..|es| - 1]) + RefsOf(es[|es| - 1])
  {
    var front, e := es[..|es| - 1], es[|es| - 1];
    forall x | x in AllRefs(es) ensures x in AllRefs(front) + RefsOf(e) {
      var i :| 0 <= i < |es| && x in RefsOf(es[i]);
      if i < |front| {
        assert front[i] == es[i];
      }
    }
    forall x | x in AllRefs(front) ensures x in AllRefs(es) {
      var i :| 0 <= i < |front| && x in RefsOf(front[i]);
      assert es[i] == front[i];
    }
  }

  /** The referrers of `r` grow by the last entry when it refers to `r`. */
  lemma ReferrersSnoc(es: seq<Extracted>, r: string)
    requires |es| > 0
    ensures Referrers(es, r) ==
      Referrers(es[..|es| - 1], r) + (if r in RefsOf(es[|es| - 1]) then {es[|es| - 1].name} else {})
  {
    var front, e := es[..|es| - 1], es[|es| - 1];
    forall n | n in Referrers(es, r) ensures n in Referrers(front, r) + (if r in RefsOf(e) then {e.name} else {}) {
      var i :| 0 <= i < |es| && r in RefsOf(es[i]) && es[i].name == n;
      if i < |front| {
        assert front[i] == es[i];
      }
    }
    forall n | n in Referrers(front, r) ensures n in Referrers(es, r) {
      var i :| 0 <= i < |front| && r in RefsOf(front[i]) && front[i].name == n;
      assert es[i] == front[i];
    }
  }

  /** A graph built to the end was built to the entry before, and the last
      entry adds its references in both directions. */
  lemma BuildGraphSnoc(es: seq<Extracted>, allNames: set<string>)
    requires |es| > 0 && BuildGraph(es, allNames).Ok?
    ensures BuildGraph(es[..|es| - 1], allNames).Ok?
    ensures var g, e := BuildGraph(es[..|es| - 1], allNames).value, es[|es| - 1];
      BuildGraph(es, allNames).value == Graph(g.outgoing[e.name := RefsOf(e)], AddIncoming(g.incoming, e.name, RefsOf(e)))
  {
  }

  /** The outgoing map of `g` has an entry for every note of `es`, holding
      exactly its references, and no other entry. */
  predicate OutgoingOf(es: seq<Extracted>, g: Graph) {
    g.outgoing.Keys == EntryNames(es) &&
    forall i :: 0 <= i < |es| ==> es[i].name in g.outgoing && g.outgoing[es[i].name] == RefsOf(es[i])
  }

  /** Setting the last entry's references keeps those of the earlier
      entries, whose names differ from it. */
  lemma OutgoingUpdate(front: seq<Extracted>, e: Extracted, m: map<string, set<string>>)
    requires forall i :: 0 <= i < |front| ==> front[i].name in m && m[front[i].name] == RefsOf(front[i])
    requires forall i :: 0 <= i < |front| ==> front[i].name != e.name
    ensures var es, m' := front + [e], m[e.name := RefsOf(e)];
      forall i :: 0 <= i < |es| ==> es[i].name in m' && m'[es[i].name] == RefsOf(es[i])
  {
    var es, m' := front + [e], m[e.name := RefsOf(e)];
    forall i | 0 <= i < |es| ensures es[i].name in m' && m'[es[i].name] == RefsOf(es[i]) {
      if i < |front| {
        assert es[i] == front[i];
      } else {
        assert es[i] == e;
      }
    }
  }

  lemma OutgoingStep(es: seq<Extracted>, allNames: set<string>)
    requires |es| > 0 && DistinctNames(es)
    requires BuildGraph(es[..|es| - 1], allNames).Ok? && BuildGraph(es, allNames).Ok?
    requires OutgoingOf(es[..|es| - 1], BuildGraph(es[..|es| - 1], allNames).value)
    ensures OutgoingOf(es, BuildGraph(es, allNames).value)
  {
    var front := es[..|es| - 1];
    var e := es[|es| - 1];
    var g := BuildGraph(front, allNames).value;
    BuildGraphSnoc(es, allNames);
    assert EntryNames(es) == EntryNames(front) + {e.name};
    assert forall i :: 0 <= i < |front| ==> front[i].name != e.name by {
      forall i | 0 <= i < |front| ensures front[i].name != e.name {
        assert front[i] == es[i];
      }
    }
    OutgoingUpdate(front, e, g.outgoing);
    assert front + [e] == es;
  }

  /** A built graph has an outgoing entry for every note, holding exactly
      its references, and no other. */
  lemma {:induction false} GraphOutgoing(es: seq<Extracted>, allNames: set<string>)
    requires BuildGraph(es, allNames).Ok? && DistinctNames(es)
    ensures OutgoingOf(es, BuildGraph(es, allNames).value)
    decreases |es|
  {
    if |es| > 0 {
      var front := es[..|es| - 1];
      assert DistinctNames(front) by {
        forall i, j | 0 <= i < j < |front| ensures front[i].name != front[j].name {
          assert front[i] == es[i] && front[j] == es[j];
        }
      }
      GraphOutgoing(front, allNames);
      OutgoingStep(es, allNames);
    }
  }

  /** The incoming map of `g` has an entry for every name referred to,
      holding exactly the names of the notes that refer to it. */
  predicate IncomingOf(es: seq<Extracted>, g: Graph) {
    g.incoming.Keys == AllRefs(es) &&
    forall r :: r in g.incoming ==> g.incoming[r] == Referrers(es, r)
  }

  lemma IncomingStep(es: seq<Extracted>, allNames: set<string>)
    requires |es| > 0
    requires BuildGraph(es[..|es| - 1], allNames).Ok? && BuildGraph(es, allNames).Ok?
    requires IncomingOf(es[..|es| - 1], BuildGraph(es[..|es| - 1], allNames).value)
    ensures IncomingOf(es, BuildGraph(es, allNames).value)
  {
    var front := es[..|es| - 1];
    var e := es[|es| - 1];
    var g := BuildGraph(front, allNames).value;
    var h := BuildGraph(es, allNames).value;
    BuildGraphSnoc(es, allNames);
    AllRefsSnoc(es);
    forall r | r in h.incoming ensures h.incoming[r] == Referrers(es, r) {
      ReferrersSnoc(es, r);
      if r !in g.incoming {
        assert Referrers(front, r) == {};
      }
    }
  }

  /** A built graph has an incoming entry for every name referred to, and a
      note is in it exactly when it refers to that name. */
  lemma {:induction false} GraphIncoming(es: seq<Extracted>, allNames: set<string>)
    requires BuildGraph(es, allNames).Ok?
    ensures IncomingOf(es, BuildGraph(es, allNames).value)
    decreases |es|
  {
    if |es| > 0 {
      GraphIncoming(es[..|es| - 1], allNames);
      IncomingStep(es, allNames);
    }
  }

  /** The incoming sets invert the outgoing ones: `n` is in `incoming[r]`
      exactly when `r` is in `outgoing[n]`. */
  lemma IncomingInvertsOutgoing(es: seq<Extracted>, allNames: set<string>, r: string, n: string)
    requires BuildGraph(es, allNames).Ok? && DistinctNames(es)
    ensures (r in BuildGraph(es, allNames).value.incoming && n in BuildGraph(es, allNames).value.incoming[r]) <==>
      (n in BuildGraph(es, allNames).value.outgoing && r in BuildGraph(es, allNames).value.outgoing[n])
  {
    var g := BuildGraph(es, allNames).value;
    GraphOutgoing(es, allNames);
    GraphIncoming(es, allNames);
    if r in g.incoming && n in g.incoming[r] {
      var i :| 0 <= i < |es| && r in RefsOf(es[i]) && es[i].name == n;
    }
    if n in g.outgoing && r in g.outgoing[n] {
      EntryNamesMember(es, n);
      var i :| 0 <= i < |es| && es[i].name == n;
      assert r in AllRefs(es);
    }
  }

  /** A built graph mentions only known names: every outgoing set is made
      of known names, and every incoming set of names of notes. */
  lemma GraphNamesKnown(es: seq<Extracted>, allNames: set<string>)
    requires BuildGraph(es, allNames).Ok? && DistinctNames(es)
    ensures forall n :: n in BuildGraph(es, allNames).value.outgoing ==>
      n in EntryNames(es) && BuildGraph(es, allNames).value.outgoing[n] <= allNames
    ensures forall r :: r in BuildGraph(es, allNames).value.incoming ==>
      r in allNames && BuildGraph(es, allNames).value.incoming[r] <= EntryNames(es)
  {
    var g := BuildGraph(es, allNames).value;
    GraphValidation(es, allNames);
    GraphOutgoing(es, allNames);
    GraphIncoming(es, allNames);
    forall n | n in g.outgoing ensures g.outgoing[n] <= allNames {
      EntryNamesMember(es, n);
      var i :| 0 <= i < |es| && es[i].name == n;
      assert Valid(es[i], allNames);
    }
    forall r | r in g.incoming ensures r in allNames && g.incoming[r] <= EntryNames(es) {
      var i :| 0 <= i < |es| && r in RefsOf(es[i]);
      assert Valid(es[i], allNames);
      forall m | m in g.incoming[r] ensures m in EntryNames(es) {
        var j :| 0 <= j < |es| && r in RefsOf(es[j]) && es[j].name == m;
        EntryNamesMember(es, m);
      }
    }
  }

  /** The files of the notes, the only objects the graph's construction
      changes (by filling their caches). */
  ghost function FilesOf(notes: seq<Note>): set<object> {
    set i, f | 0 <= i < |notes| && f in notes[i].files.Values :: f
  }

  /** `extractRefs` of each note as it would evaluate now. */
  ghost function Snapshot(notes: seq<Note>, fs: FileSystem): (r: seq<Extracted>)
    reads FilesOf(notes)
    ensures |r| == |notes|
    decreases |notes|
  {
    if |notes| == 0 then []
    else
      assert FilesOf(notes[..|notes| - 1]) <= FilesOf(notes);
      Snapshot(notes[..|notes| - 1], fs) + [Extracted(notes[|notes| - 1].name, notes[|notes| - 1].RefsNow(fs))]
  }

  /** Entry `i` of the snapshot is note `i`'s name and references. */
  lemma SnapshotAt(notes: seq<Note>, fs: FileSystem, i: nat)
    requires i < |notes|
    ensures Snapshot(notes, fs)[i] == Extracted(notes[i].name, notes[i].RefsNow(fs))
    decreases |notes|
  {
    if i < |notes| - 1 {
      SnapshotAt(notes[..|notes| - 1], fs, i);
    }
  }

  /** `extractRefs` of each note for the file system's own texts. */
  function FsSnapshot(notes: seq<Note>, fs: FileSystem): (r: seq<Extracted>)
    ensures |r| == |notes|
  {
    seq(|notes|, i requires 0 <= i < |notes| => Extracted(notes[i].name, notes[i].RefsIn(fs)))
  }

  /** While the notes' files hold nothing but the file system's texts, the
      snapshot is the one the file system gives. */
  lemma SnapshotFromFs(notes: seq<Note>, fs: FileSystem)
    requires forall i, f :: 0 <= i < |notes| && f in notes[i].files.Values ==> f.Current(fs) == ReadFs(fs, f.path)
    ensures Snapshot(notes, fs) == FsSnapshot(notes, fs)
  {
    forall i | 0 <= i < |notes|
      ensures Snapshot(notes, fs)[i] == FsSnapshot(notes, fs)[i]
    {
      SnapshotAt(notes, fs, i);
      RefsNowFromFs(notes[i], fs);
    }
  }

  function NamesOf(notes: seq<Note>): set<string> {
    set i | 0 <= i < |notes| :: notes[i].name
  }

  lemma AddIncomingStep(incoming: map<string, set<string>>, name: string, done: set<string>, r: string)
    ensures AddIncoming(incoming, name, done + {r}) ==
      var m := AddIncoming(incoming, name, done);
      m[r := (if r in m then m[r] else {}) + {name}]
  {
    var a := AddIncoming(incoming, name, done + {r});
    var m := AddIncoming(incoming, name, done);
    var b := m[r := (if r in m then m[r] else {}) + {name}];
    assert a.Keys == b.Keys;
    forall k | k in a ensures a[k] == b[k] {
    }
  }

  /** `for (const ref of refs)`: `name` joins the incoming set of each
      reference. */
  method AddToIncoming(incoming: map<string, set<string>>, name: string, refs: set<string>)
    returns (r: map<string, set<string>>)
    ensures r == AddIncoming(incoming, name, refs)
  {
    r := incoming;
    var rest := refs;
    assert AddIncoming(incoming, name, {}) == incoming by {
      var m := AddIncoming(incoming, name, {});
      assert m.Keys == incoming.Keys;
      forall k | k in m ensures m[k] == incoming[k] {
      }
    }
    while rest != {}
      invariant rest <= refs
      invariant r == AddIncoming(incoming, name, refs - rest)
      decreases rest
    {
      var ref :| ref in rest;
      AddIncomingStep(incoming, name, refs - rest, ref);
      assert refs - (rest - {ref}) == (refs - rest) + {ref};
      if ref !in r {
        r := r[ref := {}];
      }
      r := r[ref := r[ref] + {name}];
      rest := rest - {ref};
    }
    assert refs - rest == refs;
  }

  /** `notes[i].extractRefs(allNames)` inside the outer loop: the note's
      references as they stood, with every note's files still giving what
      they gave. */
  method ExtractAt(notes: seq<Note>, i: nat, allNames: set<string>, fs: FileSystem) returns (refs: Result<set<string>, Error>)
    requires i < |notes|
    modifies FilesOf(notes)
    ensures refs == old(notes[i].RefsNow(fs))
    ensures forall j, f :: 0 <= j < |notes| && f in notes[j].files.Values ==> f.Current(fs) == old(f.Current(fs))
    ensures forall j :: 0 <= j < |notes| ==> notes[j].RefsNow(fs) == old(notes[j].RefsNow(fs))
  {
    assert notes[i].files.Values <= FilesOf(notes);
    refs := notes[i].ExtractRefs(allNames, fs);
    forall j | 0 <= j < |notes| ensures notes[j].RefsNow(fs) == old(notes[j].RefsNow(fs)) {
      if "md" in notes[j].files {
        assert notes[j].files["md"] in notes[j].files.Values;
      }
    }
  }

  /** One turn of the outer loop: note `i`'s references are extracted and
      either stop the loop with an error or are added to the graph. */
  method Visit(notes: seq<Note>, i: nat, allNames: set<string>, fs: FileSystem, ghost snap: seq<Extracted>,
               outgoing: map<string, set<string>>, incoming: map<string, set<string>>)
    returns (r: Result<Graph, Error>)
    requires i < |notes| == |snap|
    requires forall j :: 0 <= j < |notes| ==> snap[j] == Extracted(notes[j].name, notes[j].RefsNow(fs))
    requires BuildGraph(snap[..i], allNames) == Ok(Graph(outgoing, incoming))
    modifies FilesOf(notes)
    ensures r == BuildGraph(snap[..i + 1], allNames)
    ensures forall j :: 0 <= j < |notes| ==> snap[j] == Extracted(notes[j].name, notes[j].RefsNow(fs))
    ensures forall j, f :: 0 <= j < |notes| && f in notes[j].files.Values ==> f.Current(fs) == old(f.Current(fs))
  {
    var note := notes[i];
    var refs := ExtractAt(notes, i, allNames, fs);
    assert snap[..i + 1][..i] == snap[..i] && snap[..i + 1][i] == snap[i];
    if refs.Err? {
      r := Err(refs.error);
    } else if refs.value - allNames != {} {
      r := Err(UnknownRefs(note.name, refs.value - allNames));
    } else {
      var incoming' := AddToIncoming(incoming, note.name, refs.value);
      r := Ok(Graph(outgoing[note.name := refs.value], incoming'));
    }
  }

  /** `getCrossrefGraph(notes)`: what `BuildGraph` gives for the references
      the notes' files held when it was called. Reading fills caches but
      changes what no file would give. */
  method GetCrossrefGraph(notes: seq<Note>, fs: FileSystem) returns (r: Result<Graph, Error>)
    modifies FilesOf(notes)
    ensures r == BuildGraph(old(Snapshot(notes, fs)), NamesOf(notes))
    ensures forall i, f :: 0 <= i < |notes| && f in notes[i].files.Values ==> f.Current(fs) == old(f.Current(fs))
  {
    var allNames := NamesOf(notes);
    ghost var snap := Snapshot(notes, fs);
    forall j | 0 <= j < |notes|
      ensures snap[j] == Extracted(notes[j].name, notes[j].RefsNow(fs))
    {
      SnapshotAt(notes, fs, j);
    }
    var outgoing: map<string, set<string>> := map[];
    var incoming: map<string, set<string>> := map[];
    for i := 0 to |notes|
      invariant BuildGraph(snap[..i], allNames) == Ok(Graph(outgoing, incoming))
      invariant forall j :: 0 <= j < |notes| ==> snap[j] == Extracted(notes[j].name, notes[j].RefsNow(fs))
      invariant forall j, f :: 0 <= j < |notes| && f in notes[j].files.Values ==> f.Current(fs) == old(f.Current(fs))
    {
      var step := Visit(notes, i, allNames, fs, snap, outgoing, incoming);
      if step.Err? {
        ErrorStops(snap, i + 1, allNames);
        return step;
      }
      outgoing, incoming := step.value.outgoing, step.value.incoming;
    }
    assert snap[..|notes|] == snap;
    r := Ok(Graph(outgoing, incoming));
  }
}
