/** `notesByFolder`: the notes arranged in a tree of folders along their
    directory segments. */
module Folders {
  import opened Wrappers
  import opened Notes

  /** `NoteFolder`: the notes directly in a folder, by name, and its
      sub-folders, by segment. */
  datatype Folder<T> = Folder(notes: map<string, T>, folders: map<string, Folder<T>>)

  function EmptyFolder<T>(): Folder<T> {
    Folder(map[], map[])
  }

  /** The folder reached from `f` by following `path`, when every folder on
      the way exists. */
  function At<T>(f: Folder<T>, path: seq<string>): Option<Folder<T>>
    decreases |path|
  {
    if |path| == 0 then Some(f)
    else if path[0] in f.folders then At(f.folders[path[0]], path[1..])
    else None
  }

  /** The notes of the folder at `path`; none where there is no folder. */
  function NotesAt<T>(f: Folder<T>, path: seq<string>): map<string, T> {
    match At(f, path)
    case Some(g) => g.notes
    case None => map[]
  }

  /** The body of the loop over the notes: walk down `path`, creating each
      missing folder empty, and store `v` under `name` in the folder
      reached. */
  function Insert<T>(f: Folder<T>, path: seq<string>, name: string, v: T): Folder<T>
    decreases |path|
  {
    if |path| == 0 then f.(notes := f.notes[name := v])
    else
      var sub := if path[0] in f.folders then f.folders[path[0]] else EmptyFolder();
      f.(folders := f.folders[path[0] := Insert(sub, path[1..], name, v)])
  }

  /** Inserting changes the notes of the folder at `path` only, where the
      note is added, and creates folders only along `path`. */
  lemma {:induction false} InsertAt<T>(f: Folder<T>, path: seq<string>, name: string, v: T, q: seq<string>)
    ensures NotesAt(Insert(f, path, name, v), q) == if q == path then NotesAt(f, q)[name := v] else NotesAt(f, q)
    ensures At(Insert(f, path, name, v), q).Some? <==> At(f, q).Some? || q <= path
    decreases |path|
  {
    if |path| > 0 && |q| > 0 {
      var sub := if path[0] in f.folders then f.folders[path[0]] else EmptyFolder();
      if q[0] == path[0] {
        InsertAt(sub, path[1..], name, v, q[1..]);
        assert q == path <==> q[1..] == path[1..];
        assert q <= path <==> q[1..] <= path[1..];
        if path[0] !in f.folders {
          EmptyNowhere<T>(q[1..]);
        }
      } else {
        assert !(q <= path) && q != path;
      }
    }
  }

  /** Below an empty folder there is nothing. */
  lemma EmptyNowhere<T>(q: seq<string>)
    ensures NotesAt(EmptyFolder<T>(), q) == map[]
    ensures At(EmptyFolder<T>(), q).Some? <==> q == []
  {
  }

  /** A note to be placed: its name, its directory segments and the note. */
  datatype Placed<T> = Placed(name: string, dir: seq<string>, value: T)

  /** The loop over the notes, in order, from an empty tree. */
  function Tree<T>(ps: seq<Placed<T>>): Folder<T>
    decreases |ps|
  {
    if |ps| == 0 then EmptyFolder()
    else
      var p := ps[|ps| - 1];
      Insert(Tree(ps[..|ps| - 1]), p.dir, p.name, p.value)
  }

  predicate DistinctNames<T>(ps: seq<Placed<T>>) {
    forall i, j :: 0 <= i < j < |ps| ==> ps[i].name != ps[j].name
  }

  /** Each note is in exactly the folder its directory leads to, under its
      name: a folder holds a note if and only if the note's directory is
      that folder's path. So no note is lost or placed twice. */
  lemma {:induction false} TreePlacesNotes<T>(ps: seq<Placed<T>>, q: seq<string>)
    requires DistinctNames(ps)
    ensures forall n :: n in NotesAt(Tree(ps), q) <==> exists i :: 0 <= i < |ps| && ps[i].name == n && ps[i].dir == q
    ensures forall i :: 0 <= i < |ps| && ps[i].dir == q ==> NotesAt(Tree(ps), q)[ps[i].name] == ps[i].value
    decreases |ps|
  {
    if |ps| > 0 {
      var front := ps[..|ps| - 1];
      var p := ps[|ps| - 1];
      assert forall j :: 0 <= j < |front| ==> front[j] == ps[j];
      TreePlacesNotes(front, q);
      InsertAt(Tree(front), p.dir, p.name, p.value, q);
      forall n ensures n in NotesAt(Tree(ps), q) <==> exists i :: 0 <= i < |ps| && ps[i].name == n && ps[i].dir == q {
        if exists i :: 0 <= i < |ps| && ps[i].name == n && ps[i].dir == q {
          var i :| 0 <= i < |ps| && ps[i].name == n && ps[i].dir == q;
          if i < |front| {
            assert front[i].name == n && front[i].dir == q;
          }
        }
      }
    }
  }

  /** Folders exist only along the notes' directories: there is a folder at
      `q` exactly when `q` is the root or begins some note's directory. */
  lemma {:induction false} TreeFolders<T>(ps: seq<Placed<T>>, q: seq<string>)
    ensures At(Tree(ps), q).Some? <==> q == [] || exists i :: 0 <= i < |ps| && q <= ps[i].dir
    decreases |ps|
  {
    if |ps| == 0 {
      EmptyNowhere<T>(q);
    } else {
      var front := ps[..|ps| - 1];
      var p := ps[|ps| - 1];
      assert forall j :: 0 <= j < |front| ==> front[j] == ps[j];
      TreeFolders(front, q);
      InsertAt(Tree(front), p.dir, p.name, p.value, q);
      if exists i :: 0 <= i < |ps| && q <= ps[i].dir {
        var i :| 0 <= i < |ps| && q <= ps[i].dir;
        if i < |front| {
          assert q <= front[i].dir;
        }
      }
    }
  }

  /** The notes to place, in `order`. */
  function Placements(order: seq<string>, notes: map<string, Note>): (r: seq<Placed<Note>>)
    requires forall n :: n in order ==> n in notes
    ensures |r| == |order| && forall i :: 0 <= i < |order| ==> r[i] == Placed(order[i], notes[order[i]].dir, notes[order[i]])
  {
    seq(|order|, i requires 0 <= i < |order| => Placed(order[i], notes[order[i]].dir, notes[order[i]]))
  }

  /** `notesByFolder`: every note in order, placed along its `dir`. */
  method NotesByFolder(order: seq<string>, notes: map<string, Note>) returns (tree: Folder<Note>)
    requires forall n :: n in order ==> n in notes
    ensures tree == Tree(Placements(order, notes))
  {
    tree := EmptyFolder();
    ghost var ps := Placements(order, notes);
    for i := 0 to |order|
      invariant tree == Tree(ps[..i])
    {
      assert ps[..i + 1][..i] == ps[..i];
      var note := notes[order[i]];
      tree := Insert(tree, note.dir, order[i], note);
    }
    assert ps[..|order|] == ps;
  }
}
