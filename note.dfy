/** `Note`: one note of the project, made of the files that share its name.
    Which class a note belongs to is its `kind`; the behaviour each class
    overrides is chosen by it. */
module Notes {
  import opened Wrappers
  import opened Errors
  import opened Strings
  import opened LazyFiles
  import opened NoteTypes
  import opened Markup

  /** The references of a note of class `kind` whose markdown file reads as
      `md`: the `@` handles for the classes that scan for them, none for the
      others, and the read error when the file cannot be read. */
  function RefsOfText(kind: NoteType, md: Result<string, Error>): Result<set<string>, Error> {
    if ScansReferences(kind) then
      match md
      case Ok(text) => Ok(Refs(text))
      case Err(e) => Err(e)
    else Ok({})
  }

  class Note {
    /** Unique name of the note, its permalink. */
    const name: string
    /** Folder segments of the note below the source directory. */
    const dir: seq<string>
    /** The note's files by extension. */
    const files: map<string, LazyFile>
    /** The class the note was constructed as. */
    const kind: NoteType
    /** `#title`: the title computed by the first successful `title` access. */
    var titleCache: Option<string>
    /** `#url` of `ExternalURLNote`: the url text found by the first
        successful `url` access. */
    var urlCache: Option<string>
    /** `refs.outgoing`: the notes this note refers to. */
    var outgoing: seq<Note>
    /** `refs.incoming`: the notes referring to this note. */
    var incoming: seq<Note>

    /** The constructor keeps `name`, `dir` and `files` as given; a new note
        has no references and nothing cached. */
    constructor(kind: NoteType, name: string, dir: seq<string>, files: map<string, LazyFile>)
      ensures this.kind == kind && this.name == name && this.dir == dir && this.files == files
      ensures titleCache == None && urlCache == None && outgoing == [] && incoming == []
    {
      this.kind := kind;
      this.name := name;
      this.dir := dir;
      this.files := files;
      titleCache := None;
      urlCache := None;
      outgoing := [];
      incoming := [];
    }

    /** `this.files[ext].content` as it would evaluate now. */
    function FileText(ext: string, fs: FileSystem): Result<string, Error>
      reads files.Values
    {
      if ext in files then files[ext].Current(fs) else Err(MissingFile(name, ext))
    }

    /** Reads `files[ext]` through its cache. */
    method ReadFile(ext: string, fs: FileSystem) returns (r: Result<string, Error>)
      modifies files.Values
      ensures r == old(FileText(ext, fs))
      ensures forall f :: f in files.Values ==> f.Current(fs) == old(f.Current(fs))
    {
      if ext !in files {
        return Err(MissingFile(name, ext));
      }
      r := files[ext].Content(fs);
    }

    /** `getTitle()`: the name by default; the first-`#` title of the
        markdown file for the titled markdown notes. */
    function GetTitle(fs: FileSystem): Result<string, Error>
      reads files.Values
    {
      if kind == TitledMarkdown then
        match FileText("md", fs)
        case Ok(text) => Ok(MarkdownTitle(text))
        case Err(e) => Err(e)
      else Ok(name)
    }

    /** What a `title` access yields now. */
    function TitleNow(fs: FileSystem): Result<string, Error>
      reads this, files.Values
    {
      match titleCache
      case Some(t) => Ok(t)
      case None => GetTitle(fs)
    }

    /** The `title` getter: `getTitle` runs only while nothing is cached, and
        its first successful result is returned from then on. */
    method Title(fs: FileSystem) returns (r: Result<string, Error>)
      modifies this, files.Values
      ensures r == old(TitleNow(fs))
      ensures old(titleCache).Some? ==> titleCache == old(titleCache)
      ensures r.Ok? ==> titleCache == Some(r.value)
      ensures r.Err? ==> titleCache == None
      ensures urlCache == old(urlCache) && outgoing == old(outgoing) && incoming == old(incoming)
      ensures forall f :: f in files.Values ==> f.Current(fs) == old(f.Current(fs))
    {
      if titleCache.Some? {
        return Ok(titleCache.value);
      }
      if kind == TitledMarkdown {
        var text := ReadFile("md", fs);
        if text.Err? {
          return Err(text.error);
        }
        r := Ok(MarkdownTitle(text.value));
      } else {
        r := Ok(name);
      }
      titleCache := Some(r.value);
    }

    /** The text of `files[ext]` as the file system holds it, cache aside. */
    function FileTextIn(ext: string, fs: FileSystem): Result<string, Error> {
      if ext in files then ReadFs(fs, files[ext].path) else Err(MissingFile(name, ext))
    }

    /** What `extractRefs` gives for the file system's own texts. */
    function RefsIn(fs: FileSystem): Result<set<string>, Error> {
      RefsOfText(kind, FileTextIn("md", fs))
    }

    /** `extractRefs(allNames)` as it would evaluate now: the `@name`
        references of the markdown file for the classes that scan one, and
        the empty set otherwise, whatever `allNames` is. */
    function RefsNow(fs: FileSystem): Result<set<string>, Error>
      reads files.Values
    {
      RefsOfText(kind, FileText("md", fs))
    }

    /** `extractRefs(allNames)`. */
    method ExtractRefs(allNames: set<string>, fs: FileSystem) returns (r: Result<set<string>, Error>)
      modifies files.Values
      ensures r == old(RefsNow(fs))
      ensures forall f :: f in files.Values ==> f.Current(fs) == old(f.Current(fs))
    {
      if !ScansReferences(kind) {
        return Ok({});
      }
      var text := ReadFile("md", fs);
      if text.Err? {
        return Err(text.error);
      }
      r := Ok(Refs(text.value));
    }

    /** What the `url` getter of `ExternalURLNote` yields now: the cached url,
        or the first `http:`/`https:` text of the url file up to the end of
        its line, failing with the file's path when there is none. */
    function UrlNow(fs: FileSystem): Result<string, Error>
      reads this, files.Values
    {
      match urlCache
      case Some(u) => Ok(u)
      case None =>
        match FileText("url", fs)
        case Err(e) => Err(e)
        case Ok(text) =>
          match FindUrl(text)
          case None => Err(NoUrl(files["url"].path))
          case Some(u) => Ok(u)
    }

    /** The `url` getter of `ExternalURLNote`. */
    method Url(fs: FileSystem) returns (r: Result<string, Error>)
      requires kind == ExternalUrl
      modifies this, files.Values
      ensures r == old(UrlNow(fs))
      ensures old(urlCache).Some? ==> urlCache == old(urlCache)
      ensures r.Ok? ==> urlCache == Some(r.value)
      ensures r.Err? ==> urlCache == None
      ensures titleCache == old(titleCache) && outgoing == old(outgoing) && incoming == old(incoming)
      ensures forall f :: f in files.Values ==> f.Current(fs) == old(f.Current(fs))
    {
      if urlCache.Some? {
        return Ok(urlCache.value);
      }
      var text := ReadFile("url", fs);
      if text.Err? {
        return Err(text.error);
      }
      var found := FindUrl(text.value);
      if found.None? {
        return Err(NoUrl(files["url"].path));
      }
      urlCache := found;
      r := Ok(found.value);
    }

    /** The `description` getter: the class's static description when it
        has one, and otherwise the file extensions in ascending order, each
        once, joined by `", "`. */
    method Description() returns (r: string)
      requires kind != ExternalUrl
      ensures StaticDescription(kind).Some? ==> r == StaticDescription(kind).value
      ensures StaticDescription(kind).None? ==> r == Join(SortedSet(files.Keys), ", ")
    {
      if StaticDescription(kind).Some? {
        return StaticDescription(kind).value;
      }
      var exts := SortStrings(files.Keys);
      r := Join(exts, ", ");
    }
  }

  /** The default `getTitle` gives the name, and only the titled markdown
      notes read a file for their title. */
  lemma DefaultTitle(n: Note, fs: FileSystem)
    requires n.kind != TitledMarkdown
    ensures n.GetTitle(fs) == Ok(n.name)
  {
  }

  /** The default `extractRefs` finds no reference, for any `allNames`. */
  lemma DefaultRefs(n: Note, fs: FileSystem)
    requires !ScansReferences(n.kind)
    ensures n.RefsNow(fs) == Ok({})
  {
  }

  /** A markdown note refers exactly to the names after its `@` handles. */
  lemma MarkdownRefs(n: Note, fs: FileSystem)
    requires ScansReferences(n.kind) && n.FileText("md", fs).Ok?
    ensures n.RefsNow(fs).Ok?
    ensures forall r :: r in n.RefsNow(fs).value <==>
      exists j :: HandleAt(n.FileText("md", fs).value, j) && r == HandleName(n.FileText("md", fs).value, j)
  {
    RefsAreHandles(n.FileText("md", fs).value);
  }

  /** While no file of a note holds a text other than the file system's,
      its references are the ones the file system's texts give. */
  lemma RefsNowFromFs(n: Note, fs: FileSystem)
    requires forall f :: f in n.files.Values ==> f.Current(fs) == ReadFs(fs, f.path)
    ensures n.RefsNow(fs) == n.RefsIn(fs)
  {
    if "md" in n.files {
      assert n.files["md"] in n.files.Values;
    }
  }
}
