/** The note classes a theme offers and how a note's extensions pick one. A
    class is identified by what it overrides of the base `Note`: its
    `extensionCombo`, its static `description`, and whether it reads
    references and a title from a markdown file. */
module NoteTypes {
  import opened Wrappers

  datatype NoteType =
    | BaseNote        // `Note` itself, the fallback
    | MinimalMarkdown // `MarkdownNote` of the minimal theme: default title
    | PlainText       // `PlainTextNote` of the minimal theme
    | ExternalUrl     // `ExternalURLNote` of the minimal theme
    | Typst           // `TypstNote` of the minimal theme
    | TitledMarkdown  // `MarkdownNote` of the zetteldocs and docs themes: title from the first `#`

  /** The static `extensionCombo` of each class, as written in its class. */
  function ExtensionCombo(t: NoteType): seq<string> {
    match t
    case BaseNote => []
    case MinimalMarkdown => ["md"]
    case PlainText => ["txt"]
    case ExternalUrl => ["url"]
    case Typst => ["typ", "pdf"]
    case TitledMarkdown => ["md"]
  }

  /** `new Set(noteClass.extensionCombo)`. */
  function ComboSet(t: NoteType): set<string> {
    set e | e in ExtensionCombo(t)
  }

  /** The static `description`, `null` where the class does not set one. */
  function StaticDescription(t: NoteType): Option<string> {
    match t
    case BaseNote => None
    case MinimalMarkdown => Some("markdown")
    case PlainText => Some("plain text")
    case ExternalUrl => None
    case Typst => Some("typst pdf")
    case TitledMarkdown => Some("markdown")
  }

  /** The classes whose `extractRefs` scans `files.md` for `@name`. */
  predicate ScansReferences(t: NoteType) {
    t == MinimalMarkdown || t == TitledMarkdown
  }

  /** The note classes of the minimal theme, in the order they are declared. */
  const MinimalNoteTypes: seq<NoteType> := [MinimalMarkdown, PlainText, ExternalUrl, Typst]

  /** `noteTypes` of the documentation theme. */
  const DocsNoteTypes: seq<NoteType> := [TitledMarkdown]

  function Combos(types: seq<NoteType>): (r: seq<set<string>>)
    ensures |r| == |types| && forall i :: 0 <= i < |types| ==> r[i] == ComboSet(types[i])
  {
    seq(|types|, i requires 0 <= i < |types| => ComboSet(types[i]))
  }

  /** The position of the first combination equal to `exts` as a set (an
      empty symmetric difference), if there is one. */
  function FirstMatch(combos: seq<set<string>>, exts: set<string>): (r: Option<nat>)
    ensures r.Some? ==>
      r.value < |combos| && combos[r.value] == exts && forall j :: 0 <= j < r.value ==> combos[j] != exts
    ensures r.None? <==> forall j :: 0 <= j < |combos| ==> combos[j] != exts
  {
    if |combos| == 0 then None
    else if combos[0] == exts then Some(0)
    else match FirstMatch(combos[1..], exts)
      case None => None
      case Some(k) => Some(k + 1)
  }

  /** `detectNoteType` of `src/project.ts`: the first class whose combination
      equals the extensions, and the base `Note` when none does. */
  method DetectNoteType(types: seq<NoteType>, exts: set<string>) returns (t: NoteType)
    ensures t == match FirstMatch(Combos(types), exts) case Some(i) => types[i] case None => BaseNote
  {
    for i := 0 to |types|
      invariant forall j :: 0 <= j < i ==> ComboSet(types[j]) != exts
    {
      if ComboSet(types[i]) == exts {
        return types[i];
      }
    }
    return BaseNote;
  }

  /** `detectNoteKind` of `src/analyse.tsx`: the same search, giving
      `undefined` when no class matches. */
  method DetectNoteKind(types: seq<NoteType>, exts: set<string>) returns (t: Option<NoteType>)
    ensures t == match FirstMatch(Combos(types), exts) case Some(i) => Some(types[i]) case None => None
  {
    for i := 0 to |types|
      invariant forall j :: 0 <= j < i ==> ComboSet(types[j]) != exts
    {
      if ComboSet(types[i]) == exts {
        return Some(types[i]);
      }
    }
    return None;
  }

  /** The no-match fallback is the only difference: with the base `Note` as
      the default, both searches pick the same class. */
  lemma DetectionsAgree(types: seq<NoteType>, exts: set<string>)
    ensures (match FirstMatch(Combos(types), exts) case Some(i) => Some(types[i]) case None => None).GetOr(BaseNote)
      == match FirstMatch(Combos(types), exts) case Some(i) => types[i] case None => BaseNote
  {
  }

  /** The minimal theme's combinations {md}, {txt}, {url} and {typ, pdf} are
      pairwise different, so no set of extensions matches two of them. */
  lemma MinimalCombosDistinct(exts: set<string>)
    ensures forall i, j :: 0 <= i < j < |MinimalNoteTypes| ==>
      !(Combos(MinimalNoteTypes)[i] == exts && Combos(MinimalNoteTypes)[j] == exts)
  {
    var c := Combos(MinimalNoteTypes);
    assert c[0] == {"md"} && c[1] == {"txt"} && c[2] == {"url"} && c[3] == {"typ", "pdf"};
    assert "md" in c[0] && "md" !in c[1] && "md" !in c[2] && "md" !in c[3];
    assert "txt" in c[1] && "txt" !in c[2] && "txt" !in c[3];
    assert "url" in c[2] && "url" !in c[3];
  }

  /** With the documentation theme only a note made of exactly one `md` file
      is a markdown note; every other note is a base `Note`. */
  lemma DocsClassification(exts: set<string>)
    ensures FirstMatch(Combos(DocsNoteTypes), exts) == if exts == {"md"} then Some(0) else None
  {
    assert ComboSet(TitledMarkdown) == {"md"} by {
      assert ExtensionCombo(TitledMarkdown) == ["md"];
    }
    assert Combos(DocsNoteTypes)[0] == {"md"};
  }

  /** The table of the first revision, in declaration order. */
  const LegacyCombos: seq<(string, set<string>)> :=
    [("Markdown", {"md"}), ("plain text", {"txt"}), ("Typst PDF", {"typ", "pdf"})]

  function LegacyComboSets(): (r: seq<set<string>>)
    ensures |r| == |LegacyCombos| && forall i :: 0 <= i < |r| ==> r[i] == LegacyCombos[i].1
  {
    seq(|LegacyCombos|, i requires 0 <= i < |LegacyCombos| => LegacyCombos[i].1)
  }

  /** The kind the first revision gives a note with extensions `exts`:
      the first of its table whose set equals them, or `null`. */
  function LegacyKind(exts: set<string>): Option<string> {
    match FirstMatch(LegacyComboSets(), exts) case Some(i) => Some(LegacyCombos[i].0) case None => None
  }

  /** `detectNoteKind` of the first revision: the first kind whose set
      equals the extensions, or `null`. */
  method DetectLegacyKind(exts: set<string>) returns (k: Option<string>)
    ensures k == LegacyKind(exts)
  {
    for i := 0 to |LegacyCombos|
      invariant forall j :: 0 <= j < i ==> LegacyCombos[j].1 != exts
    {
      if LegacyCombos[i].1 == exts {
        return Some(LegacyCombos[i].0);
      }
    }
    return None;
  }

  /** The first revision's kinds, spelled out: exactly {md}, {txt} and
      {typ, pdf} are recognised. */
  lemma LegacyKinds(exts: set<string>)
    ensures FirstMatch(LegacyComboSets(), exts) ==
      if exts == {"md"} then Some(0)
      else if exts == {"txt"} then Some(1)
      else if exts == {"typ", "pdf"} then Some(2)
      else None
    ensures LegacyKind(exts) ==
      if exts == {"md"} then Some("Markdown")
      else if exts == {"txt"} then Some("plain text")
      else if exts == {"typ", "pdf"} then Some("Typst PDF")
      else None
  {
    var c := LegacyComboSets();
    assert c == [{"md"}, {"txt"}, {"typ", "pdf"}];
    assert "md" in c[0] && "md" !in c[1] && "md" !in c[2];
    assert "txt" !in c[2];
  }
}
