# zettelbuilder core, modelled in Dafny

zettelbuilder turns a directory of note files into a static web site.
A note is the set of files that share a name: `a.note.md` is note `a`, and
`c.note.typ` with `c.note.pdf` is the two-file note `c`. The program:

- walks the source directory for files matching `/\.note\.\w+$/`;
- groups them by note name (a note stays in the directory of its first
  file);
- gives each note the class of the theme whose `extensionCombo` equals its
  set of extensions, or the base `Note` when none does;
- arranges the notes in a folder tree;
- builds the graph of `@name` cross references (an unknown name or an
  unreadable file stops the analysis);
- sorts each note's outgoing and incoming references by name;
- writes `index.html` and one `<name>.html` page per note. A theme's
  `render` may throw (an `ExternalURLNote` whose url file holds no url),
  and then the build stops after the pages before that note.

A live server serves the build directory. It resolves pretty URLs (`/a`
serves `a.html`, a directory serves its `index.html`). `src/server.tsx`
appends a reload snippet to HTML pages and probes for a free port. A
`BufferedCallback` coalesces file-change events into rebuilds. Notes and
files memoise what they read: a `LazyFile` keeps the first text it reads,
and a note keeps its first title and its first url.

The model follows the source file by file:

| Dafny module | file | models |
|---|---|---|
| `Wrappers`, `Errors` | wrappers.dfy, errors.dfy | `null`/`undefined` as `Option`; each exception the core throws, and the `TypeError` of reading a missing file or a missing `options`, as an `Error` constructor (the `TypeError`s of keys that JavaScript objects inherit are not modelled, see "Left out") |
| `Strings` | strings.dfy | `split`, `join`, `endsWith`, the JavaScript `<` order on strings (by UTF-16 code units), and `sort()` of the elements of a set |
| `Paths` | paths.dfy | the POSIX `parse`, `resolve`, `relative`, `join` and `normalize` of `@std/path`, with the working directory as a parameter; the note-file filter |
| `LazyFiles` | lazyfile.dfy | class `LazyFile` (`src/utils.ts`, `src/analyse.tsx`) |
| `NoteTypes` | notetypes.dfy | the theme classes, their extension combinations, `detectNoteType` and `detectNoteKind`, and the table of the first revision |
| `Markup` | markup.dfy | the themes' regular expressions: `@name` references, the link rewrite, the first-`#` title and the `https?:` url |
| `Notes` | note.dfy | class `Note`: the `title` and `url` memos, `extractRefs` and `description` |
| `Assemble` | assemble.dfy | `notesFromFiles` of both revisions: grouping, classification and construction |
| `Folders` | folders.dfy | `notesByFolder` |
| `CrossRefs` | crossrefs.dfy | `getCrossrefGraph` |
| `Projects` | project.dfy | class `Project`: `getNoteFiles`, `analyse`, `renderPage` and `build` |
| `Server` | server.dfy | `BufferedCallback`, `handleFile` of both server revisions, `getAvailablePort`, the port choice and the URL root |
| `Legacy`, `LegacyTest` | legacy.dfy, legacy_test.dfy | `detectNotes` of the first revision (`analyse.tsx`) and its snapshot test |

Two revisions share one model where they differ in only a branch:

- `Revision` tells `src/project.ts` (`Modular`) from `src/analyse.tsx` (`Bundled`).
- `ServerRevision` tells `src/server.tsx` (`Injecting`) from `src/server.ts` (`Plain`).

The file system is a map from path to text (for the server, to bytes or a
directory). The clock is the time passed to each `trigger`. Port
availability is a predicate. The directory walk is a function from a
directory to the paths below it.

Where the code and its own documentation disagree, the model follows the
code:

- The comment on `warmup` says it is measured after the most recent
  trigger. The code arms the timer at the FIRST trigger of a burst, so the
  callback can run sooner (`Server.BurstArmsOnce`, `Server.DefaultScenario`).
- `build` empties the build directory before anything else, so no earlier
  output survives (`Projects.Project.Build`).

## Model

| member | source | states |
|---|---|---|
| Strings.Split | src/project.ts:44 | `split` on one separator: at least one piece, no piece holds the separator, and a string without it is one piece |
| Strings.SplitJoin | src/project.ts:44 | splitting a join gives back the pieces when no piece holds the separator (the round trip of a note's directory) |
| Strings.JoinInjective | analyse.tsx:62 | two directory lists of proper segments join with `/` to the same string exactly when they are equal, so the string comparison compares directories |
| Strings.Units | src/project.ts:256 | a character is one UTF-16 code unit below U+10000, otherwise a high surrogate followed by a low one, the form JavaScript compares |
| Strings.Utf16 | src/project.ts:256 | a string's code units are at least one and at most two per character |
| Strings.UnitsInjective | src/project.ts:256 | two characters with the same code units are equal |
| Strings.UnitsPrefixFree | src/project.ts:256 | the code units of one character never begin those of another, so the rest is determined too |
| Strings.Utf16Injective | src/project.ts:256 | different strings have different code units, so comparing code units is a total order on strings |
| Strings.LessIrreflexive | src/project.ts:256 | no string is below itself |
| Strings.LessTransitive | src/project.ts:256 | `<` on strings is transitive |
| Strings.LessTotal | src/project.ts:256 | of two different strings exactly one is below the other |
| Strings.LessBySurrogates | src/project.ts:256 | the order is by code units: U+1F600 comes before U+FF01 although its code point is larger |
| Strings.SortedSet | src/project.ts:256 | the elements of a set in strictly ascending `<` order, each once |
| Strings.SortedUnique | src/project.ts:256 | two ascending lists of the same strings are equal, so `sort()` gives one result whatever order the set iterates in |
| Strings.InsertSorted | src/project.ts:256 | inserting a new string keeps the list ascending and adds exactly that string |
| Strings.SortStrings | src/project.ts:255-256 | `Array.from(set).sort()` taking the elements out in any order returns the ascending list of the set |
| Paths.TrimTrailingSlashes | src/project.ts:39 | `parse` ignores trailing separators: the result is no longer than the path and ends in no `/` unless it is the root |
| Paths.SplitExt | src/project.ts:39-41 | name and extension concatenate to the base name; the extension is empty or one dot followed by no further dot |
| Paths.NormalizeSegments | src/project.ts:43 | normalised segments are never empty, `.` or separator-holding; without `allowAboveRoot` they stay canonical |
| Paths.Resolve | src/project.ts:43 | `resolve` always yields a canonical absolute path |
| Paths.CommonPrefixLength | src/project.ts:43 | the length of the longest common prefix of two segment lists |
| Paths.RelativeSegments | src/project.ts:43 | the relative path has no empty and no separator-holding segment |
| Paths.DirSegmentsAreRelative | src/project.ts:43-44 | a note's `dir` is exactly the relative segments, and for a file below the root it is the sub-directories under the root |
| Paths.StripTrailingSlash | src/project.ts:211 | `replace(/\/$/, "")` removes exactly one trailing `/` and otherwise changes nothing |
| Paths.WordSuffixLength | src/project.ts:214 | the longest suffix made of `\w` characters |
| Paths.IsNoteFileMatches | src/project.ts:214 | the scan accepts a path exactly when it is some text, `.note.`, and one or more word characters: the regular expression `/\.note\.\w+$/` |
| LazyFiles.ReadFs | src/utils.ts:35 | reading succeeds exactly for an existing path, with its text, and otherwise fails with that path |
| LazyFiles.LazyFile.constructor | src/utils.ts:26-29 | the path is kept as given and nothing is read or cached |
| LazyFiles.LazyFile.Content | src/utils.ts:32-38 | the file is read only while nothing is cached; after a successful read the cached text is returned; a failed read caches nothing |
| LazyFiles.ReadTwice | src/utils.ts:17-20 | a second access returns what a successful first one did, even if the file changed on disk in between |
| NoteTypes.Combos | src/project.ts:18 | the extension set of each class, position by position |
| NoteTypes.FirstMatch | src/project.ts:17-22 | the first combination equal to the extensions, and none exactly when no combination is equal |
| NoteTypes.DetectNoteType | src/project.ts:13-29 | the first class whose combination equals the extensions, and the base `Note` when none does |
| NoteTypes.DetectNoteKind | src/analyse.tsx:46-57 | the same search, giving `undefined` when no class matches |
| NoteTypes.DetectionsAgree | src/project.ts:28 | with the base `Note` as the default the two revisions' searches pick the same class |
| NoteTypes.MinimalCombosDistinct | src/themes/minimal.tsx:135-207 | the minimal theme's combinations {md}, {txt}, {url} and {typ, pdf} are pairwise different, so no note matches two classes |
| NoteTypes.DocsClassification | docs/theme.tsx:161-163 | with the documentation theme exactly the notes made of one `md` file are markdown notes |
| NoteTypes.LegacyComboSets | analyse.tsx:12-16 | the table's sets in declaration order |
| NoteTypes.DetectLegacyKind | analyse.tsx:18-25 | the first kind whose set equals the extensions, or `null` |
| NoteTypes.LegacyKinds | analyse.tsx:12-25 | exactly {md}, {txt} and {typ, pdf} are recognised, as Markdown, plain text and Typst PDF |
| Markup.Run | src/themes/minimal.tsx:141 | the greedy `[-\w]+`: a prefix of name characters that the next character does not extend |
| Markup.HandleShift | src/themes/minimal.tsx:141 | a suffix has the handles of the whole string at the shifted positions |
| Markup.HandlesCons | src/themes/minimal.tsx:141 | the handles of a string are the handle at its front, if any, and those of the rest |
| Markup.HandlesDrop | src/themes/minimal.tsx:141 | dropping a front without handles keeps the handles |
| Markup.RefsAreHandles | src/themes/minimal.tsx:139-143 | the left-to-right scan finds exactly the names after the `@`s that a name character follows; each is maximal |
| Markup.NoAtNoRefs | src/themes/minimal.tsx:139-143 | a text with no `@` refers to no note |
| Markup.NoAtUnchanged | src/themes/minimal.tsx:146-148 | text without an `@` passes both rewrite passes unchanged |
| Markup.LinkRefsPieces | src/themes/zetteldocs.tsx:159-161 | the link rewrite (`LinkRefs`, pass 1 `LinkParens` then pass 2 `LinkHandles`): for any cutting of the text into pieces as the two patterns pick them out, each `(@n)` with `n` a maximal name becomes `(n.html)`, every other `@n` becomes `[@n](n.html)`, and every other character is kept, in order |
| Markup.PiecesExist | src/themes/zetteldocs.tsx:159-161 | every text has such a cutting |
| Markup.ValidUnique | src/themes/zetteldocs.tsx:159-161 | a valid cutting is the only one: the left-to-right scan gives it back |
| Markup.TokensSource | src/themes/zetteldocs.tsx:159-161 | the pieces of the scan spell the text, with nothing lost or reordered |
| Markup.TokensValid | src/themes/zetteldocs.tsx:159-161 | the scan's pieces follow the patterns: names are maximal, a kept `@` has no name after it, a kept `(` starts no `(@name)` |
| Markup.TokensHead | src/themes/zetteldocs.tsx:159-161 | the first piece starts with the text's first character |
| Markup.LinkRefsTokens | src/themes/zetteldocs.tsx:159-161 | the two passes rewrite the text piece by piece |
| Markup.LinkRefsParen | src/themes/zetteldocs.tsx:160-161 | at `(@n)` the output is `(n.html)`, which pass 2 leaves alone, followed by the rewrite of the rest |
| Markup.LinkRefsMention | src/themes/zetteldocs.tsx:160-161 | at any other `@n` the output is `[@n](n.html)` followed by the rewrite of the rest |
| Markup.LinkRefsKept | src/themes/zetteldocs.tsx:160-161 | at a character that starts no handle the character is kept |
| Markup.RunOf | src/themes/zetteldocs.tsx:161 | the name of a handle ends where the next character does not extend it |
| Markup.LinkParensCons | src/themes/zetteldocs.tsx:160 | pass 1 copies a character other than `(` |
| Markup.LinkParensRun | src/themes/zetteldocs.tsx:160 | pass 1 copies a run of name characters |
| Markup.LinkParensHead | src/themes/zetteldocs.tsx:160 | pass 1 keeps the first character |
| Markup.LinkParensMention | src/themes/zetteldocs.tsx:160 | pass 1 copies an `@` and its name |
| Markup.LinkHandlesCons | src/themes/zetteldocs.tsx:161 | pass 2 copies a character other than `@` |
| Markup.LinkHandlesNoAt | src/themes/zetteldocs.tsx:161 | pass 2 copies text without an `@` |
| Markup.LinkHandlesAt | src/themes/zetteldocs.tsx:161 | pass 2 turns `@n`, with nothing extending `n`, into `[@n](n.html)` |
| Markup.IndexOf | src/themes/zetteldocs.tsx:147 | the first occurrence of a character, and none exactly when it does not occur |
| Markup.SkipSpaces | src/themes/zetteldocs.tsx:147 | the greedy `\s*`: only whitespace is skipped and it stops at the first other character |
| Markup.LineEnd | src/themes/zetteldocs.tsx:147 | the greedy `.*`: it stops at the first line terminator |
| Markup.MarkdownTitle | src/themes/zetteldocs.tsx:146-150 | `"title unknown"` without a `#`; otherwise the capture of `/#\s*(.*)/` at the first `#`: the whitespace after the `#` is skipped in full, newlines included, and the title runs to the end of its line |
| Markup.TitleMatchUnique | src/themes/zetteldocs.tsx:147 | `/#\s*(.*)/` matches at the first `#` in one way only, because `\s*` and `.*` are greedy |
| Markup.MarkdownTitleIsMatch | src/themes/zetteldocs.tsx:146-150 | whenever the text has a match at its first `#`, the title is that match's capture |
| Markup.FirstUrlStart | src/themes/minimal.tsx:184 | the leftmost `http:` or `https:` at or after a position |
| Markup.UrlSchemeOnOneLine | src/themes/minimal.tsx:184 | the scheme of a url lies on one line |
| Markup.FindUrl | src/themes/minimal.tsx:184-187 | no url exactly when no `http:`/`https:` occurs; otherwise the match from the leftmost one to the end of its line |
| Notes.Note.constructor | src/note.ts:56-69 | name, directory and files are kept; a new note has no references and nothing cached |
| Notes.Note.ReadFile | src/themes/minimal.tsx:141 | `files[ext].content` through the file's cache, failing for a missing extension; no file changes what it would give |
| Notes.Note.Title | src/note.ts:43-47 | `getTitle` runs only while nothing is cached and its first successful result is returned from then on; references and url are untouched |
| Notes.Note.ExtractRefs | src/note.ts:78-80 | the references the note's class finds now, and no file changes what it would give |
| Notes.Note.Url | src/themes/minimal.tsx:181-191 | the url is computed only while nothing is cached; a url file without `http:`/`https:` fails with its path and caches nothing |
| Notes.Note.Description | src/note.ts:49-54 | the class's static description when it has one, and otherwise the extensions ascending, each once, joined by `", "` |
| Notes.DefaultTitle | src/note.ts:39-41 | a note of any class but the titled markdown one has its name as title |
| Notes.DefaultRefs | src/note.ts:78-80 | the default `extractRefs` finds nothing, whatever `allNames` is |
| Notes.MarkdownRefs | src/themes/zetteldocs.tsx:152-156 | a markdown note refers exactly to the names after the `@` handles of its markdown file |
| Notes.RefsNowFromFs | src/utils.ts:32-38 | while no file caches other text than the file system's, a note's references are those of the file system's texts |
| Assemble.ParseBase | src/project.ts:39-41 | after a directory prefix, `parse` takes name and extension from the base name |
| Assemble.ParseDir | src/project.ts:39-43 | the directory `parse` gives is the prefix without its separator (the root for `/`) |
| Assemble.SplitNoteExt | src/project.ts:40-41 | `<n>.note.<ext>` splits into `<n>.note` and `.<ext>` |
| Assemble.NoteBaseName | src/project.ts:39 | `<n>.note.<ext>` holds no separator when its parts hold none |
| Assemble.ParseNoteFile | src/project.ts:39-41 | `parse` of a note file gives the name `<n>.note` and the extension `.<ext>` |
| Assemble.NoteFileOfShape | src/project.ts:39-41 | a file `<n>.note.<ext>` belongs to note `n` under key `ext` |
| Assemble.Entries | src/project.ts:38-44 | one note file per path, in order |
| Assemble.GroupNames | src/project.ts:46-53 | the notes are exactly the names of the files, each listed once, in the order of their first files |
| Assemble.GroupNamesStep | src/project.ts:46-53 | one more file keeps the notes equal to the names of the files |
| Assemble.GroupOrderStep | src/project.ts:46-53 | one more file keeps the names in order of first appearance |
| Assemble.GroupDirs | src/project.ts:46-71 | every note is keyed by its name and lies in the directory of its first file, whatever later files say |
| Assemble.GroupFileKeys | src/project.ts:73 | a note has a file for exactly the extensions its files have |
| Assemble.GroupFilesLastWins | src/project.ts:73 | for an extension used twice by one note the later file is kept |
| Assemble.ClassifyModular | src/project.ts:77-80 | every note gets the class its extensions pick, the base `Note` when none matches |
| Assemble.ClassifyBundled | src/analyse.tsx:113-126 | skipping unmatched notes (`continue`) leaves them with their initial base type, so the result is the same as `ClassifyModular` |
| Assemble.GatherFiles | src/project.ts:38-74 | the grouping loop gathers exactly the grouping, with a fresh unread `LazyFile` per file |
| Assemble.Construct | src/project.ts:83-92 | one fresh note per name with the gathered name, directory, files and class, and no two names sharing a note |
| Assemble.NotesFromFiles | src/project.ts:31-95 | the notes of the paths in the order their names first occur, each built from its grouping as the class its extensions pick, all fresh and unread |
| Folders.InsertAt | src/project.ts:104-111 | placing a note changes only the folder its path leads to, and creates folders only along that path |
| Folders.EmptyNowhere | src/project.ts:100 | an empty tree has no notes and no folder but the root |
| Folders.TreePlacesNotes | src/project.ts:97-115 | a folder holds a note exactly when the note's directory is that folder's path, so no note is lost or placed twice |
| Folders.TreeFolders | src/project.ts:105-110 | there is a folder exactly at the root and along the notes' directories |
| Folders.Placements | src/project.ts:102-103 | the notes to place, in key order, each with its directory |
| Folders.NotesByFolder | src/project.ts:97-115 | the loop builds the tree of all notes placed in order |
| CrossRefs.GraphValidation | src/project.ts:121-130 | the graph is built exactly when every note's references were read and name known notes; otherwise the first offending note's error is raised |
| CrossRefs.ErrorStops | src/project.ts:124-130 | once a note fails, later notes are not looked at |
| CrossRefs.EntryNamesMember | src/project.ts:120 | a name is among the notes' names exactly when some note has it |
| CrossRefs.AllRefsSnoc | src/project.ts:132-135 | the names referred to grow by the last note's references |
| CrossRefs.ReferrersSnoc | src/project.ts:132-135 | the referrers of a name grow by the last note when it refers to that name |
| CrossRefs.BuildGraphSnoc | src/project.ts:131-135 | the last note adds its references in both directions to the graph of the notes before it |
| CrossRefs.OutgoingUpdate | src/project.ts:131 | setting the last note's outgoing set keeps those of the earlier notes |
| CrossRefs.OutgoingStep | src/project.ts:131 | one more note keeps the outgoing map exactly the notes' references |
| CrossRefs.GraphOutgoing | src/project.ts:131 | a built graph has an outgoing entry for every note, holding exactly its references, and no other |
| CrossRefs.IncomingStep | src/project.ts:132-135 | one more note keeps the incoming map exactly the referrers of each name |
| CrossRefs.GraphIncoming | src/project.ts:132-135 | a built graph has an incoming entry for every name referred to, holding exactly the notes that refer to it |
| CrossRefs.IncomingInvertsOutgoing | src/project.ts:145-150 | `n` is in `incoming[r]` exactly when `r` is in `outgoing[n]` |
| CrossRefs.GraphNamesKnown | src/project.ts:123-130 | a built graph mentions only notes: outgoing sets of known names, incoming sets of notes' names |
| CrossRefs.Snapshot | src/project.ts:121-122 | one entry per note |
| CrossRefs.SnapshotAt | src/project.ts:122 | entry `i` is note `i`'s name and its references as they stand |
| CrossRefs.FsSnapshot | src/project.ts:122 | one entry per note, from the file system's texts |
| CrossRefs.SnapshotFromFs | src/utils.ts:32-38 | with nothing cached but the file system's texts, the two snapshots agree |
| CrossRefs.AddIncomingStep | src/project.ts:133-134 | adding one more reference creates its set if absent and adds the note to it |
| CrossRefs.AddToIncoming | src/project.ts:132-135 | the loop over the references, in whatever order a set iterates, adds the note to the incoming set of each |
| CrossRefs.ExtractAt | src/project.ts:122 | `extractRefs` of note `i` gives its references as they stood, and no file of any note changes what it gives |
| CrossRefs.Visit | src/project.ts:121-136 | one turn of the outer loop extends the graph of the notes before it, or stops with the error |
| CrossRefs.GetCrossrefGraph | src/project.ts:117-138 | the graph of the references the notes' files held when called, or the first error; reading fills caches but changes what no file gives |
| Projects.NoteFiles | src/project.ts:210-218 | of the walked paths, exactly those matching the note-file filter are kept, and no path is added |
| Projects.InOrder | src/project.ts:252 | `Object.values(notes)`: the notes in key order |
| Projects.Lookup | src/project.ts:255 | a name's set, empty when it has none |
| Projects.RefList | src/project.ts:256 | the note of each name, position by position |
| Projects.SortedRefsListed | src/project.ts:253-258 | a sorted reference list holds exactly the notes named in the set, each once, in ascending order of name |
| Projects.SetRefsIn | src/project.ts:256 | one direction's list is replaced; the other direction and the caches are kept |
| Projects.SetNext | src/project.ts:254-257 | one round gives the next note its sorted list and keeps those of the notes before |
| Projects.SetDirection | src/project.ts:254-257 | every note's list in one direction becomes its sorted references; the other direction and the caches are kept |
| Projects.SetRefs | src/project.ts:253-258 | every note's `refs.outgoing` and `refs.incoming` become the notes its graph sets name, sorted by name |
| Projects.DefaultRender | src/note.ts:92-102 | the default page in `src/note.ts` is exactly the string of line breaks, tabs, the sentence and the inspected note in `<pre>`; in `src/analyse.tsx` it is an element |
| Projects.DefaultPageDoctype | src/project.ts:273-275 | a string page is written as it is, an element after `<!DOCTYPE html>` |
| Projects.NotePage | src/project.ts:301-302 | a base `Note` gets the default page; any other note gets what its theme's `render` gives, page or error |
| Projects.Pages | src/project.ts:300-303 | every note's page or render error, in key order |
| Projects.OkCount | src/project.ts:300-304 | the number of notes rendered before the first render error: all before it succeeded, and the one at it failed |
| Projects.PagesOf | src/project.ts:300-304 | the pages of the notes before the first error, each the one rendered |
| Projects.OkCountAt | src/project.ts:300-304 | the first failing note is where rendering stops |
| Projects.PageWrites | src/project.ts:297-304 | `index.html` is written first, then `<name>.html` for every note in key order |
| Projects.PageWritesSnoc | src/project.ts:300-304 | the last note's page is the last write |
| Projects.PageWritesStep | src/project.ts:300-304 | one more successfully rendered note adds the write of its page |
| Projects.SiteSnoc | src/project.ts:276 | a write leaves the written text at its page name |
| Projects.HtmlNamesSnoc | src/project.ts:303 | the page names grow by the last note's |
| Projects.SiteKeys | src/project.ts:296-304 | a build leaves `index.html` and the page of every note, and nothing else |
| Projects.SiteNotePages | src/project.ts:300-304 | after a build every note's page holds that note's page |
| Projects.SiteIndexPage | src/project.ts:297-303 | `index.html` holds the index page unless a note named `index` overwrites it |
| Projects.SitePageWritesSnoc | src/project.ts:303 | the site after the last write is the earlier site with the last note's page |
| Projects.IndexHtmlName | src/project.ts:303 | the page of a note named `index` is `index.html` |
| Projects.HtmlNamesDiffer | src/project.ts:303 | different notes get different page names |
| Projects.GroupKeyed | src/project.ts:46-53 | notes taken one for one from a grouping are keyed by their own names, each listed once |
| Projects.FilesOfInOrder | src/project.ts:252 | the files of the notes in key order are files of the notes |
| Projects.Collect | src/project.ts:249-250 | the note files assembled into fresh, unread notes keyed by name |
| Projects.LinkReady | src/project.ts:252 | before the graph is built the notes carry the keys' names and their references are the file system's |
| Projects.LinkedNamesKnown | src/project.ts:252-256 | a built graph names only notes, so every sorted list can be looked up |
| Projects.SnapshotNames | src/project.ts:252 | the snapshot of the notes in key order is named by the keys |
| Projects.EntriesKeyed | src/project.ts:252 | the snapshot carries the notes' names, each once |
| Projects.Link | src/project.ts:252-258 | the graph of the file system's references, and on success every note's lists set from it |
| Projects.Prepare | src/project.ts:283-293 | the build directory is emptied first, then each asset is copied to its place below it |
| Projects.WritePages | src/project.ts:295-304 | the index page, then the pages of the notes in key order up to the first render error; it reports that note and its error, and nothing exactly when every note rendered |
| Projects.Project.constructor | src/project.ts:220-241 | settings kept as given, the analysis empty |
| Projects.Project.Analyse | src/project.ts:248-268 | on success the analysis is replaced by the files, notes, tree and graph of the source directory, with every note's references sorted; on failure the old analysis stays |
| Projects.Project.Build | src/project.ts:279-307 | empty and copy happen before the analysis; a failed analysis writes nothing more; a failed index page writes nothing more; otherwise the index page and then the note pages up to the first render error are written, and the build succeeds exactly when every note rendered |
| Server.Triggered | src/server.tsx:78-93 | a trigger while locked is dropped; otherwise it arms at most one timer, appended after the armed ones, and changes neither lock nor callbacks |
| Server.Fired | src/server.tsx:86-88 | a timer body takes the lock and hands the current count to the callback |
| Server.Cooled | src/server.tsx:89-91 | after the cooldown the count is reset and the lock released |
| Server.LockedDropsTriggers | src/server.tsx:79 | while locked every trigger is lost |
| Server.BurstArmsOnce | src/server.tsx:80-92 | a burst from past the deadline arms one timer, due `warmup` after its first trigger, counts every trigger and leaves the deadline `warmup` after the last |
| Server.BurstReported | src/server.tsx:86-92 | a burst is reported to the callback at once with its size; after the cooldown the next trigger arms a new timer |
| Server.DefaultScenario | src/server.tsx:201-207 | with warm-up 100 and cooldown 500, three changes become one callback with count 3 at 1100; a change during it is lost; a later one starts a new round |
| Server.BufferedCallback.constructor | src/server.tsx:65-76 | settings kept, the coalescer idle |
| Server.BufferedCallback.Trigger | src/server.tsx:78-93 | `trigger()` moves the object to the `Triggered` state |
| Server.BufferedCallback.Fire | src/server.tsx:86-88 | a timer body moves the object to the `Fired` state and returns the count handed to the callback |
| Server.BufferedCallback.FinishCooldown | src/server.tsx:89-91 | the end of a cooldown moves the object to the `Cooled` state |
| Server.NewRebuildCallback | src/server.tsx:201-207 | the watcher's coalescer has warm-up 100, cooldown 500 and starts idle |
| Server.Combine | src/server.tsx:132-136 | the combined buffer is the bytes followed by the snippet |
| Server.HandleFile | src/server.tsx:96-146 | the response of both revisions: one fallback after `stat`, status 200 with the file (with the snippet for HTML in `server.tsx`), or 404 |
| Server.ServedStatus | src/server.tsx:115-128 | status 200 exactly when the path after the fallback is a file, the body starting with its bytes; a 404 reports the URL path, the file path and the working directory |
| Server.PayloadInjects | src/server.tsx:130-145 | an HTML page from `server.tsx` is the file followed by the snippet; every other file, and all of `server.ts`, is sent unchanged |
| Server.HtmlFallback | src/server.tsx:110-113 | a missing path falls back to the path with `.html`, whose body gets the snippet in `server.tsx` |
| Server.PrettyUrlServed | src/server.tsx:101-113 | a URL naming no file is served from the same path with `.html` |
| Server.OneFallback | src/server.tsx:103-113 | only one fallback is tried: a directory needs an `index.html` file, a missing path needs its `.html` file |
| Server.RequestBelowRoot | src/server.tsx:101 | a URL below the root maps to its segments under it; any other URL climbs out with `..`, and nothing rejects it |
| Server.GetAvailablePort | src/server.tsx:161-168 | the first free port from 3000 up to 3999, and an error exactly when none is free |
| Server.ChoosePort | src/server.tsx:189 | a given port is used as it is; without one `server.tsx` probes and `server.ts` takes 8000 |
| Server.UrlRoot | src/server.tsx:183 | `join("/", urlRoot)` is always an absolute path |
| Server.DefaultUrlRoot | src/server.tsx:172-183 | without a URL root the server is rooted at `/` |
| Legacy.NoteFileDirProper | analyse.tsx:49-50 | the directory of a note file is made of proper segments |
| Legacy.GatheredSnoc | analyse.tsx:45-71 | one more file either stops the loop at the assertion or is added |
| Legacy.GatheredStops | analyse.tsx:61-66 | once the assertion fails, later files change nothing |
| Legacy.GatheredKeys | analyse.tsx:52-58 | the gathered notes are the names listed |
| Legacy.ClashPrefix | analyse.tsx:61-66 | whether a file clashes depends only on the files before it |
| Legacy.GatheredStep | analyse.tsx:59-70 | after clean files, the assertion fails exactly when the new file clashes, and otherwise the grouping is that of the later revisions |
| Legacy.GatheredGroups | analyse.tsx:45-71 | the assertion fails exactly when some file puts its note in a second directory, and then at the first such file; otherwise the grouping is the later revisions' |
| Legacy.GatherNotes | analyse.tsx:45-71 | the grouping loop with its assertion |
| Legacy.LabelNotes | analyse.tsx:73-86 | every note gets the kind the table gives its extensions, or `null` |
| Legacy.DetectNotes | analyse.tsx:38-89 | `detectNotes`: without `options` it fails on the first path; otherwise it gathers and labels the notes |
| Legacy.DetectedNotesGroups | analyse.tsx:38-89 | with a root, the notes are the later revisions' grouping, labelled by the table, exactly when no name is used in two directories; otherwise the first such file is reported |
| LegacyTest.FixtureEntries | test/analyse_test.ts:9-14 | the four test paths give notes `a` and `b` in `maths` and the two files of `c` at the top |
| LegacyTest.FixturePathsShape | test/analyse_test.ts:10-13 | the test paths taken apart into directory, name and extension |
| LegacyTest.EntriesOfShape | test/analyse_test.ts:9-14 | two notes in one directory and one note with two files at the top give their note files |
| LegacyTest.PairInDir | test/analyse_test.ts:10-11 | two files in directory `d` are notes in `[d]` |
| LegacyTest.PairAtTop | test/analyse_test.ts:12-13 | two top-level files of one note have the empty directory |
| LegacyTest.SubDir | analyse.tsx:49-50 | below the root `.`, directory `d` is the one segment `d` |
| LegacyTest.TopDir | analyse.tsx:49-50 | below the root `.`, the empty directory has no segments |
| LegacyTest.FixtureGathered | test/analyse_test.ts:9-14 | the test's files group into `a`, `b`, `c` with `c`'s two files merged |
| LegacyTest.FixtureLabels | analyse.tsx:73-86 | labelling the test's notes gives the expected snapshot |
| LegacyTest.MarkdownLabel | analyse.tsx:13 | a note with one `md` file is Markdown |
| LegacyTest.TypstLabel | analyse.tsx:15 | a note with `typ` and `pdf` files is Typst PDF |
| LegacyTest.FixtureWithoutOptions | test/analyse_test.ts:9-14 | called as the test calls it, without `options`, `detectNotes` fails |
| LegacyTest.FixtureNotes | test/analyse_test.ts:7-15 | with the working directory as root the test's paths give the expected snapshot, in the order `a`, `b`, `c` |
| LegacyTest.DetectedFrom | analyse.tsx:73-88 | a successful grouping is labelled into the result |
| LegacyTest.FixtureFile | analyse.tsx:46-50 | one test path below `.` gives its note, directory and extension |
| LegacyTest.NoteFileDir | analyse.tsx:46 | the directory `parse` gives for a test path |

## Left out

- Console output (`log`, `console.error`, `console.clear`, timing messages) is not modelled. This includes two bugs that only affect log text. `src/project.ts:25` prints a `name` that is not in scope. `src/project.ts:64` iterates with `for ... in`, so it logs array indices instead of the paths.
- `Deno.inspect` is the parameter `inspect`, and its formatting is not modelled. The 404 body is not modelled as text. `Server.HandleFile`: the `NotFound` response carries the URL path, file path and working directory, but not the caught `error` object that `src/server.tsx:125` adds.
- JSX rendering with Preact, the theme components (`NotePage`, `IndexPage`, `toc`, `NoteLink`, `NoteHeader`) and the index page are left out, because they are markup generation. A page is an abstract `Element` carrying its markup, and a theme's `render` is a parameter that gives a page or, where it throws, an `Error` (for `ExternalURLNote`, the `NoUrl` of reading its url).
- The markdown renderer from `@deno/gfm` is a foreign library and is left out. The link rewrite done before it is modelled (`Markup.LinkRefsPieces`).
- `new URL(...)` parsing is left out. `Notes.Note.Url` keeps the matched text as the url, so a match that `URL` rejects is not reported as an error.
- `Notes.Note.Description`: its `requires` excludes `ExternalURLNote`, whose `description` is `${url.host} link` and needs URL parsing.
- `TypstNote.render` copies its PDF with `Deno.copyFile`; this is file I/O and is left out.
- The live server's I/O is left out: `Deno.serve`, the WebSocket endpoint and its `reload` messages, `Deno.watchFs`, `Project.serve`, and the unused `resolve(fsRoot)`.
- `checkPort` is the predicate `portFree`, because it needs to bind a socket.
- Time and the event loop are not real. `setTimeout` and `wait` become explicit `Fire` and `FinishCooldown` steps, in an order the caller chooses. What the callback does (`onChange`, which rebuilds) is not modelled.
- `walkSync` and `walk` are the function parameter `walk`. The model does not say which files a real directory holds or in what order they come.
- The file-system effects of `build` (`mkdirSync`, `removeSync`, `copySync`, `writeTextFileSync`) are recorded as a list of `Action`s, not performed.
- The `existsSync` call in the `LazyFile` constructor discards its result, so the model does nothing for it.
- JavaScript objects list integer-like keys first, in numeric order. The model keeps keys in first-insertion order, so a note whose name looks like an integer is listed in a different place than the program would list it.
- The POSIX flavour of `@std/path` is the only one modelled; Windows paths and separators are not.
- The two themes' own `build` functions (`src/themes/minimal.tsx:220-229`, `src/themes/zetteldocs.tsx:174-183`) do the same writes as `Project.build`, without emptying the build directory or copying assets. They have no model of their own.
- `CrossRefs.Snapshot`: its ensures states only the length. The value at each position is stated by `CrossRefs.SnapshotAt`.
- NotesFromFiles: JavaScript's `in` and `[]` on a plain object also find the keys it inherits from `Object.prototype` (`constructor`, `toString`, `valueOf`, `hasOwnProperty`, `__proto__` and the rest). For a note named like one of them `name in noteInfo` is true, and `noteInfo[name].dir.join` then throws a `TypeError` (src/project.ts:46,55, src/analyse.tsx:83,92). An extension `__proto__` sets the prototype of `files` instead of adding a key (src/project.ts:73). The model keys plain maps, so it builds an ordinary note in these cases (`Assemble.AddFile`, `Assemble.Group`).
- NotesByFolder: for a directory segment named like an inherited key, `dir.folders[c] === undefined` is false and the next step throws (src/project.ts:106-111, src/analyse.tsx:156-159). The model builds the folder (`Folders.Insert`).
- DetectNotes: for a note named like an inherited key, `notes[name].dir.join` throws a `TypeError` (analyse.tsx:52,62). The model gathers the note (`Legacy.Gathered`).
- Strings hold Unicode scalar values. JavaScript strings can also hold lone surrogates, which no note name read from the file system contains.

## Findings

| source | as written | input that shows it | evidently intended | confidence | as-written member | corrected member |
|---|---|---|---|---|---|---|
| test/analyse_test.ts:9-14 | the snapshot test calls `detectNotes` with the paths but no `options`, and `analyse.tsx:49` then reads `options.root` from `undefined` | the four test paths, with `options` absent | `detectNotes(paths, { root: "." })`, which gives notes `a` and `b` in `maths` (Markdown) and `c` at the top (Typst PDF) | medium, not executed | LegacyTest.FixtureWithoutOptions | LegacyTest.FixtureNotes |
