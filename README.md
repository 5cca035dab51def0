# Side Notes — a Dafny model of the note bookkeeping

Side Notes is a VS Code extension that keeps plain-text notes in a `.notes`
directory under the project root and shows them in a tree view. This project
models its `SideNotesProvider`: the listing of the notes, the entry count it
publishes under the context key `notesView.notesLen`, the upkeep of the
`.gitignore` entry for `.notes`, the creation of a note, and the refresh that
the file-system watchers trigger.

The file system is replaced by an abstract state, the class
`Storage.Workspace`. It records whether `<root>/.notes` exists, the ordered
entries of that directory (name and content), and the content of
`<root>/.gitignore` if the file exists. The `fs` calls the extension makes
(`existsSync`, `readdirSync`, `mkdirSync`, `readFileSync`, `writeFileSync`)
are the fields, functions and methods of that class. The answer of the
name prompt is a parameter of `AddNote`: `None` for a cancelled prompt.

Files:

- `strings.dfy` (module `Strings`): `Includes`, JavaScript's substring test,
  proved against a reference definition of "occurs somewhere".
- `storage.dfy` (module `Storage`): the workspace state, and `Put`, the
  effect of writing a file into `.notes`.
- `side_notes.dfy` (module `SideNotes`): the filter, the `.gitignore`
  update, and the provider class with `GetNotes`, `GetNotesLen`,
  `CheckGitIgnoreFile`, `AddNote`, `Refresh`, activation and the watcher
  dispatch.

The model follows the code as written; in particular:

- The count (`getNotesLen`) counts every entry of `.notes`, notes or not.
  Only the listing is filtered, so the count can exceed the number of notes.
- The note filter is a substring test (`includes('.txt')`), not a suffix test.
- Writing a note whose file already exists overwrites it with empty content.
  No "already exists" conflict is reported.
- An empty name is treated like a cancelled prompt ("Name not entered"),
  because the code tests the answer for truthiness.
- `addNote` does not call `refresh` itself. The count is republished only
  when a watcher event (or the refresh command) calls `refresh`.
- The `.gitignore` test is a substring test for `.notes`, not a line match.
- Watcher events are not debounced: each one triggers one refresh.

## Model

| member | source | states |
|---|---|---|
| `Strings.Includes` | src/extension.ts:73 | `s.includes(sub)` is true exactly when `sub` occurs at some index of `s` |
| `Strings.IncludesSuffix` | src/extension.ts:108-109 | a string that ends in `b` includes `b`, so appending an entry makes the test succeed |
| `Storage.Put` | src/extension.ts:122 | writing `name` leaves that entry with the new content, leaves every other entry's content as it was, keeps the listing order, adds the name at the end only when it was absent, and keeps names distinct |
| `Storage.Workspace.Mkdir` | src/extension.ts:115-116 | creating `.notes` (only when it is absent) leaves it existing and empty, with `.gitignore` untouched |
| `Storage.Workspace.WriteGitignore` | src/extension.ts:101 | writing `.gitignore` makes it exist with exactly the given content and leaves `.notes` untouched |
| `Storage.Workspace.WriteNote` | src/extension.ts:122 | writing a note into an existing `.notes` gives the entries `Put` describes, keeps names distinct and leaves `.gitignore` untouched |
| `Storage.Workspace.ReadDir` | src/extension.ts:91 | `readdirSync` on an existing `.notes` gives one name per entry, in the entries' order |
| `Storage.Workspace.Listing` | src/extension.ts:71-74 | with the `existsSync` guard, the listing is empty when `.notes` is absent and otherwise names exactly the entries present |
| `Storage.Workspace.ReadGitignore` | src/extension.ts:105-106 | `readFileSync` on an existing `.gitignore` gives its current content |
| `SideNotes.NameEntered` | src/extension.ts:122-123 | the prompt's answer is falsy exactly when it is absent (cancelled) or the empty string |
| `SideNotes.IsNoteName` | src/extension.ts:73 | an entry is a note exactly when `.txt` occurs somewhere in its name |
| `SideNotes.IgnoreChecked` | src/extension.ts:100-111 | the new `.gitignore` content starts with the old content and adds either nothing or exactly `"\n.notes"`; a missing file ends as `"\n.notes"` |
| `SideNotes.FilterNotes` | src/extension.ts:71-74 | the notes are exactly the listed entries whose name contains `.txt`, and there are no more of them than entries |
| `SideNotes.FilterNotesAppend` | src/extension.ts:73 | the filter preserves listing order: filtering a concatenation concatenates the filtered parts |
| `SideNotes.IgnoreCheckedHasEntry` | src/extension.ts:99-111 | after the check, `.gitignore` content contains `.notes`, whether the file was missing, lacked the entry or had it |
| `SideNotes.IgnoreCheckedKeepsContent` | src/extension.ts:104-111 | the old content is a prefix of the new one; it is unchanged when it already contains `.notes`; a missing file ends as `"\n.notes"`; otherwise exactly `"\n.notes"` is appended |
| `SideNotes.IgnoreCheckedIdempotent` | src/extension.ts:104-111 | running the check on its own result changes nothing |
| `SideNotes.CreatedNoteIsListed` | src/extension.ts:122 | the file `<name>.txt` that was just written always appears in the filtered listing |
| `SideNotes.SideNotesProvider.GetNotes` | src/extension.ts:70-87 | the items are the filtered listing in listing order; an item is present exactly when `.notes` exists and holds an entry of that name that contains `.txt` |
| `SideNotes.SideNotesProvider.GetNotesLen` | src/extension.ts:89-97 | 0 when `.notes` is absent, otherwise the number of all its entries, which is never less than the number of notes listed |
| `SideNotes.SideNotesProvider.CheckGitIgnoreFile` | src/extension.ts:99-112 | `.gitignore` ends with the content `IgnoreChecked` gives for its old content (so it exists and contains `.notes`); `.notes` is untouched |
| `SideNotes.SideNotesProvider.AddNote` | src/extension.ts:114-125 | `.notes` exists and `.gitignore` contains `.notes` whatever the answer; with no or an empty name nothing in `.notes` changes and "Name not entered" is reported; otherwise `<name>.txt` is written empty (overwriting), no other entry changes, and it shows in the listing |
| `SideNotes.SideNotesProvider.Refresh` | src/extension.ts:127-130 | fires one tree change and publishes the current entry count |
| `SideNotes.SideNotesProvider.Activate` | src/extension.ts:6 | activation publishes the current entry count and fires no tree change |
| `SideNotes.SideNotesProvider.OnWatchEvent` | src/extension.ts:29-49 | every directory or file create/delete event runs exactly one refresh: one tree change, and the current count published |

## Left out

- Host UI: the tree items' `vscode.open` commands and their file URIs, `getTreeItem`/`getChildren` (which only return the item or `getNotes`), the information and error message popups, and the registration of commands and of the tree provider. Tree items are modelled by their labels.
- Watcher registration and disposal (`createFileSystemWatcher`, `context.subscriptions`): only the mapping from each event to one refresh is kept.
- The asynchrony of `showInputBox().then(...)`: `addNote` returns before the note is written; the model runs the steps in sequence with the answer given up front.
- Paths: `rootPath` may be undefined, and a name may contain `/` or `..`; names are opaque strings inside `.notes`.
- File-system failures (permissions, `.notes` being a file, a failing write) and changes made by other processes between two calls are not modelled; the workspace changes only through the calls above.
- Storage.Put: a new name is placed at the end of the listing. `readdirSync` does not list it there in general: on Linux and macOS Node returns the names sorted by byte value, on Windows in the file system's order; so creating `a.txt` beside `b.txt` lists `a.txt` first in the program and last in the model.
- Storage.Lookup, Storage.Put: names are compared exactly, as on a case-sensitive file system that does not normalise names; on a case-insensitive one a write of `Foo.txt` would overwrite an existing `foo.txt`, which the model does not capture.
- SideNotes.IgnoreChecked: file contents are the decoded UTF-8 text; that `readFileSync(…, 'utf8')` replaces invalid bytes before the content is written back is not modelled.
