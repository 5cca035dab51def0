/** The note bookkeeping of the Side Notes extension: listing the notes,
    counting the directory's entries, keeping `.notes` out of version control,
    creating a note, and publishing the count when the directory changes. */
module SideNotes {
  import opened Strings
  import opened Storage

  /** A directory entry is shown as a note when its name contains `.txt`
      anywhere (a substring test, not a suffix test). */
  predicate IsNoteName(name: string)
    ensures IsNoteName(name) <==> Contains(name, ".txt")
  {
    Includes(name, ".txt")
  }

  /** `names.filter(file => file.includes('.txt'))`. */
  function FilterNotes(names: seq<string>): (r: seq<string>)
    ensures |r| <= |names|
    ensures forall x :: x in r <==> x in names && IsNoteName(x)
  {
    if names == [] then
      []
    else
      assert names == [names[0]] + names[1..];
      (if IsNoteName(names[0]) then [names[0]] else []) + FilterNotes(names[1..])
  }

  /** The filter keeps listing order: it works piece by piece. */
  lemma {:induction false} FilterNotesAppend(a: seq<string>, b: seq<string>)
    ensures FilterNotes(a + b) == FilterNotes(a) + FilterNotes(b)
  {
    if a == [] {
      assert a + b == b;
    } else {
      assert (a + b)[1..] == a[1..] + b;
      FilterNotesAppend(a[1..], b);
    }
  }

  /** The content of `.gitignore` after `checkGitIgnoreFile`, given its
      content before (None when the file did not exist): a missing file is
      created empty, and `"\n.notes"` is appended unless `.notes` already
      occurs somewhere in the content. */
  function IgnoreChecked(before: Option<string>): (r: string)
    ensures before.Some? ==> before.value <= r && r[|before.value|..] in {"", "\n.notes"}
    ensures before.None? ==> r == "\n.notes"
  {
    var content := if before.Some? then before.value else "";
    if Includes(content, ".notes") then
      assert content[|content|..] == "";
      content
    else
      assert (content + "\n.notes")[|content|..] == "\n.notes";
      content + "\n.notes"
  }

  /** After the check, the file mentions `.notes`. */
  lemma IgnoreCheckedHasEntry(before: Option<string>)
    ensures Includes(IgnoreChecked(before), ".notes")
  {
    var content := if before.Some? then before.value else "";
    if !Includes(content, ".notes") {
      assert content + "\n.notes" == (content + "\n") + ".notes";
      IncludesSuffix(content + "\n", ".notes");
    }
  }

  /** The check never loses content: the old content is a prefix of the new
      one, it is left as it was when it already mentions `.notes`, and
      otherwise exactly one line `.notes` is appended. This is a summary of
      the definition of `IgnoreChecked`, case by case, so it needs no proof. */
  lemma IgnoreCheckedKeepsContent(before: Option<string>)
    ensures before.Some? ==> before.value <= IgnoreChecked(before)
    ensures before.Some? && Includes(before.value, ".notes") ==> IgnoreChecked(before) == before.value
    ensures before.None? ==> IgnoreChecked(before) == "\n.notes"
    ensures before.Some? && !Includes(before.value, ".notes") ==>
              IgnoreChecked(before) == before.value + "\n.notes"
  {
  }

  /** Checking twice is the same as checking once. */
  lemma IgnoreCheckedIdempotent(before: Option<string>)
    ensures IgnoreChecked(Some(IgnoreChecked(before))) == IgnoreChecked(before)
  {
    IgnoreCheckedHasEntry(before);
  }

  /** Whether the answer of the name prompt is truthy, as `if (fileName)`
      tests it: a cancelled prompt and an empty name both count as no name. */
  predicate NameEntered(answer: Option<string>)
    ensures !NameEntered(answer) <==> answer == None || answer == Some("")
  {
    answer.Some? && answer.value != ""
  }

  /** A created note always shows in the listing afterwards, whatever the
      directory held before, since its name ends in `.txt`. */
  lemma CreatedNoteIsListed(es: seq<Entry>, name: string)
    ensures name + ".txt" in FilterNotes(NamesOf(Put(es, name + ".txt", "")))
  {
    IncludesSuffix(name, ".txt");
  }

  /** What `addNote` reports once the prompt has been answered. */
  datatype AddOutcome = Created(file: string) | NameNotEntered

  /** The events of the two file-system watchers: one on `<root>/.notes`
      itself, one on the files directly inside it. */
  datatype WatchEvent = DirCreated | DirDeleted | FileCreated | FileDeleted

  /** The tree-data provider. Its host-visible effects are the value last
      published under the context key `notesView.notesLen` and the number of
      tree-change events fired. */
  class SideNotesProvider {
    const fs: Workspace
    /** The value last set for `notesView.notesLen`; None before activation. */
    var notesLenContext: Option<nat>
    /** How many times `onDidChangeTreeData` has fired. */
    var treeChanges: nat

    constructor (fs: Workspace)
      ensures this.fs == fs && notesLenContext == None && treeChanges == 0
    {
      this.fs := fs;
      notesLenContext := None;
      treeChanges := 0;
    }

    /** `getNotes`: one tree item per note, labelled with its file name. */
    method GetNotes() returns (items: seq<string>)
      ensures items == FilterNotes(fs.Listing())
      ensures forall x :: x in items <==> fs.notesDir && x in fs.ReadDir() && IsNoteName(x)
    {
      var files: seq<string> := [];
      if fs.notesDir {
        files := FilterNotes(fs.ReadDir());
      }
      items := [];
      for i := 0 to |files|
        invariant items == files[..i]
      {
        items := items + [files[i]];
      }
      assert files[..|files|] == files;
    }

    /** `getNotesLen`: the number of all entries of `.notes`, notes or not. */
    function GetNotesLen(): (n: nat)
      reads fs
      ensures fs.notesDir ==> n == |NamesOf(fs.entries)|
      ensures !fs.notesDir ==> n == 0
      ensures |FilterNotes(fs.Listing())| <= n
    {
      if fs.notesDir then |fs.ReadDir()| else 0
    }

    /** `checkGitIgnoreFile`. */
    method CheckGitIgnoreFile()
      modifies fs
      ensures fs.gitignore == Some(IgnoreChecked(old(fs.gitignore)))
      ensures fs.notesDir == old(fs.notesDir) && fs.entries == old(fs.entries)
    {
      if fs.gitignore.None? {
        fs.WriteGitignore("");
      }
      var content := "";
      if fs.gitignore.Some? {
        content := fs.ReadGitignore();
      }
      if !Includes(content, ".notes") {
        content := content + "\n.notes";
        fs.WriteGitignore(content);
      }
    }

    /** `addNote`, with the prompt's answer as a parameter. The directory and
        the `.gitignore` entry are provisioned before the answer is looked at. */
    method AddNote(answer: Option<string>) returns (outcome: AddOutcome)
      requires fs.Valid()
      modifies fs
      ensures fs.Valid() && fs.notesDir
      ensures fs.gitignore == Some(IgnoreChecked(old(fs.gitignore)))
      ensures Includes(fs.gitignore.value, ".notes")
      ensures outcome == if NameEntered(answer) then Created(answer.value + ".txt") else NameNotEntered
      ensures outcome.NameNotEntered? ==> fs.entries == old(fs.entries)
      ensures outcome.Created? ==> fs.entries == Put(old(fs.entries), outcome.file, "")
      ensures outcome.Created? ==> outcome.file in FilterNotes(fs.Listing())
    {
      if !fs.notesDir {
        fs.Mkdir();
      }
      CheckGitIgnoreFile();
      IgnoreCheckedHasEntry(old(fs.gitignore));
      if answer.Some? && answer.value != "" {
        var file := answer.value + ".txt";
        fs.WriteNote(file, "");
        CreatedNoteIsListed(old(fs.entries), answer.value);
        outcome := Created(file);
      } else {
        outcome := NameNotEntered;
      }
    }

    /** `refresh`: fires a tree change and publishes the entry count. */
    method Refresh()
      modifies this
      ensures notesLenContext == Some(GetNotesLen())
      ensures treeChanges == old(treeChanges) + 1
    {
      treeChanges := treeChanges + 1;
      notesLenContext := Some(GetNotesLen());
    }

    /** Activation publishes the entry count without firing a tree change. */
    method Activate()
      modifies this
      ensures notesLenContext == Some(GetNotesLen())
      ensures treeChanges == old(treeChanges)
    {
      notesLenContext := Some(GetNotesLen());
    }

    /** The watcher callbacks: every create or delete event, of the directory
        or of a file in it, calls `refresh` once. */
    method OnWatchEvent(e: WatchEvent)
      modifies this
      ensures notesLenContext == Some(GetNotesLen())
      ensures treeChanges == old(treeChanges) + 1
    {
      match e
      case DirCreated => Refresh();
      case DirDeleted => Refresh();
      case FileCreated => Refresh();
      case FileDeleted => Refresh();
    }
  }
}
