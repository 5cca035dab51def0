/** The part of the file system the extension touches, seen from the project
    root: the `.notes` directory with its entries, and the `.gitignore` file. */
module Storage {

  datatype Option<T> = None | Some(value: T)

  /** One entry of the `.notes` directory: its file name and its content. */
  datatype Entry = Entry(name: string, content: string)

  /** The entry names, in listing order. */
  function NamesOf(es: seq<Entry>): (ns: seq<string>) {
    if es == [] then [] else [es[0].name] + NamesOf(es[1..])
  }

  /** The names are the entries' names, one for one and in the same order. */
  lemma {:induction false} NamesOfAt(es: seq<Entry>)
    ensures |NamesOf(es)| == |es|
    ensures forall i :: 0 <= i < |es| ==> NamesOf(es)[i] == es[i].name
  {
    if es != [] {
      NamesOfAt(es[1..]);
    }
  }

  /** No name occurs twice. */
  predicate Distinct(ns: seq<string>) {
    forall i, j :: 0 <= i < j < |ns| ==> ns[i] != ns[j]
  }

  /** The content of the entry called `name`, if there is one. */
  function Lookup(es: seq<Entry>, name: string): (r: Option<string>)
    ensures r.Some? <==> name in NamesOf(es)
  {
    if es == [] then None
    else if es[0].name == name then Some(es[0].content)
    else Lookup(es[1..], name)
  }

  /** The entries after `writeFileSync(name, content)`: an existing file of
      that name is overwritten where it stands, otherwise a new entry is
      added at the end of the listing. */
  function Put(es: seq<Entry>, name: string, content: string): (r: seq<Entry>)
    ensures Lookup(r, name) == Some(content)
    ensures forall m :: m != name ==> Lookup(r, m) == Lookup(es, m)
    ensures NamesOf(r) == if name in NamesOf(es) then NamesOf(es) else NamesOf(es) + [name]
    ensures Distinct(NamesOf(es)) ==> Distinct(NamesOf(r))
    decreases |es|
  {
    if es == [] then
      [Entry(name, content)]
    else if es[0].name == name then
      var r := [Entry(name, content)] + es[1..];
      assert r[1..] == es[1..];
      r
    else
      var rest := Put(es[1..], name, content);
      var r := [es[0]] + rest;
      assert r[0] == es[0] && r[1..] == rest;
      r
  }

  /** The file-system state under the project root. */
  class Workspace {
    /** Whether `<root>/.notes` exists. */
    var notesDir: bool
    /** The entries of `<root>/.notes`, in directory-listing order. */
    var entries: seq<Entry>
    /** The content of `<root>/.gitignore`, or None when it does not exist. */
    var gitignore: Option<string>

    ghost predicate Valid()
      reads this
    {
      Distinct(NamesOf(entries)) && (!notesDir ==> entries == [])
    }

    constructor (notesDir: bool, entries: seq<Entry>, gitignore: Option<string>)
      requires Distinct(NamesOf(entries)) && (!notesDir ==> entries == [])
      ensures Valid()
      ensures this.notesDir == notesDir && this.entries == entries && this.gitignore == gitignore
    {
      this.notesDir := notesDir;
      this.entries := entries;
      this.gitignore := gitignore;
    }

    /** `readdirSync(<root>/.notes)`. */
    function ReadDir(): (ns: seq<string>)
      reads this
      requires notesDir
      ensures |ns| == |entries| && forall i :: 0 <= i < |entries| ==> ns[i] == entries[i].name
    {
      NamesOfAt(entries);
      NamesOf(entries)
    }

    /** What the extension lists: the directory's entries when it exists,
        nothing otherwise. */
    function Listing(): (ns: seq<string>)
      reads this
      ensures !notesDir ==> ns == []
      ensures forall x :: x in ns <==> notesDir && Lookup(entries, x).Some?
    {
      if notesDir then ReadDir() else []
    }

    /** `readFileSync(<root>/.gitignore)`. */
    function ReadGitignore(): (s: string)
      reads this
      requires gitignore.Some?
      ensures gitignore == Some(s)
    {
      gitignore.value
    }

    /** `mkdirSync(<root>/.notes)`, which fails on an existing directory. */
    method Mkdir()
      requires !notesDir
      requires Valid()
      modifies this
      ensures Valid()
      ensures notesDir && entries == old(entries) == [] && gitignore == old(gitignore)
    {
      notesDir := true;
    }

    /** `writeFileSync(<root>/.gitignore, content)`. */
    method WriteGitignore(content: string)
      modifies this
      ensures gitignore == Some(content)
      ensures notesDir == old(notesDir) && entries == old(entries)
    {
      gitignore := Some(content);
    }

    /** `writeFileSync(<root>/.notes/<name>, content)`, which needs the directory. */
    method WriteNote(name: string, content: string)
      requires notesDir
      requires Valid()
      modifies this
      ensures Valid()
      ensures entries == Put(old(entries), name, content)
      ensures notesDir && gitignore == old(gitignore)
    {
      entries := Put(entries, name, content);
    }
  }
}
