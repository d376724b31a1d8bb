/** The Helm repository file and the index cache beside it, as the store operations see them. */
module RepoFile {
  // Both callers of the store set only these two fields of a repository entry.
  datatype Entry = Entry(name: string, url: string)

  // The repository file, and for every cached index the URL it was downloaded from.
  datatype Disk = Disk(file: seq<Entry>, cache: map<string, string>)

  predicate Has(f: seq<Entry>, name: string) {
    exists e <- f :: e.name == name
  }

  // The first entry of that name.
  function Get(f: seq<Entry>, name: string): (e: Entry)
    requires Has(f, name)
    ensures e in f && e.name == name
  {
    if f[0].name == name then f[0] else Get(f[1..], name)
  }

  // Replace the first entry of that name, or append.
  function Update(f: seq<Entry>, e: Entry): seq<Entry> {
    if f == [] then [e]
    else if f[0].name == e.name then [e] + f[1..]
    else [f[0]] + Update(f[1..], e)
  }

  // Drop every entry of that name.
  function Remove(f: seq<Entry>, name: string): seq<Entry> {
    if f == [] then []
    else (if f[0].name == name then [] else [f[0]]) + Remove(f[1..], name)
  }

  predicate SlashFree(name: string) { '/' !in name }

  // Names are distinct and contain no slash.
  ghost predicate WellFormed(f: seq<Entry>) {
    && (forall i, j | 0 <= i < j < |f| :: f[i].name != f[j].name)
    && (forall e <- f :: SlashFree(e.name))
  }

  // Every configured repository has a cached index that came from its own URL.
  ghost predicate Covered(d: Disk) {
    forall e <- d.file :: e.name in d.cache && d.cache[e.name] == e.url
  }

  ghost predicate Sound(d: Disk) { WellFormed(d.file) && Covered(d) }

  lemma {:induction false} UpdateAppends(f: seq<Entry>, e: Entry)
    requires !Has(f, e.name)
    ensures Update(f, e) == f + [e]
  {
    if f != [] {
      assert f[0] in f;
      assert forall x <- f[1..] :: x in f;
      UpdateAppends(f[1..], e);
    }
  }

  lemma {:induction false} GetUnique(f: seq<Entry>, e: Entry)
    requires WellFormed(f) && e in f
    ensures Has(f, e.name) && Get(f, e.name) == e
    ensures forall x <- f :: x.name == e.name ==> x == e
  {
  }

  // Removing keeps exactly the entries of other names.
  lemma {:induction false} RemoveMembers(f: seq<Entry>, name: string)
    ensures forall e :: e in Remove(f, name) <==> e in f && e.name != name
  {
    if f != [] {
      RemoveMembers(f[1..], name);
      assert f == [f[0]] + f[1..];
    }
  }

  lemma {:induction false} RemoveKeepsWellFormed(f: seq<Entry>, name: string)
    requires WellFormed(f)
    ensures WellFormed(Remove(f, name))
  {
    RemoveMembers(f, name);
    if f != [] {
      RemoveKeepsWellFormed(f[1..], name);
      RemoveMembers(f[1..], name);
      var rest := Remove(f[1..], name);
      forall x <- rest ensures x.name != f[0].name { assert x in f[1..]; }
    }
  }
}
