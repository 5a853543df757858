/** The directory a mount point stands for. The installer hands the text to mount below its target directory, so
    spellings differ: empty, doubled and final slashes say nothing, "." stays and ".." goes up. */
module Directories {
  import opened GLists
  import opened CStrings

  /** A directory as the names that lead to it from the top. */
  type Directory = seq<string>

  const TARGETDIR: string := "/mnt/target"
  const TARGET: Directory := ["mnt", "target"]

  function Go(dir: Directory, name: string): Directory {
    if name == "." then dir
    else if name == ".." then (if dir == [] then [] else dir[..|dir| - 1])
    else dir + [name]
  }

  function Walk(dir: Directory, names: seq<string>): Directory
    decreases |names|
  {
    if names == [] then dir else Walk(Go(dir, names[0]), names[1..])
  }

  /** Where a path leads, symbolic links apart. */
  function Resolve(path: string): Directory { Walk([], Tokens(path, '/')) }

  /** The directory a mount point stands for: its names, taken from the target directory. */
  function MountedOn(mount: string): Directory { Walk(TARGET, Tokens(mount, '/')) }

  lemma WalkFirst(dir: Directory, name: string, rest: seq<string>)
    ensures Walk(dir, [name] + rest) == Walk(Go(dir, name), rest)
  {
    assert ([name] + rest)[1..] == rest;
  }

  /** That is where the path on mountdev's command line leads. */
  lemma CommandLeadsThere(mount: string)
    ensures Resolve(TARGETDIR + "/" + mount) == MountedOn(mount)
  {
    var names, tail := Tokens(mount, '/'), "target" + ['/'] + mount;
    assert TARGETDIR + "/" == ['/'] + ("mnt" + (['/'] + ("target" + ['/'])));
    Assoc(['/'], "mnt" + (['/'] + ("target" + ['/'])), mount);
    Assoc("mnt", ['/'] + ("target" + ['/']), mount);
    Assoc(['/'], "target" + ['/'], mount);
    Assoc("mnt", ['/'], tail);
    TokensSkip("mnt" + ['/'] + tail, '/');
    TokensOfField("mnt", tail, '/');
    TokensOfField("target", mount, '/');
    WalkFirst([], "mnt", ["target"] + names);
    WalkFirst(["mnt"], "target", names);
    NotDots("mnt");
    NotDots("target");
    assert [] + ["mnt"] == ["mnt"] && ["mnt"] + ["target"] == TARGET;
  }

  lemma NotDots(name: string)
    requires |name| > 2
    ensures Go([], name) == [name] && Go(["mnt"], name) == ["mnt"] + [name]
  {
  }

  /** A mount point of slashes only, the empty one included, is the target directory itself. */
  lemma SlashesAreTheRoot(mount: string)
    requires forall c :: c in mount ==> c == '/'
    ensures MountedOn(mount) == TARGET
  {
    NoTokens(mount, '/');
  }

  lemma {:induction false} WalkAppend(dir: Directory, a: seq<string>, b: seq<string>)
    ensures Walk(dir, a + b) == Walk(Walk(dir, a), b)
    decreases |a|
  {
    if a == [] {
      assert a + b == b;
    } else {
      AppendTail(a, b);
      WalkAppend(Go(dir, a[0]), a[1..], b);
    }
  }

  lemma OneName(mount: string, name: string)
    requires name != "" && '/' !in name
    ensures MountedOn(mount + "/" + name) == Go(MountedOn(mount), name)
  {
    TokensAppend(mount, name, '/');
    TokensOfLast(name, '/');
    WalkAppend(TARGET, Tokens(mount, '/'), [name]);
    assert [name][1..] == [];
  }

  /** How a longer mount point goes on from a shorter one: a name goes down, ".." undoes that, "." and slashes stay. */
  lemma NamesAndDots(mount: string, name: string)
    requires name != "" && '/' !in name && name != "." && name != ".."
    ensures MountedOn(mount + "/" + name) == MountedOn(mount) + [name]
    ensures MountedOn(mount + "/" + name + "/" + "..") == MountedOn(mount)
    ensures MountedOn(mount + "/" + ".") == MountedOn(mount)
    ensures MountedOn(mount + "/" + "") == MountedOn(mount)
    ensures MountedOn("") == ["mnt", "target"]
  {
    OneName(mount, name);
    OneName(mount + "/" + name, "..");
    OneName(mount, ".");
    TokensAppend(mount, "", '/');
    assert Tokens(mount, '/') + [] == Tokens(mount, '/');
    assert (MountedOn(mount) + [name])[..|MountedOn(mount)|] == MountedOn(mount);
  }

  // ---- plain spellings ----

  function Spell(names: seq<string>): string {
    if names == [] then "" else "/" + names[0] + Spell(names[1..])
  }

  predicate PlainNames(names: seq<string>) { forall n :: n in names ==> n != "." && n != ".." }

  /** A path written the usual way: "/", or a slash before each name and nothing else. */
  predicate Plain(path: string) {
    path == "/" || (path != "" && path == Spell(Tokens(path, '/')) && PlainNames(Tokens(path, '/')))
  }

  lemma {:induction false} WalkPlain(dir: Directory, names: seq<string>)
    requires PlainNames(names)
    ensures Walk(dir, names) == dir + names
    decreases |names|
  {
    if names == [] {
      assert dir + names == dir;
    } else {
      assert names[0] in names;
      assert forall n :: n in names[1..] ==> n in names;
      WalkPlain(dir + [names[0]], names[1..]);
      Uncons(names);
      Assoc(dir, [names[0]], names[1..]);
    }
  }

  lemma {:induction false} SpellAppend(a: seq<string>, b: seq<string>)
    ensures Spell(a + b) == Spell(a) + Spell(b)
  {
    if a == [] {
      assert a + b == b;
    } else {
      SpellAppend(a[1..], b);
      AppendTail(a, b);
      Assoc("/" + a[0], Spell(a[1..]), Spell(b));
    }
  }

  lemma RootHasNoNames()
    ensures Tokens("/", '/') == []
  {
    NoTokens("/", '/');
  }

  /** In plain spelling a directory is spelled shorter than what it contains. */
  lemma PlainInsideIsLonger(dir: string, inside: string)
    requires Plain(dir) && Plain(inside) && MountedOn(dir) < MountedOn(inside)
    ensures |dir| < |inside|
  {
    var a, b := Tokens(dir, '/'), Tokens(inside, '/');
    RootHasNoNames();
    WalkPlain(TARGET, a);
    WalkPlain(TARGET, b);
    PrefixAfter(TARGET, a, b);
    MoreNamesSpellLonger(a, b);
  }

  lemma PrefixAfter<T>(t: seq<T>, a: seq<T>, b: seq<T>)
    requires t + a < t + b
    ensures a < b
  {
    forall i | 0 <= i < |a| ensures a[i] == b[i] {
      assert (t + a)[|t| + i] == (t + b)[|t| + i];
    }
  }

  lemma MoreNamesSpellLonger(a: seq<string>, b: seq<string>)
    requires a < b && forall n :: n in b ==> n != ""
    ensures |Spell(b)| >= |Spell(a)| + 2
  {
    var rest := b[|a|..];
    assert b == a + rest;
    SpellAppend(a, rest);
    assert rest[0] in b;
  }
}
