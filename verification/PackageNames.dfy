/** util.c, drop_version. */
module PackageNames {
  import opened GLists
  import opened CStrings

  function CutLast(s: string, c: char): string {
    var k := LastIndex(s, c);
    if k >= 0 then s[..k] else s
  }

  function DropVersion(s: string): string { CutLast(CutLast(s, '-'), '-') }

  predicate IsDash(c: char) { c == '-' }

  function Dashes(s: string): nat { |Filter(IsDash, s)| }

  lemma NoDashes(s: string)
    ensures Dashes(s) == 0 <==> '-' !in s
  {
    if Dashes(s) > 0 { assert Filter(IsDash, s)[0] in s; }
  }

  lemma CutAppend(a: string, b: string)
    requires '-' !in b
    ensures CutLast(a + "-" + b, '-') == a
  {
    LastIndexAppend(a, b, '-');
    assert (a + "-" + b)[..|a|] == a;
  }

  lemma DashesAround(a: string, b: string)
    ensures Dashes(a + "-" + b) == Dashes(a) + 1 + Dashes(b)
  {
    FilterAppend(IsDash, a + "-", b);
    FilterSnoc(IsDash, a, '-');
  }

  lemma OneDash(name: string, a: string, b: string)
    requires '-' !in a && '-' !in b
    ensures DropVersion(name + "-" + (a + "-" + b)) == name
  {
    assert name + "-" + (a + "-" + b) == (name + "-" + a) + "-" + b;
    CutAppend(name + "-" + a, b);
    CutAppend(name, a);
  }

  lemma MoreDashes(name: string, a: string, b: string)
    requires '-' in a && '-' !in b
    ensures |DropVersion(name + "-" + (a + "-" + b))| > |name|
  {
    assert name + "-" + (a + "-" + b) == (name + "-" + a) + "-" + b;
    CutAppend(name + "-" + a, b);
    var i :| 0 <= i < |a| && a[i] == '-';
    assert (name + "-" + a)[|name| + 1 + i] == '-';
  }

  /** select stores name-version; install strips it again. It gets the name back exactly when the version has
      one dash, or neither part has any. */
  lemma DropVersionUndoes(name: string, version: string)
    ensures DropVersion(name + "-" + version) == name <==>
            Dashes(version) == 1 || (Dashes(version) == 0 && Dashes(name) == 0)
  {
    NoDashes(version);
    NoDashes(name);
    var k := LastIndex(version, '-');
    if k < 0 {
      CutAppend(name, version);
    } else {
      var a, b := version[..k], version[k + 1..];
      assert version == a + "-" + b;
      DashesAround(a, b);
      NoDashes(a);
      NoDashes(b);
      if '-' in a { MoreDashes(name, a, b); } else { OneDash(name, a, b); }
    }
  }

  /** drop_version, cutting the string in place twice. */
  method DropVersionInPlace(s: string) returns (str: string)
    ensures str == DropVersion(s)
  {
    str := s;
    for i := 0 to 2
      invariant str == if i == 0 then s else if i == 1 then CutLast(s, '-') else DropVersion(s)
    {
      var ptr := LastIndex(str, '-');
      if ptr >= 0 { str := str[..ptr]; }
    }
  }
}
