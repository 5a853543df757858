/** The C string and stdio routines the installer's parsers are built on. Strings carry no NUL. */
module CStrings {
  import opened GLists

  /** strrchr as an index; -1 stands for NULL. */
  function LastIndex(s: string, c: char): (r: int)
    ensures -1 <= r < |s|
    ensures r >= 0 ==> s[r] == c
    ensures forall k :: r < k < |s| && k >= 0 ==> s[k] != c
  {
    if s == "" then -1
    else if s[|s| - 1] == c then |s| - 1
    else LastIndex(s[..|s| - 1], c)
  }

  /** strchr as an index; the length of the string stands for NULL. */
  function FirstIndex(s: string, c: char): (r: nat)
    ensures r <= |s|
    ensures r < |s| ==> s[r] == c
    ensures forall k :: 0 <= k < r ==> s[k] != c
  {
    if s == "" then 0
    else if s[0] == c then 0
    else
      var k := FirstIndex(s[1..], c);
      assert forall j :: 1 <= j < k + 1 ==> s[j] == s[1..][j - 1];
      k + 1
  }

  /** strstr as an index; the length of the string plus one stands for NULL. */
  function Occurrence(s: string, t: string): (r: nat)
    ensures r <= |s| + 1
    ensures r <= |s| ==> t <= s[r..]
    ensures forall k :: 0 <= k < r && k <= |s| ==> !(t <= s[k..])
  {
    if t <= s then 0
    else if s == "" then 1
    else
      var k := Occurrence(s[1..], t);
      assert forall j :: 1 <= j < k + 1 && j <= |s| ==> s[j..] == s[1..][j - 1..];
      assert s[0..] == s;
      k + 1
  }

  predicate Contains(s: string, t: string) { Occurrence(s, t) <= |s| }

  lemma LastIndexIs(s: string, c: char, r: nat)
    requires r < |s| && s[r] == c
    requires forall k :: r < k < |s| ==> s[k] != c
    ensures LastIndex(s, c) == r
  {
  }

  lemma NoneAfter(a: string, b: string, c: char)
    requires c !in b
    ensures forall k :: |a| < k < |a + [c] + b| ==> (a + [c] + b)[k] != c
  {
    var s := a + [c] + b;
    forall k | |a| < k < |s| ensures s[k] != c {
      assert s[k] == b[k - (|a| + 1)];
      assert b[k - (|a| + 1)] in b;
    }
  }

  lemma LastIndexAppend(a: string, b: string, c: char)
    requires c !in b
    ensures LastIndex(a + [c] + b, c) == |a|
  {
    NoneAfter(a, b, c);
    LastIndexIs(a + [c] + b, c, |a|);
  }

  /** The line fgets reads from the rest of a file into a buffer of `size` bytes: up to and including the
      first newline, at most size - 1 characters; empty at the end of the file. */
  function FGets(file: string, size: nat): (line: string)
    requires size >= 2
    ensures line <= file && |line| < size
    ensures file != "" ==> line != ""
    ensures forall k :: 0 <= k < |line| - 1 ==> line[k] != '\n'
    ensures line == file || |line| == size - 1 || (line != "" && line[|line| - 1] == '\n')
  {
    var n := FirstIndex(file, '\n') + 1;
    var m := if n > |file| then |file| else n;
    if m < size then file[..m] else file[..size - 1]
  }

  /** A whole line, newline included, that fits in the buffer is what fgets returns. */
  lemma FGetsLine(line: string, rest: string, size: nat)
    requires size >= 2 && |line| + 1 < size
    requires '\n' !in line
    ensures FGets(line + "\n" + rest, size) == line + "\n"
  {
    var file := line + "\n" + rest;
    assert file[|line|] == '\n';
    assert forall k :: 0 <= k < |line| ==> file[k] == line[k];
    var n := FirstIndex(file, '\n');
    assert n == |line|;
    assert file[..n + 1] == line + "\n";
  }

  /** strtok_r over a whole string: the maximal runs free of the separator. */
  function Tokens(s: string, sep: char): (ts: seq<string>)
    ensures forall t :: t in ts ==> t != "" && sep !in t
    decreases |s|
  {
    if s == "" then []
    else if s[0] == sep then Tokens(s[1..], sep)
    else
      var n := FirstIndex(s, sep);
      assert s[..n][0] == s[0];
      [s[..n]] + Tokens(s[n..], sep)
  }

  lemma FirstIndexIs(s: string, c: char, r: nat)
    requires r <= |s| && c !in s[..r] && (r < |s| ==> s[r] == c)
    ensures FirstIndex(s, c) == r
  {
    assert forall k :: 0 <= k < r ==> s[k] in s[..r];
  }

  lemma TokensOfField(a: string, rest: string, sep: char)
    requires a != "" && sep !in a
    ensures Tokens(a + [sep] + rest, sep) == [a] + Tokens(rest, sep)
  {
    var s := a + [sep] + rest;
    assert s[..|a|] == a && s[|a|] == sep;
    FirstIndexIs(s, sep, |a|);
    assert s[0] == a[0] && a[0] in a;
    assert s[|a|..] == [sep] + rest;
    assert ([sep] + rest)[1..] == rest;
  }

  lemma TokensOfLast(a: string, sep: char)
    requires a != "" && sep !in a
    ensures Tokens(a, sep) == [a]
  {
    assert a[..|a|] == a && a[0] in a;
    FirstIndexIs(a, sep, |a|);
    assert a[|a|..] == "";
  }

  lemma TokensSkip(rest: string, sep: char)
    ensures Tokens([sep] + rest, sep) == Tokens(rest, sep)
  {
    assert ([sep] + rest)[1..] == rest;
  }

  lemma {:induction false} NoTokens(s: string, sep: char)
    ensures Tokens(s, sep) == [] <==> forall c :: c in s ==> c == sep
  {
    if s != "" {
      assert s[0] in s;
      if s[0] == sep {
        NoTokens(s[1..], sep);
        Uncons(s);
        assert forall c :: c in s <==> c == sep || c in s[1..];
      }
    }
  }

  lemma OneToken(a: string, sep: char)
    requires a != "" && a[0] != sep
    ensures var n := FirstIndex(a, sep);
            && a[..n] != "" && sep !in a[..n] && Tokens(a, sep) == [a[..n]] + Tokens(a[n..], sep)
  {
    assert a[..FirstIndex(a, sep)][0] == a[0];
  }

  /** A separator between two texts separates their tokens. */
  lemma {:induction false} TokensAppend(a: string, b: string, sep: char)
    ensures Tokens(a + [sep] + b, sep) == Tokens(a, sep) + Tokens(b, sep)
    decreases |a|
  {
    if a == "" {
      assert a + [sep] + b == [sep] + b;
      TokensSkip(b, sep);
      assert [] + Tokens(b, sep) == Tokens(b, sep);
    } else if a[0] == sep {
      TokensAppend(a[1..], b, sep);
      assert a + [sep] + b == [sep] + (a[1..] + [sep] + b) && a == [sep] + a[1..];
      TokensSkip(a[1..] + [sep] + b, sep);
    } else {
      TokenThenRest(a, b, sep);
    }
  }

  lemma {:induction false} TokenThenRest(a: string, b: string, sep: char)
    requires a != "" && a[0] != sep
    ensures Tokens(a + [sep] + b, sep) == Tokens(a, sep) + Tokens(b, sep)
    decreases |a|, 0
  {
    var n := FirstIndex(a, sep);
    var tok := a[..n];
    OneToken(a, sep);
    if n == |a| {
      assert tok == a;
      TokensOfField(a, b, sep);
      TokensOfLast(a, sep);
    } else {
      var rest := a[n + 1..];
      assert a == tok + [sep] + rest && a + [sep] + b == tok + [sep] + (rest + [sep] + b);
      TokensOfField(tok, rest + [sep] + b, sep);
      TokensOfField(tok, rest, sep);
      TokensAppend(rest, b, sep);
      Assoc([tok], Tokens(rest, sep), Tokens(b, sep));
    }
  }
}
