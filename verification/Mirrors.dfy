/** configsource.c: the mirror file, written, read back, and reordered in between. */
module Mirrors {
  import opened GLists
  import opened CStrings

  const PATH_MAX: nat := 4096

  datatype Mirror = Mirror(url: string, country: string)

  /** A mirror as getmirrors lists it, with its use flag. */
  datatype Listed = Listed(url: string, country: string, use: bool)

  // ---- writing ----

  function Lines(texts: seq<string>): string {
    if texts == [] then "" else texts[0] + "\n" + Lines(texts[1..])
  }

  function HeaderLines(conf: string): seq<string> {
    ["#", "# " + conf + " repository", "#", "", "[" + conf + "]", ""]
  }

  function CountryHead(country: string): string { "# - " + country + " " }
  function ServerHead(url: string): string { "Server = " + url + "/" }
  function ServerTail(arch: string): string { "frugalware-" + arch }

  function Entry(arch: string, m: Mirror): string {
    CountryHead(m.country) + ("-" + "\n") + (ServerHead(m.url) + (ServerTail(arch) + "\n"))
  }

  function Entries(arch: string, ms: seq<Mirror>): string {
    if ms == [] then "" else Entry(arch, ms[0]) + Entries(arch, ms[1..])
  }

  function FileOf(conf: string, arch: string, ms: seq<Mirror>): string {
    Lines(HeaderLines(conf)) + Entries(arch, ms)
  }

  // ---- reading ----

  /** The variables of getmirrors' loop. */
  datatype Reader = Reader(country: Option<string>, mirrors: seq<Listed>)

  /** One pass of the loop; None is the NULL write of a server line without a slash, or the strdup(NULL) of a
      server line before any country. */
  function ReadLine(preferred: string, r: Reader, line: string): Option<Reader> {
    ReadLineInBounds(line);
    if "# - " <= line then
      var cut := line[..LastIndex(line, ' ')];
      Some(r.(country := Some(cut[LastIndex(cut, ' ') + 1..])))
    else if "Server = " <= line then
      var slash := LastIndex(line, '/');
      if slash < 0 || r.country == None then None
      else
        var url := line[9..slash];
        Some(r.(mirrors := r.mirrors + [Listed(url, r.country.value, preferred <= url)]))
    else Some(r)
  }

  lemma ReadLineInBounds(line: string)
    ensures "# - " <= line ==> 3 <= LastIndex(line, ' ') && 1 <= LastIndex(line[..LastIndex(line, ' ')], ' ')
    ensures "Server = " <= line && LastIndex(line, '/') >= 0 ==> LastIndex(line, '/') >= 9
  {
    if "# - " <= line {
      assert line[3] == "# - "[3] == ' ' && line[1] == "# - "[1] == ' ';
      var cut := line[..LastIndex(line, ' ')];
      assert cut[1] == ' ';
    }
    if "Server = " <= line {
      assert forall k :: 0 <= k < 9 ==> line[k] == "Server = "[k] != '/';
    }
  }

  function ReadFrom(preferred: string, r: Reader, file: string): Option<Reader>
    decreases |file|
  {
    if file == "" then Some(r)
    else
      var line := FGets(file, PATH_MAX);
      var r' := ReadLine(preferred, r, line);
      if r' == None then None else ReadFrom(preferred, r'.value, file[|line|..])
  }

  const NOTHING_READ: Reader := Reader(None, [])

  function ReadMirrors(preferred: string, file: string): Option<seq<Listed>> {
    match ReadFrom(preferred, NOTHING_READ, file)
    case None => None
    case Some(r) => Some(r.mirrors)
  }

  // ---- what a read line can contain ----

  /** A mirror that survives the file: a country of one word, a one-line URL, both short enough for the
      reader's buffer of 4096. */
  predicate Good(m: Mirror) {
    && ' ' !in m.country && '\n' !in m.country && |m.country| <= 4090
    && '\n' !in m.url && |m.url| <= 4085
  }

  function MirrorOf(l: Listed): Mirror { Mirror(l.url, l.country) }

  /** A mirror as any file can yield it: good, and flagged by the preferred prefix. */
  predicate Readable(preferred: string, l: Listed) { Good(MirrorOf(l)) && l.use == (preferred <= l.url) }

  ghost predicate GoodReader(preferred: string, r: Reader) {
    && (r.country.Some? ==> Good(Mirror("", r.country.value)))
    && forall l :: l in r.mirrors ==> Readable(preferred, l)
  }

  lemma CountryIsGood(line: string)
    requires "# - " <= line && |line| < PATH_MAX
    requires forall k :: 0 <= k < |line| - 1 ==> line[k] != '\n'
    ensures 1 <= LastIndex(line, ' ') && 1 <= LastIndex(line[..LastIndex(line, ' ')], ' ')
    ensures var cut := line[..LastIndex(line, ' ')]; Good(Mirror("", cut[LastIndex(cut, ' ') + 1..]))
  {
    ReadLineInBounds(line);
    var p := LastIndex(line, ' ');
    var cut := line[..p];
    var q := LastIndex(cut, ' ');
    assert line[3] == "# - "[3];
    if p > 3 { assert cut[3] == ' '; }
  }

  /** Whatever the file, what is read is good. */
  lemma ReadLineGood(preferred: string, r: Reader, line: string)
    requires GoodReader(preferred, r) && |line| < PATH_MAX
    requires forall k :: 0 <= k < |line| - 1 ==> line[k] != '\n'
    ensures ReadLine(preferred, r, line).Some? ==> GoodReader(preferred, ReadLine(preferred, r, line).value)
  {
    ReadLineInBounds(line);
    if "# - " <= line { CountryIsGood(line); }
  }

  lemma {:induction false} ReadFromGood(preferred: string, r: Reader, file: string)
    requires GoodReader(preferred, r)
    ensures ReadFrom(preferred, r, file).Some? ==> GoodReader(preferred, ReadFrom(preferred, r, file).value)
    decreases |file|
  {
    if file != "" {
      var line := FGets(file, PATH_MAX);
      ReadLineGood(preferred, r, line);
      var r' := ReadLine(preferred, r, line);
      if r'.Some? { ReadFromGood(preferred, r'.value, file[|line|..]); }
    }
  }

  // ---- reading any file ----

  /** What the reader sees of a file, fgets by fgets. */
  function Chunks(file: string): seq<string>
    decreases |file|
  {
    if file == "" then [] else var line := FGets(file, PATH_MAX); [line] + Chunks(file[|line|..])
  }

  predicate CountryLine(line: string) { "# - " <= line }
  predicate ServerLine(line: string) { "Server = " <= line }

  /** A server line cannot be read without a slash, nor before any country. */
  ghost predicate Unreadable(seen: bool, lines: seq<string>) {
    exists i :: 0 <= i < |lines| && ServerLine(lines[i])
      && ('/' !in lines[i] || (!seen && forall j :: 0 <= j < i ==> !CountryLine(lines[j])))
  }

  lemma UnreadableUncons(seen: bool, line: string, rest: seq<string>)
    ensures Unreadable(seen, [line] + rest) <==>
            (ServerLine(line) && ('/' !in line || !seen)) || Unreadable(seen || CountryLine(line), rest)
  {
    var lines := [line] + rest;
    if Unreadable(seen || CountryLine(line), rest) {
      var i :| 0 <= i < |rest| && ServerLine(rest[i])
        && ('/' !in rest[i] || (!(seen || CountryLine(line)) && forall j :: 0 <= j < i ==> !CountryLine(rest[j])));
      assert lines[i + 1] == rest[i] && forall j :: 1 <= j < i + 1 ==> lines[j] == rest[j - 1];
    }
    if ServerLine(line) { assert lines[0] == line; }
    if Unreadable(seen, lines) && !(ServerLine(line) && ('/' !in line || !seen)) {
      var i :| 0 <= i < |lines| && ServerLine(lines[i])
        && ('/' !in lines[i] || (!seen && forall j :: 0 <= j < i ==> !CountryLine(lines[j])));
      assert rest[i - 1] == lines[i] && forall j :: 0 <= j < i - 1 ==> rest[j] == lines[j + 1];
      assert !seen && i > 0 ==> (CountryLine(line) ==> '/' !in lines[i]);
    }
  }

  /** The URL of a server line: what stands between the label and the last slash. */
  ghost predicate UrlOf(line: string, url: string) {
    exists tail :: '/' !in tail && line == "Server = " + url + "/" + tail
  }

  /** One mirror for each of these lines, in order, with the URL of the line. */
  ghost predicate UrlsMatch(lines: seq<string>, ms: seq<Listed>) {
    |lines| == |ms| && forall k :: 0 <= k < |lines| ==> UrlOf(lines[k], ms[k].url)
  }

  /** The reader has gone from `r` to `t` over these lines. */
  ghost predicate Advanced(r: Reader, t: Reader, lines: seq<string>) {
    r.mirrors <= t.mirrors && UrlsMatch(Filter(ServerLine, lines), t.mirrors[|r.mirrors|..])
  }

  lemma CutInThree(line: string, head: string, n: nat)
    requires head <= line && |head| <= n < |line|
    ensures line == head + line[|head|..n] + [line[n]] + line[n + 1..]
  {
  }

  lemma NoneBehindLast(line: string, c: char)
    requires c in line
    ensures 0 <= LastIndex(line, c) && line[LastIndex(line, c)] == c && c !in line[LastIndex(line, c) + 1..]
  {
  }

  lemma UrlCut(line: string)
    requires ServerLine(line) && '/' in line
    ensures var n := LastIndex(line, '/'); 9 <= n && UrlOf(line, line[9..n])
  {
    NoneBehindLast(line, '/');
    ReadLineInBounds(line);
    var n := LastIndex(line, '/');
    CutInThree(line, "Server = ", n);
    assert "/" == ['/'] && |"Server = "| == 9;
    UrlIs(line, line[9..n], line[n + 1..]);
  }

  lemma UrlIs(line: string, url: string, tail: string)
    requires '/' !in tail && line == "Server = " + url + "/" + tail
    ensures UrlOf(line, url)
  {
  }

  /** What one line does to the reader. */
  lemma OneLine(preferred: string, r: Reader, line: string)
    ensures ReadLine(preferred, r, line) == None <==> ServerLine(line) && ('/' !in line || r.country == None)
    ensures ReadLine(preferred, r, line).Some? ==>
              var t := ReadLine(preferred, r, line).value;
              Advanced(r, t, [line]) && (t.country.Some? <==> r.country.Some? || CountryLine(line))
  {
    ReadLineInBounds(line);
    LabelsDiffer(line);
    FilterOne(line);
    if ServerLine(line) && '/' in line { UrlCut(line); }
  }

  lemma FilterOne(line: string)
    ensures Filter(ServerLine, [line]) == if ServerLine(line) then [line] else []
  {
    FilterSnoc(ServerLine, [], line);
    assert [] + [line] == [line];
  }

  lemma LabelsDiffer(line: string)
    ensures !(CountryLine(line) && ServerLine(line))
  {
    if CountryLine(line) { assert line[0] == "# - "[0] && line[0] != "Server = "[0]; }
  }

  lemma AdvancedFurther(r: Reader, mid: Reader, t: Reader, line: string, rest: seq<string>)
    requires Advanced(r, mid, [line]) && Advanced(mid, t, rest)
    ensures Advanced(r, t, [line] + rest)
  {
    FilterAppend(ServerLine, [line], rest);
    assert t.mirrors[|r.mirrors|..] == mid.mirrors[|r.mirrors|..] + t.mirrors[|mid.mirrors|..];
  }

  /** Whatever the file, reading fails exactly when some server line has no slash or no country line before it; and
      otherwise there is one mirror for each server line, in order, with that line's URL. */
  lemma {:induction false} ReadsByLine(preferred: string, r: Reader, file: string)
    ensures ReadFrom(preferred, r, file) == None <==> Unreadable(r.country.Some?, Chunks(file))
    ensures ReadFrom(preferred, r, file).Some? ==> Advanced(r, ReadFrom(preferred, r, file).value, Chunks(file))
    decreases |file|
  {
    if file != "" {
      var line := FGets(file, PATH_MAX);
      var rest := file[|line|..];
      OneLine(preferred, r, line);
      UnreadableUncons(r.country.Some?, line, Chunks(rest));
      var r' := ReadLine(preferred, r, line);
      if r'.Some? {
        ReadsByLine(preferred, r'.value, rest);
        var t := ReadFrom(preferred, r'.value, rest);
        if t.Some? { AdvancedFurther(r, r'.value, t.value, line, Chunks(rest)); }
      }
    }
  }

  /** getmirrors on any file at all. */
  lemma AnyFileReads(preferred: string, file: string)
    ensures ReadMirrors(preferred, file) == None <==> Unreadable(false, Chunks(file))
    ensures ReadMirrors(preferred, file).Some? ==>
              UrlsMatch(Filter(ServerLine, Chunks(file)), ReadMirrors(preferred, file).value)
  {
    ReadsByLine(preferred, NOTHING_READ, file);
    var t := ReadFrom(preferred, NOTHING_READ, file);
    if t.Some? { assert t.value.mirrors[0..] == t.value.mirrors; }
  }

  // ---- reading back what was written ----

  predicate Skipped(text: string) {
    |text| + 1 < PATH_MAX && '\n' !in text && !("# - " <= text + "\n") && !("Server = " <= text + "\n")
  }

  /** A line that carries neither marker is skipped. */
  lemma SkipLine(preferred: string, r: Reader, text: string, rest: string)
    requires Skipped(text)
    ensures ReadFrom(preferred, r, text + "\n" + rest) == ReadFrom(preferred, r, rest)
  {
    FGetsLine(text, rest, PATH_MAX);
    var file := text + "\n" + rest;
    assert file[|text + "\n"|..] == rest;
  }

  lemma NotPrefix(p: string, s: string, k: nat)
    requires k < |p| && (k < |s| ==> s[k] != p[k])
    ensures !(p <= s)
  {
  }

  lemma NoMarker(text: string)
    requires ' ' !in text
    ensures !("# - " <= text) && !("Server = " <= text)
  {
    assert forall k :: 0 <= k < |text| ==> text[k] in text;
    NotPrefix("# - ", text, 1);
    NotPrefix("Server = ", text, 6);
  }

  /** What a read of `file` makes of a first chunk and of the rest. */
  lemma ReadChunk(preferred: string, r: Reader, chunk: string, rest: string)
    requires chunk != "" && FGets(chunk + rest, PATH_MAX) == chunk
    ensures ReadFrom(preferred, r, chunk + rest) ==
            match ReadLine(preferred, r, chunk) case None => None case Some(r') => ReadFrom(preferred, r', rest)
  {
    assert (chunk + rest)[|chunk|..] == rest;
  }

  /** The first chunk of a long line is the buffer full; of a short one, the line. */
  lemma FirstChunk(text: string, rest: string)
    requires '\n' !in text
    ensures FGets(text + "\n" + rest, PATH_MAX) == if |text| + 1 < PATH_MAX then text + "\n" else text[..PATH_MAX - 1]
  {
    if |text| + 1 < PATH_MAX {
      FGetsLine(text, rest, PATH_MAX);
    } else {
      var file := text + "\n" + rest;
      var chunk := FGets(file, PATH_MAX);
      assert forall k :: 0 <= k < |text| ==> file[k] == text[k] && text[k] in text;
      assert |chunk| == PATH_MAX - 1;
      assert chunk == file[..PATH_MAX - 1] == text[..PATH_MAX - 1];
    }
  }

  predicate TwoParts(head: string, tail: string) {
    && '\n' !in head && head != "" && |head| < PATH_MAX
    && '\n' !in tail && ' ' !in tail && |tail| + 1 < PATH_MAX
  }

  lemma ShortLine(preferred: string, r: Reader, head: string, tail: string, rest: string, r': Reader)
    requires TwoParts(head, tail) && |head + tail| + 1 < PATH_MAX
    requires ReadLine(preferred, r, head + (tail + "\n")) == Some(r')
    ensures ReadFrom(preferred, r, head + (tail + "\n") + rest) == ReadFrom(preferred, r', rest)
  {
    var line := head + (tail + "\n");
    assert FGets(line + rest, PATH_MAX) == line by {
      FirstChunk(head + tail, rest);
      assert line == (head + tail) + "\n";
    }
    ReadChunk(preferred, r, line, rest);
  }

  lemma LongFirst(head: string, b: string, left: string, rest: string)
    requires '\n' !in head + (b + left) && |head + b| == PATH_MAX - 1
    ensures FGets((head + b) + (left + "\n" + rest), PATH_MAX) == head + b
  {
    var text := head + (b + left);
    FirstChunk(text, rest);
    assert (head + b) + (left + "\n" + rest) == text + "\n" + rest;
    assert text[..PATH_MAX - 1] == head + b;
  }

  lemma LongLine(preferred: string, r: Reader, head: string, b: string, left: string, rest: string, r': Reader)
    requires TwoParts(head, b + left) && |head + b| == PATH_MAX - 1
    requires ReadLine(preferred, r, head + b) == Some(r')
    ensures ReadFrom(preferred, r, (head + b) + (left + "\n" + rest)) == ReadFrom(preferred, r', rest)
  {
    LongFirst(head, b, left, rest);
    ReadChunk(preferred, r, head + b, left + "\n" + rest);
    SkipRest(preferred, r', b, left, rest);
  }

  lemma SkipRest(preferred: string, r: Reader, b: string, left: string, rest: string)
    requires '\n' !in b + left && ' ' !in b + left && |b + left| + 1 < PATH_MAX
    ensures ReadFrom(preferred, r, left + "\n" + rest) == ReadFrom(preferred, r, rest)
  {
    assert forall x :: x in left ==> x in b + left;
    NoMarker(left + "\n");
    SkipLine(preferred, r, left, rest);
  }

  lemma LongLineSplit(preferred: string, r: Reader, head: string, tail: string, rest: string, r': Reader)
    requires TwoParts(head, tail) && |head + tail| + 1 >= PATH_MAX
    requires forall b :: b <= tail + "\n" ==> ReadLine(preferred, r, head + b) == Some(r')
    ensures ReadFrom(preferred, r, head + (tail + "\n") + rest) == ReadFrom(preferred, r', rest)
  {
    var n := PATH_MAX - 1 - |head|;
    var b, left := tail[..n], tail[n..];
    assert tail == b + left;
    assert b <= tail + "\n";
    LongLine(preferred, r, head, b, left, rest, r');
    SameText(head, b, left, rest);
  }

  lemma SameText(head: string, b: string, left: string, rest: string)
    ensures (head + b) + (left + "\n" + rest) == head + (b + left + "\n") + rest
  {
    Assoc(head, b, left + "\n" + rest);
    Assoc(head, b + left + "\n", rest);
    Assoc(b, left, "\n");
    Assoc(b, left + "\n", rest);
  }

  /** A written line in two parts, the head fitting the buffer: however fgets cuts the tail, the loop sees the
      head followed by some of the tail, and skips what is left of the tail. */
  lemma HeadThenTail(preferred: string, r: Reader, head: string, tail: string, rest: string, r': Reader)
    requires TwoParts(head, tail)
    requires forall b :: b <= tail + "\n" ==> ReadLine(preferred, r, head + b) == Some(r')
    ensures ReadFrom(preferred, r, head + (tail + "\n") + rest) == ReadFrom(preferred, r', rest)
  {
    if |head + tail| + 1 < PATH_MAX {
      ShortLine(preferred, r, head, tail, rest, r');
    } else {
      LongLineSplit(preferred, r, head, tail, rest, r');
    }
  }

  lemma CountryRead(preferred: string, r: Reader, country: string, b: string)
    requires ' ' !in country && b <= "-\n"
    ensures ReadLine(preferred, r, CountryHead(country) + b) == Some(r.(country := Some(country)))
  {
    var line := CountryHead(country) + b;
    assert forall k :: 0 <= k < |b| ==> b[k] == "-\n"[k];
    assert line == ("# - " + country) + " " + b;
    LastIndexAppend("# - " + country, b, ' ');
    var cut := line[..LastIndex(line, ' ')];
    assert cut == "# - " + country == "# -" + " " + country;
    LastIndexAppend("# -", country, ' ');
    assert cut[4..] == country;
  }

  lemma ServerRead(preferred: string, r: Reader, url: string, tail: string, b: string)
    requires '/' !in tail && b <= tail + "\n" && r.country.Some?
    ensures ReadLine(preferred, r, ServerHead(url) + b) ==
            Some(r.(mirrors := r.mirrors + [Listed(url, r.country.value, preferred <= url)]))
  {
    var line := ServerHead(url) + b;
    assert forall k :: 0 <= k < |b| ==> b[k] == (tail + "\n")[k];
    assert line == ("Server = " + url) + "/" + b;
    LastIndexAppend("Server = " + url, b, '/');
    assert line[..9] == "Server = ";
    NotPrefix("# - ", line, 0);
    assert line[9..LastIndex(line, '/')] == url;
  }

  predicate PlainArch(arch: string) {
    '/' !in arch && ' ' !in arch && '\n' !in arch && |arch| + 12 < PATH_MAX
  }

  function Marked(preferred: string): Mirror -> Listed { (m: Mirror) => Listed(m.url, m.country, preferred <= m.url) }

  lemma CountryLineRead(preferred: string, r: Reader, country: string, rest: string)
    requires Good(Mirror("", country))
    ensures ReadFrom(preferred, r, CountryHead(country) + ("-" + "\n") + rest)
            == ReadFrom(preferred, r.(country := Some(country)), rest)
  {
    forall b | b <= "-" + "\n"
      ensures ReadLine(preferred, r, CountryHead(country) + b) == Some(r.(country := Some(country))) {
      assert "-" + "\n" == "-\n";
      CountryRead(preferred, r, country, b);
    }
    HeadThenTail(preferred, r, CountryHead(country), "-", rest, r.(country := Some(country)));
  }

  lemma ServerParts(url: string, arch: string)
    requires Good(Mirror(url, "")) && PlainArch(arch)
    ensures TwoParts(ServerHead(url), ServerTail(arch)) && '/' !in ServerTail(arch)
  {
    assert forall c :: c in ServerTail(arch) ==> c in "frugalware-" || c in arch;
    assert forall c :: c in ServerHead(url) ==> c in "Server = " || c in url || c == '/';
  }

  lemma ServerTailRead(preferred: string, r: Reader, url: string, tail: string, rest: string, r': Reader)
    requires TwoParts(ServerHead(url), tail) && '/' !in tail && r.country.Some?
    requires r' == r.(mirrors := r.mirrors + [Listed(url, r.country.value, preferred <= url)])
    ensures ReadFrom(preferred, r, ServerHead(url) + (tail + "\n") + rest) == ReadFrom(preferred, r', rest)
  {
    forall b | b <= tail + "\n" ensures ReadLine(preferred, r, ServerHead(url) + b) == Some(r') {
      ServerRead(preferred, r, url, tail, b);
    }
    HeadThenTail(preferred, r, ServerHead(url), tail, rest, r');
  }

  lemma ServerLineRead(preferred: string, r: Reader, url: string, arch: string, rest: string)
    requires Good(Mirror(url, "")) && PlainArch(arch) && r.country.Some?
    ensures ReadFrom(preferred, r, ServerHead(url) + (ServerTail(arch) + "\n") + rest) ==
            ReadFrom(preferred, r.(mirrors := r.mirrors + [Listed(url, r.country.value, preferred <= url)]), rest)
  {
    var r' := r.(mirrors := r.mirrors + [Listed(url, r.country.value, preferred <= url)]);
    ServerParts(url, arch);
    ServerTailRead(preferred, r, url, ServerTail(arch), rest, r');
  }

  lemma EntryRead(preferred: string, r: Reader, arch: string, m: Mirror, rest: string)
    requires Good(m) && PlainArch(arch)
    ensures ReadFrom(preferred, r, Entry(arch, m) + rest) ==
            ReadFrom(preferred, Reader(Some(m.country), r.mirrors + [Marked(preferred)(m)]), rest)
  {
    var country, server := CountryHead(m.country) + ("-" + "\n"), ServerHead(m.url) + (ServerTail(arch) + "\n");
    assert Entry(arch, m) + rest == country + (server + rest);
    CountryLineRead(preferred, r, m.country, server + rest);
    ServerLineRead(preferred, r.(country := Some(m.country)), m.url, arch, rest);
  }

  lemma {:induction false} EntriesRead(preferred: string, r: Reader, arch: string, ms: seq<Mirror>)
    requires PlainArch(arch) && forall m :: m in ms ==> Good(m)
    ensures var read := ReadFrom(preferred, r, Entries(arch, ms));
            read.Some? && read.value.mirrors == r.mirrors + Map(Marked(preferred), ms)
    decreases |ms|
  {
    if ms != [] {
      var r' := Reader(Some(ms[0].country), r.mirrors + [Marked(preferred)(ms[0])]);
      EntryRead(preferred, r, arch, ms[0], Entries(arch, ms[1..]));
      EntriesRead(preferred, r', arch, ms[1..]);
      MapFirst(preferred, r.mirrors, ms);
    }
  }

  lemma MapFirst(preferred: string, before: seq<Listed>, ms: seq<Mirror>)
    requires ms != []
    ensures before + [Marked(preferred)(ms[0])] + Map(Marked(preferred), ms[1..]) == before + Map(Marked(preferred), ms)
  {
    assert Map(Marked(preferred), ms) == [Marked(preferred)(ms[0])] + Map(Marked(preferred), ms[1..]);
  }

  /** The repository names greet can store under pacconf. */
  predicate KnownRepository(conf: string) { conf == "frugalware" || conf == "frugalware-current" }

  lemma {:induction false} SkipLines(preferred: string, r: Reader, texts: seq<string>, rest: string)
    requires forall t :: t in texts ==> Skipped(t)
    ensures ReadFrom(preferred, r, Lines(texts) + rest) == ReadFrom(preferred, r, rest)
  {
    if texts == [] {
      assert Lines(texts) + rest == rest;
    } else {
      assert Lines(texts) + rest == texts[0] + "\n" + (Lines(texts[1..]) + rest);
      SkipLine(preferred, r, texts[0], Lines(texts[1..]) + rest);
      SkipLines(preferred, r, texts[1..], rest);
    }
  }

  lemma HeaderSkipped(conf: string)
    requires KnownRepository(conf)
    ensures forall t :: t in HeaderLines(conf) ==> Skipped(t)
  {
    NoMarker("#" + "\n");
    var title := "# " + conf + " repository";
    assert title[2] == 'f';
    NotPrefix("# - ", title + "\n", 2);
    NotPrefix("Server = ", title + "\n", 0);
    NoMarker("" + "\n");
    NoMarker("[" + conf + "]" + "\n");
  }

  lemma AfterHeader(preferred: string, conf: string, entries: string)
    requires KnownRepository(conf)
    ensures ReadFrom(preferred, NOTHING_READ, Lines(HeaderLines(conf)) + entries)
            == ReadFrom(preferred, NOTHING_READ, entries)
  {
    HeaderSkipped(conf);
    SkipLines(preferred, NOTHING_READ, HeaderLines(conf), entries);
  }

  lemma GoodMirrorsReadBack(preferred: string, conf: string, arch: string, ms: seq<Mirror>)
    requires KnownRepository(conf) && PlainArch(arch) && forall m :: m in ms ==> Good(m)
    ensures ReadMirrors(preferred, FileOf(conf, arch, ms)) == Some(Map(Marked(preferred), ms))
  {
    AfterHeader(preferred, conf, Entries(arch, ms));
    EntriesRead(preferred, NOTHING_READ, arch, ms);
    var entries := ReadFrom(preferred, NOTHING_READ, Entries(arch, ms));
    assert ReadFrom(preferred, NOTHING_READ, FileOf(conf, arch, ms)) == entries;
    assert [] + Map(Marked(preferred), ms) == Map(Marked(preferred), ms);
  }

  /** Whatever the file holds, the mirrors read from it have one-word countries, one-line URLs and fields that fit
      the buffer, and are flagged by the preferred prefix. */
  lemma MirrorsReadAreGood(preferred: string, file: string)
    ensures ReadMirrors(preferred, file).Some? ==>
            var read := ReadMirrors(preferred, file).value;
            (forall l :: l in read ==> Readable(preferred, l)) && read == Map(Marked(preferred), Map(MirrorOf, read))
  {
    ReadFromGood(preferred, NOTHING_READ, file);
    if ReadMirrors(preferred, file).Some? {
      var read := ReadMirrors(preferred, file).value;
      forall i | 0 <= i < |read| ensures Marked(preferred)(MirrorOf(read[i])) == read[i] {
        assert read[i] in read && Readable(preferred, read[i]);
      }
    }
  }

  /** Writing the mirror file and reading it back gives the same mirrors, in order, each flagged by the
      preferred prefix, exactly when every mirror is good. */
  lemma ReadsBackWhatWasWritten(preferred: string, conf: string, arch: string, ms: seq<Mirror>)
    requires KnownRepository(conf) && PlainArch(arch)
    ensures ReadMirrors(preferred, FileOf(conf, arch, ms)) == Some(Map(Marked(preferred), ms)) <==>
            forall m :: m in ms ==> Good(m)
  {
    if forall m :: m in ms ==> Good(m) {
      GoodMirrorsReadBack(preferred, conf, arch, ms);
    }
    MirrorsReadAreGood(preferred, FileOf(conf, arch, ms));
    if ReadMirrors(preferred, FileOf(conf, arch, ms)) == Some(Map(Marked(preferred), ms)) {
      forall m | m in ms ensures Good(m) {
        var i :| 0 <= i < |ms| && ms[i] == m;
        assert Map(Marked(preferred), ms)[i] == Marked(preferred)(m);
        assert Readable(preferred, Marked(preferred)(m));
      }
    }
  }

  // ---- the loops ----

  /** getmirrors: read the file a line at a time, cutting each line in place. */
  method GetMirrors(preferred: string, file: string) returns (mirrors: Option<seq<Listed>>)
    ensures mirrors == ReadMirrors(preferred, file)
  {
    var rest, country, list := file, None, [];
    while rest != ""
      invariant ReadFrom(preferred, NOTHING_READ, file) == ReadFrom(preferred, Reader(country, list), rest)
      decreases |rest|
    {
      var line := FGets(rest, PATH_MAX);
      rest := rest[|line|..];
      ReadLineInBounds(line);
      if "# - " <= line {
        var ptr := LastIndex(line, ' ');
        line := line[..ptr];
        ptr := LastIndex(line, ' ') + 1;
        country := Some(line[ptr..]);
      } else if "Server = " <= line {
        var ptr := LastIndex(line, '/');
        if ptr < 0 || country == None { return None; }
        line := line[..ptr];
        var url := line[9..];
        list := list + [Listed(url, country.value, preferred <= url)];
      }
    }
    mirrors := Some(list);
  }

  /** updateconfig: the header, then two lines a mirror. */
  method UpdateConfig(conf: string, arch: string, mirrors: seq<Mirror>) returns (file: string)
    ensures file == FileOf(conf, arch, mirrors)
  {
    file := Lines(HeaderLines(conf));
    assert mirrors[0..] == mirrors;
    for i := 0 to |mirrors|
      invariant file + Entries(arch, mirrors[i..]) == FileOf(conf, arch, mirrors)
    {
      assert mirrors[i..][0] == mirrors[i] && mirrors[i..][1..] == mirrors[i + 1..];
      assert file + (Entry(arch, mirrors[i]) + Entries(arch, mirrors[i + 1..]))
          == file + Entry(arch, mirrors[i]) + Entries(arch, mirrors[i + 1..]);
      file := file + Entry(arch, mirrors[i]);
    }
    assert file + Entries(arch, mirrors[|mirrors|..]) == file;
  }

  // ---- the reorder ----

  /** A row of the mirror view. */
  datatype Row = Row(use: bool, name: string, from: string)

  predicate Checked(r: Row) { r.use }
  predicate Unchecked(r: Row) { !r.use }

  /** The order run saves: the checked rows last to first, then the others as they stand. */
  function Saved(rows: seq<Row>): seq<Row> {
    Reverse(Filter(Checked, rows)) + Filter(Unchecked, rows)
  }

  function MirrorIn(r: Row): Mirror { Mirror(r.name, r.from) }

  lemma SavedParts(rows: seq<Row>)
    ensures Filter(Checked, Saved(rows)) == Reverse(Filter(Checked, rows))
    ensures Filter(Unchecked, Saved(rows)) == Filter(Unchecked, rows)
  {
    var c, u := Filter(Checked, rows), Filter(Unchecked, rows);
    ReverseTwice(c);
    SameMembers(Reverse(c), c);
    FilterAppend(Checked, Reverse(c), u);
    FilterAppend(Unchecked, Reverse(c), u);
    FilterAll(Checked, Reverse(c));
    FilterAll(Unchecked, u);
    FilterNone(Checked, u);
    FilterNone(Unchecked, Reverse(c));
  }

  lemma {:induction false} FilterNone<T>(p: T -> bool, xs: seq<T>)
    requires forall x :: x in xs ==> !p(x)
    ensures Filter(p, xs) == []
  {
    if xs != [] { assert xs[0] in xs; FilterNone(p, xs[1..]); }
  }

  /** Saving loses and invents no row; saving three times with the same checks is saving once. */
  lemma SavedThrice(rows: seq<Row>)
    ensures multiset(Saved(rows)) == multiset(rows)
    ensures Saved(Saved(Saved(rows))) == Saved(rows)
  {
    var c := Filter(Checked, rows);
    FilterSplit(Checked, Unchecked, rows);
    ReverseTwice(c);
    ReverseTwice(Reverse(c));
    SavedParts(rows);
    SavedParts(Saved(rows));
    SavedParts(Saved(Saved(rows)));
  }

  /** Saving twice is saving once exactly when the checked rows read the same backwards. */
  lemma SavedTwice(rows: seq<Row>)
    ensures Saved(Saved(rows)) == Saved(rows) <==> Reverse(Filter(Checked, rows)) == Filter(Checked, rows)
  {
    var c, u := Filter(Checked, rows), Filter(Unchecked, rows);
    SavedParts(rows);
    ReverseTwice(c);
    assert Saved(Saved(rows)) == c + u && Saved(rows) == Reverse(c) + u;
    assert (c + u)[..|c|] == c && (Reverse(c) + u)[..|c|] == Reverse(c);
  }

  /** run: unless the packages come from a disc, prepend the checked rows, append the others, write the file. */
  method SaveMirrors(conf: string, arch: string, rows: seq<Row>, srcdev: Option<string>) returns (file: Option<string>)
    ensures srcdev.Some? || rows == [] ==> file == None
    ensures srcdev == None && rows != [] ==> file == Some(FileOf(conf, arch, Map(MirrorIn, Saved(rows))))
  {
    if srcdev != None || rows == [] { return None; }
    var list: seq<Mirror> := [];
    for i := 0 to |rows|
      invariant list == Map(MirrorIn, Saved(rows[..i]))
    {
      SavedSnoc(rows[..i], rows[i]);
      TakeOne(rows, i);
      MapEnds(Saved(rows[..i]), rows[i]);
      if rows[i].use {
        list := [Mirror(rows[i].name, rows[i].from)] + list;
      } else {
        list := list + [Mirror(rows[i].name, rows[i].from)];
      }
    }
    TakeAll(rows);
    var text := UpdateConfig(conf, arch, list);
    file := Some(text);
  }

  lemma SavedSnoc(rows: seq<Row>, r: Row)
    ensures Saved(rows + [r]) == if r.use then [r] + Saved(rows) else Saved(rows) + [r]
  {
    var c, u := Filter(Checked, rows), Filter(Unchecked, rows);
    FilterSnoc(Checked, rows, r);
    FilterSnoc(Unchecked, rows, r);
    if r.use {
      ReverseSnoc(c, r);
      Assoc([r], Reverse(c), u);
    } else {
      Assoc(Reverse(c), u, [r]);
    }
  }

  lemma MapEnds(rows: seq<Row>, r: Row)
    ensures Map(MirrorIn, [r] + rows) == [MirrorIn(r)] + Map(MirrorIn, rows)
    ensures Map(MirrorIn, rows + [r]) == Map(MirrorIn, rows) + [MirrorIn(r)]
  {
  }

  lemma ReverseSnoc<T>(xs: seq<T>, x: T)
    ensures Reverse(xs + [x]) == [x] + Reverse(xs)
  {
    ReverseAppend(xs, [x]);
    assert Reverse([x][1..]) == [];
  }

  /** The saved file reads back as the saved order. */
  lemma SavedOrderReadsBack(preferred: string, conf: string, arch: string, rows: seq<Row>)
    requires KnownRepository(conf) && PlainArch(arch) && forall r :: r in rows ==> Good(MirrorIn(r))
    ensures ReadMirrors(preferred, FileOf(conf, arch, Map(MirrorIn, Saved(rows)))) ==
            Some(Map(Marked(preferred), Map(MirrorIn, Saved(rows))))
  {
    SavedThrice(rows);
    SameMembers(Saved(rows), rows);
    var ms := Map(MirrorIn, Saved(rows));
    forall m | m in ms ensures Good(m) {
      var i :| 0 <= i < |ms| && ms[i] == m;
      assert Saved(rows)[i] in Saved(rows);
    }
    ReadsBackWhatWasWritten(preferred, conf, arch, ms);
  }

  // ---- visit after visit ----

  /** The view made of a file's mirrors, checked by the user. The choice depends on the mirror only. */
  function Shown(chosen: Mirror -> bool): Listed -> Row {
    (l: Listed) => Row(chosen(MirrorOf(l)), l.url, l.country)
  }

  /** One visit to the page: read the file, check mirrors, save. An empty view writes nothing; None is a fault. */
  function Visit(preferred: string, conf: string, arch: string, chosen: Mirror -> bool, file: string): Option<string> {
    match ReadMirrors(preferred, file)
    case None => None
    case Some(read) =>
      if read == [] then Some(file) else Some(FileOf(conf, arch, Map(MirrorIn, Saved(Map(Shown(chosen), read)))))
  }

  predicate ChosenRows(chosen: Mirror -> bool, rows: seq<Row>) {
    forall r :: r in rows ==> r.use == chosen(MirrorIn(r)) && Good(MirrorIn(r))
  }

  lemma SavedKeepsChosen(chosen: Mirror -> bool, rows: seq<Row>)
    requires ChosenRows(chosen, rows)
    ensures ChosenRows(chosen, Saved(rows))
    ensures rows != [] ==> Saved(rows) != []
  {
    SavedThrice(rows);
    SameMembers(Saved(rows), rows);
    if rows != [] { assert rows[0] in Saved(rows); }
  }

  lemma ShownAgain(preferred: string, chosen: Mirror -> bool, rows: seq<Row>)
    requires ChosenRows(chosen, rows)
    ensures Map(Shown(chosen), Map(Marked(preferred), Map(MirrorIn, rows))) == rows
  {
    forall i | 0 <= i < |rows| ensures Shown(chosen)(Marked(preferred)(MirrorIn(rows[i]))) == rows[i] {
      var r := rows[i];
      assert r in rows && r.use == chosen(MirrorIn(r));
      assert MirrorOf(Marked(preferred)(MirrorIn(r))) == MirrorIn(r);
    }
  }

  /** A visit to a file saved from `rows` saves their saved order. */
  lemma VisitSaved(preferred: string, conf: string, arch: string, chosen: Mirror -> bool, rows: seq<Row>)
    requires KnownRepository(conf) && PlainArch(arch) && ChosenRows(chosen, rows) && rows != []
    ensures Visit(preferred, conf, arch, chosen, FileOf(conf, arch, Map(MirrorIn, rows)))
         == Some(FileOf(conf, arch, Map(MirrorIn, Saved(rows))))
  {
    var ms := Map(MirrorIn, rows);
    forall m | m in ms ensures Good(m) {
      var i :| 0 <= i < |ms| && ms[i] == m;
      assert rows[i] in rows;
    }
    ReadsBackWhatWasWritten(preferred, conf, arch, ms);
    ShownAgain(preferred, chosen, rows);
  }

  lemma ShownIsChosen(preferred: string, chosen: Mirror -> bool, read: seq<Listed>)
    requires forall l :: l in read ==> Readable(preferred, l)
    ensures ChosenRows(chosen, Map(Shown(chosen), read))
  {
    var rows := Map(Shown(chosen), read);
    forall r | r in rows ensures r.use == chosen(MirrorIn(r)) && Good(MirrorIn(r)) {
      var i :| 0 <= i < |rows| && rows[i] == r;
      assert read[i] in read && MirrorIn(r) == MirrorOf(read[i]);
    }
  }

  function Again(preferred: string, conf: string, arch: string, chosen: Mirror -> bool, file: Option<string>)
    : Option<string>
  {
    if file == None then None else Visit(preferred, conf, arch, chosen, file.value)
  }

  lemma TwoMoreVisits(preferred: string, conf: string, arch: string, chosen: Mirror -> bool, rows: seq<Row>)
    requires KnownRepository(conf) && PlainArch(arch) && ChosenRows(chosen, rows) && rows != []
    ensures var file := Some(FileOf(conf, arch, Map(MirrorIn, Saved(rows))));
            Again(preferred, conf, arch, chosen, Again(preferred, conf, arch, chosen, file)) == file
  {
    var once, twice := Saved(rows), Saved(Saved(rows));
    SavedKeepsChosen(chosen, rows);
    SavedKeepsChosen(chosen, once);
    VisitSaved(preferred, conf, arch, chosen, once);
    VisitSaved(preferred, conf, arch, chosen, twice);
    assert Saved(twice) == once by { SavedThrice(rows); }
  }

  /** Whatever the first file, three visits with the same choice leave the file that one visit leaves. */
  lemma ThreeVisits(preferred: string, conf: string, arch: string, chosen: Mirror -> bool, file: string)
    requires KnownRepository(conf) && PlainArch(arch)
    ensures var once := Visit(preferred, conf, arch, chosen, file);
            Again(preferred, conf, arch, chosen, Again(preferred, conf, arch, chosen, once)) == once
  {
    MirrorsReadAreGood(preferred, file);
    var read := ReadMirrors(preferred, file);
    if read.Some? && read.value != [] {
      ShownIsChosen(preferred, chosen, read.value);
      TwoMoreVisits(preferred, conf, arch, chosen, Map(Shown(chosen), read.value));
    }
  }

  // ---- the file, line by line ----

  /** The lines of a text, without their newlines. */
  function LinesOf(file: string): seq<string>
    decreases |file|
  {
    if file == "" then []
    else
      var n := FirstIndex(file, '\n');
      [file[..n]] + (if n < |file| then LinesOf(file[n + 1..]) else [])
  }

  lemma {:induction false} LinesAreRead(texts: seq<string>, rest: string)
    requires forall t :: t in texts ==> '\n' !in t
    ensures LinesOf(Lines(texts) + rest) == texts + LinesOf(rest)
  {
    if texts == [] {
      assert Lines(texts) + rest == rest;
      assert [] + LinesOf(rest) == LinesOf(rest);
    } else {
      var head, t := texts[0], texts[1..];
      assert head in texts && forall x :: x in t ==> x in texts;
      LinesAreRead(t, rest);
      LinesUncons(head, t, rest, LinesOf(rest));
      Uncons(texts);
    }
  }

  lemma LinesUncons(head: string, t: seq<string>, rest: string, last: seq<string>)
    requires '\n' !in head && LinesOf(Lines(t) + rest) == t + last
    ensures LinesOf(Lines([head] + t) + rest) == ([head] + t) + last
  {
    assert ([head] + t)[1..] == t;
    Assoc(head + "\n", Lines(t), rest);
    FirstLineIs(head, Lines(t) + rest);
    Assoc([head], t, last);
  }

  lemma FirstLineIs(text: string, rest: string)
    requires '\n' !in text
    ensures LinesOf((text + "\n") + rest) == [text] + LinesOf(rest)
  {
    var file := (text + "\n") + rest;
    assert file[..|text|] == text && file[|text|] == '\n' && file[|text| + 1..] == rest;
    FirstIndexIs(file, '\n', |text|);
  }

  /** The two lines of a mirror. */
  function EntryTexts(arch: string, m: Mirror): seq<string> {
    ["# - " + m.country + " -", "Server = " + m.url + "/frugalware-" + arch]
  }

  lemma EntryIsLines(arch: string, m: Mirror)
    ensures Entry(arch, m) == Lines(EntryTexts(arch, m))
  {
    var texts := EntryTexts(arch, m);
    assert texts[1..] == [texts[1]] && [texts[1]][1..] == [];
    assert CountryHead(m.country) + ("-" + "\n") == texts[0] + "\n";
    assert ServerHead(m.url) + (ServerTail(arch) + "\n") == texts[1] + "\n";
    assert Lines([texts[1]]) == texts[1] + "\n";
  }

  function EntriesTexts(arch: string, ms: seq<Mirror>): seq<string> {
    if ms == [] then [] else EntryTexts(arch, ms[0]) + EntriesTexts(arch, ms[1..])
  }

  lemma {:induction false} EntryLines(arch: string, ms: seq<Mirror>)
    requires '\n' !in arch && forall m :: m in ms ==> '\n' !in m.country && '\n' !in m.url
    ensures LinesOf(Entries(arch, ms)) == EntriesTexts(arch, ms)
  {
    if ms != [] {
      assert ms[0] in ms && forall m :: m in ms[1..] ==> m in ms;
      EntryLines(arch, ms[1..]);
      EntryIsLines(arch, ms[0]);
      OneLineEach(arch, ms[0]);
      LinesAreRead(EntryTexts(arch, ms[0]), Entries(arch, ms[1..]));
    }
  }

  lemma OneLineEach(arch: string, m: Mirror)
    requires '\n' !in arch && '\n' !in m.country && '\n' !in m.url
    ensures forall t :: t in EntryTexts(arch, m) ==> '\n' !in t
  {
    assert forall c :: c in "# - " + m.country + " -" ==> c in "# - " || c in m.country || c in " -";
    assert forall c :: c in "Server = " + m.url + "/frugalware-" + arch ==>
             c in "Server = " || c in m.url || c in "/frugalware-" || c in arch;
  }

  lemma {:induction false} EntriesTextsAt(arch: string, ms: seq<Mirror>)
    ensures |EntriesTexts(arch, ms)| == 2 * |ms|
    ensures forall i :: 0 <= i < |ms| ==> MirrorAt(EntriesTexts(arch, ms), 2 * i, arch, ms[i])
  {
    if ms != [] {
      var t := ms[1..];
      EntriesTextsAt(arch, t);
      forall i | 0 <= i < |ms| ensures MirrorAt(EntriesTexts(arch, ms), 2 * i, arch, ms[i]) {
        if i > 0 { assert MirrorAt(EntriesTexts(arch, t), 2 * (i - 1), arch, t[i - 1]); }
      }
    }
  }

  /** A mirror's two lines stand at this position. */
  ghost predicate MirrorAt(ls: seq<string>, i: nat, arch: string, m: Mirror) {
    && i + 1 < |ls|
    && ls[i] == "# - " + m.country + " -"
    && ls[i + 1] == "Server = " + m.url + "/frugalware-" + arch
  }

  lemma HeaderThenEntries(conf: string, arch: string, ms: seq<Mirror>)
    requires '\n' !in conf && '\n' !in arch && forall m :: m in ms ==> '\n' !in m.country && '\n' !in m.url
    ensures LinesOf(FileOf(conf, arch, ms)) == HeaderLines(conf) + EntriesTexts(arch, ms)
  {
    assert forall c :: c in "# " + conf + " repository" ==> c in "# " || c in conf || c in " repository";
    assert forall c :: c in "[" + conf + "]" ==> c == '[' || c in conf || c == ']';
    LinesAreRead(HeaderLines(conf), Entries(arch, ms));
    EntryLines(arch, ms);
  }

  /** What the package manager finds in the file: the section of the repository after three lines of comment, and for
      each mirror a comment with its country and a server line with its URL and the architecture. */
  lemma FileByLines(conf: string, arch: string, ms: seq<Mirror>)
    requires '\n' !in conf && '\n' !in arch && forall m :: m in ms ==> '\n' !in m.country && '\n' !in m.url
    ensures var ls := LinesOf(FileOf(conf, arch, ms));
            && |ls| == 6 + 2 * |ms|
            && ls[0] == "#" && ls[1] == "# " + conf + " repository" && ls[2] == "#" && ls[3] == ""
            && ls[4] == "[" + conf + "]" && ls[5] == ""
            && forall i :: 0 <= i < |ms| ==>
                 ls[6 + 2 * i] == "# - " + ms[i].country + " -"
                 && ls[7 + 2 * i] == "Server = " + ms[i].url + "/frugalware-" + arch
  {
    HeaderThenEntries(conf, arch, ms);
    EntriesTextsAt(arch, ms);
    var ls := LinesOf(FileOf(conf, arch, ms));
    forall i | 0 <= i < |ms|
      ensures ls[6 + 2 * i] == "# - " + ms[i].country + " -"
              && ls[7 + 2 * i] == "Server = " + ms[i].url + "/frugalware-" + arch
    {
      assert MirrorAt(EntriesTexts(arch, ms), 2 * i, arch, ms[i]);
      assert ls[6 + 2 * i] == EntriesTexts(arch, ms)[2 * i] && ls[6 + (2 * i + 1)] == EntriesTexts(arch, ms)[2 * i + 1];
    }
  }

  lemma {:induction false} NoneOpensASection(arch: string, ms: seq<Mirror>)
    ensures forall t :: t in EntriesTexts(arch, ms) ==> t != "" && t[0] != '['
  {
    if ms != [] {
      NoneOpensASection(arch, ms[1..]);
      assert EntryTexts(arch, ms[0])[0][0] == '#' && EntryTexts(arch, ms[0])[1][0] == 'S';
    }
  }

  /** Exactly one line opens a section. */
  lemma OneSection(conf: string, arch: string, ms: seq<Mirror>)
    requires '\n' !in conf && '\n' !in arch && forall m :: m in ms ==> '\n' !in m.country && '\n' !in m.url
    ensures var ls := LinesOf(FileOf(conf, arch, ms));
            forall i :: 0 <= i < |ls| ==> (ls[i] != "" && ls[i][0] == '[' <==> i == 4)
  {
    HeaderThenEntries(conf, arch, ms);
    NoneOpensASection(arch, ms);
    var header, texts := HeaderLines(conf), EntriesTexts(arch, ms);
    assert header[1][0] == '#' && header[4][0] == '[';
    forall i | 0 <= i < |header + texts|
      ensures (header + texts)[i] != "" && (header + texts)[i][0] == '[' <==> i == 4
    {
      if i >= 6 { assert texts[i - 6] in texts; }
    }
  }

  /** A server line, cut at its last slash: the marker and the URL before it, the architecture behind it. */
  lemma ServerLineParts(url: string, arch: string)
    requires PlainArch(arch)
    ensures var line := "Server = " + url + "/frugalware-" + arch;
            var slash := LastIndex(line, '/');
            slash >= 0 && line[..slash] == "Server = " + url && line[slash + 1..] == "frugalware-" + arch
  {
    var head, tail := "Server = " + url, "frugalware-" + arch;
    assert "Server = " + url + "/frugalware-" + arch == head + ['/'] + tail;
    LastIndexAppend(head, tail, '/');
  }

  lemma {:induction false} LongerArchLonger(a: string, b: string, ms: seq<Mirror>)
    requires ms != [] && |a| < |b|
    ensures |Entries(a, ms)| < |Entries(b, ms)|
    decreases |ms|
  {
    if |ms| > 1 { LongerArchLonger(a, b, ms[1..]); }
  }

  lemma {:induction false} EntriesEnd(arch: string, ms: seq<Mirror>)
    requires ms != []
    ensures exists before :: Entries(arch, ms) == before + (arch + "\n")
    decreases |ms|
  {
    var m := ms[0];
    if |ms| == 1 {
      var before := CountryHead(m.country) + ("-" + "\n") + (ServerHead(m.url) + "frugalware-");
      assert Entries(arch, ms) == before + (arch + "\n");
    } else {
      EntriesEnd(arch, ms[1..]);
      var before :| Entries(arch, ms[1..]) == before + (arch + "\n");
      Assoc(Entry(arch, m), before, arch + "\n");
    }
  }

  /** Files for different architectures differ. */
  lemma FileTellsArch(conf: string, a: string, b: string, ms: seq<Mirror>)
    requires ms != [] && FileOf(conf, a, ms) == FileOf(conf, b, ms)
    ensures a == b
  {
    var header := Lines(HeaderLines(conf));
    assert Entries(a, ms) == FileOf(conf, a, ms)[|header|..] && Entries(b, ms) == FileOf(conf, b, ms)[|header|..];
    if |a| < |b| { LongerArchLonger(a, b, ms); }
    if |b| < |a| { LongerArchLonger(b, a, ms); }
    EntriesEnd(a, ms);
    EntriesEnd(b, ms);
    var x :| Entries(a, ms) == x + (a + "\n");
    var y :| Entries(b, ms) == y + (b + "\n");
    SameEnd(x, a, y, b);
  }

  lemma SameEnd(x: string, a: string, y: string, b: string)
    requires x + (a + "\n") == y + (b + "\n") && |a| == |b|
    ensures a == b
  {
    assert (x + (a + "\n"))[|x|..|x| + |a|] == a;
    assert (y + (b + "\n"))[|y|..|y| + |b|] == b;
  }

  /** Reading back, field by field. */
  lemma ReadsBackByField(preferred: string, conf: string, arch: string, ms: seq<Mirror>)
    requires KnownRepository(conf) && PlainArch(arch) && forall m :: m in ms ==> Good(m)
    ensures var read := ReadMirrors(preferred, FileOf(conf, arch, ms));
            && read.Some? && |read.value| == |ms|
            && forall i :: 0 <= i < |ms| ==>
                 read.value[i].url == ms[i].url && read.value[i].country == ms[i].country
                 && (read.value[i].use <==> preferred <= ms[i].url)
  {
    ReadsBackWhatWasWritten(preferred, conf, arch, ms);
  }

  /** The order saved: all checked rows first, last to first; then the unchecked ones, first to last. */
  lemma CheckedComeFirst(rows: seq<Row>)
    ensures Filter(Checked, Saved(rows)) == Reverse(Filter(Checked, rows))
    ensures Filter(Unchecked, Saved(rows)) == Filter(Unchecked, rows)
    ensures forall i, j :: 0 <= i < j < |Saved(rows)| && Saved(rows)[j].use ==> Saved(rows)[i].use
  {
    SavedParts(rows);
    var c, u := Reverse(Filter(Checked, rows)), Filter(Unchecked, rows);
    ReverseTwice(Filter(Checked, rows));
    SameMembers(c, Filter(Checked, rows));
    UsedFirst(c, u);
  }

  lemma UsedFirst(c: seq<Row>, u: seq<Row>)
    requires (forall r :: r in c ==> r.use) && forall r :: r in u ==> !r.use
    ensures forall i, j :: 0 <= i < j < |c + u| && (c + u)[j].use ==> (c + u)[i].use
  {
    forall i, j | 0 <= i < j < |c + u| ensures (c + u)[j].use ==> (c + u)[i].use {
      if i < |c| { assert c[i] in c; } else { assert u[j - |c|] in u; }
    }
  }

  lemma SavedLength(rows: seq<Row>)
    ensures |Saved(rows)| == |rows| && forall r :: r in Saved(rows) ==> r in rows
  {
    SavedThrice(rows);
    SameMembers(Saved(rows), rows);
    assert |multiset(Saved(rows))| == |Saved(rows)| && |multiset(rows)| == |rows|;
  }

  /** The file that run writes, line by line: the rows in the saved order, each with its own name and country. */
  lemma SavedByLines(conf: string, arch: string, rows: seq<Row>)
    requires '\n' !in conf && '\n' !in arch && forall r :: r in rows ==> '\n' !in r.name && '\n' !in r.from
    ensures var ls := LinesOf(FileOf(conf, arch, Map(MirrorIn, Saved(rows))));
            && |ls| == 6 + 2 * |rows| && |Saved(rows)| == |rows|
            && forall i :: 0 <= i < |rows| ==>
                 ls[6 + 2 * i] == "# - " + Saved(rows)[i].from + " -"
                 && ls[7 + 2 * i] == "Server = " + Saved(rows)[i].name + "/frugalware-" + arch
  {
    SavedLength(rows);
    RowsByLines(conf, arch, Saved(rows));
  }

  lemma RowsByLines(conf: string, arch: string, rows: seq<Row>)
    requires '\n' !in conf && '\n' !in arch && forall r :: r in rows ==> '\n' !in r.name && '\n' !in r.from
    ensures var ls := LinesOf(FileOf(conf, arch, Map(MirrorIn, rows)));
            && |ls| == 6 + 2 * |rows|
            && forall i :: 0 <= i < |rows| ==>
                 ls[6 + 2 * i] == "# - " + rows[i].from + " -"
                 && ls[7 + 2 * i] == "Server = " + rows[i].name + "/frugalware-" + arch
  {
    var ms := Map(MirrorIn, rows);
    forall m | m in ms ensures '\n' !in m.country && '\n' !in m.url {
      var i :| 0 <= i < |ms| && ms[i] == m;
      assert rows[i] in rows;
    }
    FileByLines(conf, arch, ms);
    var ls := LinesOf(FileOf(conf, arch, ms));
    forall i | 0 <= i < |rows|
      ensures ls[6 + 2 * i] == "# - " + rows[i].from + " -"
              && ls[7 + 2 * i] == "Server = " + rows[i].name + "/frugalware-" + arch
    {
      assert ms[i] == MirrorIn(rows[i]);
    }
  }
}
