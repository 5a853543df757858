/** timeconf.c: the zone table read from zone.tab, the tree built from it, the path made from a selection. */
module TimeZones {
  import opened GLists
  import opened CStrings

  // ---- the tokenizer ----

  /** The newline loop of fwifetime_find: it looks from the second character on. */
  function Trim(t: string): string {
    if t == "" then t else [t[0]] + t[1..][..FirstIndex(t[1..], '\n')]
  }

  predicate Comment(line: string) { line != "" && line[0] == '#' }
  predicate ZoneRow(line: string) { !Comment(line) }

  /** The cells a line adds to zonetime: its trimmed tokens, and one empty cell when there are fewer than four. */
  function Cells(line: string): seq<string> {
    var ts := Map(Trim, Tokens(line, '\t'));
    if |ts| < 4 then ts + [""] else ts
  }

  const LINE_SIZE: nat := 256

  function FileLines(file: string): (lines: seq<string>)
    decreases |file|
  {
    if file == "" then []
    else var line := FGets(file, LINE_SIZE); [line] + FileLines(file[|line|..])
  }

  function CellsOf(lines: seq<string>): seq<string> {
    Flatten(Map(Cells, Filter(ZoneRow, lines)))
  }

  function FileCells(file: string): seq<string> { CellsOf(FileLines(file)) }

  /** A line adds four cells exactly when it has three or four tokens. */
  lemma FourCells(line: string)
    ensures |Cells(line)| == 4 <==> |Tokens(line, '\t')| == 3 || |Tokens(line, '\t')| == 4
  {
  }

  ghost predicate Aligned(rows: seq<seq<string>>, cells: seq<string>) {
    forall k :: 0 <= k < |rows| ==> 4 * k + 4 <= |cells| && cells[4 * k..4 * k + 4] == rows[k]
  }

  lemma {:induction false} FlattenAligned(rows: seq<seq<string>>)
    ensures Aligned(rows, Flatten(rows)) <==> forall k :: 0 <= k < |rows| ==> |rows[k]| == 4
    ensures (forall k :: 0 <= k < |rows| ==> |rows[k]| == 4) ==> |Flatten(rows)| == 4 * |rows|
  {
    if rows != [] {
      var t, flat := rows[1..], Flatten(rows);
      FlattenAligned(t);
      if forall k :: 0 <= k < |rows| ==> |rows[k]| == 4 {
        assert forall k :: 0 <= k < |t| ==> |t[k]| == |rows[k + 1]|;
        forall k | 0 <= k < |rows| ensures 4 * k + 4 <= |flat| && flat[4 * k..4 * k + 4] == rows[k] {
          if k > 0 {
            var tail := Flatten(t);
            assert tail[4 * (k - 1)..4 * (k - 1) + 4] == t[k - 1];
            assert flat[4..] == tail;
            assert flat[4 * k..4 * k + 4] == tail[4 * (k - 1)..4 * (k - 1) + 4];
          }
        }
      }
      if Aligned(rows, flat) {
        forall k | 0 <= k < |rows| ensures |rows[k]| == 4 {
          assert |flat[4 * k..4 * k + 4]| == 4;
        }
      }
    }
  }

  /** The flat table keeps line k in cells 4k to 4k+3, for every line, exactly when every line that is not a
      comment has three or four tokens. */
  lemma TableAligned(file: string)
    ensures var rows := Map(Cells, Filter(ZoneRow, FileLines(file)));
            Aligned(rows, FileCells(file)) <==>
            forall line :: line in FileLines(file) && ZoneRow(line) ==>
              |Tokens(line, '\t')| == 3 || |Tokens(line, '\t')| == 4
  {
    var lines := Filter(ZoneRow, FileLines(file));
    FlattenAligned(Map(Cells, lines));
    if forall k :: 0 <= k < |lines| ==> |Map(Cells, lines)[k]| == 4 {
      forall line | line in FileLines(file) && ZoneRow(line)
        ensures |Tokens(line, '\t')| == 3 || |Tokens(line, '\t')| == 4 {
        assert line in lines;
        var k :| 0 <= k < |lines| && lines[k] == line;
        assert Map(Cells, lines)[k] == Cells(line);
        FourCells(line);
      }
    } else {
      var k :| 0 <= k < |lines| && |Map(Cells, lines)[k]| != 4;
      FourCells(lines[k]);
      assert lines[k] in lines;
    }
  }

  // ---- reading a well-formed table ----

  /** A row of zone.tab; the comment may be absent. */
  datatype Zone = Zone(code: string, coords: string, name: string, comment: string)

  predicate Field(s: string) { s != "" && '\t' !in s && '\n' !in s }

  predicate GoodZone(z: Zone) {
    && Field(z.code) && z.code[0] != '#' && Field(z.coords) && Field(z.name)
    && (z.comment == "" || Field(z.comment))
    && |ZoneText(z)| <= 254
  }

  function ZoneText(z: Zone): string {
    z.code + "\t" + (z.coords + "\t" + (z.name + (if z.comment == "" then "" else "\t" + z.comment)))
  }

  function ZoneCells(z: Zone): seq<string> { [z.code, z.coords, z.name, z.comment] }

  function TableOf(zones: seq<Zone>): string {
    if zones == [] then "" else ZoneText(zones[0]) + "\n" + TableOf(zones[1..])
  }

  lemma TrimLast(a: string)
    requires Field(a)
    ensures Trim(a + "\n") == a && Trim(a) == a
  {
    var t := (a + "\n")[1..];
    assert t == a[1..] + "\n" && t[..|a| - 1] == a[1..];
    assert forall x :: x in a[1..] ==> x in a;
    FirstIndexIs(t, '\n', |a| - 1);
    assert a[1..][..|a| - 1] == a[1..];
    FirstIndexIs(a[1..], '\n', |a| - 1);
    assert a == [a[0]] + a[1..];
  }

  lemma TokensOfThree(a: string, b: string, c: string)
    requires a != "" && '\t' !in a && b != "" && '\t' !in b && c != "" && '\t' !in c
    ensures Tokens(a + "\t" + (b + "\t" + c), '\t') == [a, b, c]
  {
    TokensOfField(a, b + "\t" + c, '\t');
    TokensOfField(b, c, '\t');
    TokensOfLast(c, '\t');
  }

  lemma TokensOfFour(a: string, b: string, c: string, d: string)
    requires a != "" && '\t' !in a && b != "" && '\t' !in b && c != "" && '\t' !in c && d != "" && '\t' !in d
    ensures Tokens(a + "\t" + (b + "\t" + (c + "\t" + d)), '\t') == [a, b, c, d]
  {
    TokensOfField(a, b + "\t" + (c + "\t" + d), '\t');
    TokensOfThree(b, c, d);
  }

  lemma TokensOfZone(z: Zone)
    requires GoodZone(z)
    ensures Tokens(ZoneText(z) + "\n", '\t') ==
            if z.comment == "" then [z.code, z.coords, z.name + "\n"] else [z.code, z.coords, z.name, z.comment + "\n"]
  {
    if z.comment == "" {
      assert ZoneText(z) + "\n" == z.code + "\t" + (z.coords + "\t" + (z.name + "\n"));
      TokensOfThree(z.code, z.coords, z.name + "\n");
    } else {
      assert ZoneText(z) + "\n" == z.code + "\t" + (z.coords + "\t" + (z.name + "\t" + (z.comment + "\n")));
      TokensOfFour(z.code, z.coords, z.name, z.comment + "\n");
    }
  }

  lemma CellsOfZone(z: Zone)
    requires GoodZone(z)
    ensures Cells(ZoneText(z) + "\n") == ZoneCells(z)
  {
    TokensOfZone(z);
    TrimLast(z.code);
    TrimLast(z.coords);
    TrimLast(z.name);
    if z.comment != "" { TrimLast(z.comment); }
  }

  function LineText(z: Zone): string { ZoneText(z) + "\n" }

  lemma {:induction false} LinesOfTable(zones: seq<Zone>)
    requires forall z :: z in zones ==> GoodZone(z)
    ensures FileLines(TableOf(zones)) == Map(LineText, zones)
  {
    if zones != [] {
      var z, rest := zones[0], TableOf(zones[1..]);
      assert z in zones && GoodZone(z);
      LinesOfTable(zones[1..]);
      FirstLine(z, rest);
      Uncons(zones);
      MapUncons(LineText, z, zones[1..]);
    }
  }

  lemma FirstLine(z: Zone, rest: string)
    requires GoodZone(z)
    ensures FileLines(LineText(z) + rest) == [LineText(z)] + FileLines(rest)
  {
    assert '\n' !in ZoneText(z);
    FGetsLine(ZoneText(z), rest, LINE_SIZE);
    assert (LineText(z) + rest)[|LineText(z)|..] == rest;
  }

  /** Reading a table of well-formed rows gives back the four fields of every row, in order. */
  lemma {:induction false} TableReadsBack(zones: seq<Zone>)
    requires forall z :: z in zones ==> GoodZone(z)
    ensures FileCells(TableOf(zones)) == Flatten(Map(ZoneCells, zones))
  {
    LinesOfTable(zones);
    var lines := Map(LineText, zones);
    forall line | line in lines ensures ZoneRow(line) {
      var i :| 0 <= i < |zones| && lines[i] == line;
      assert zones[i] in zones && line[0] == zones[i].code[0];
    }
    FilterAll(ZoneRow, lines);
    forall i | 0 <= i < |zones| ensures Cells(lines[i]) == ZoneCells(zones[i]) {
      CellsOfZone(zones[i]);
    }
    assert Map(Cells, lines) == Map(ZoneCells, zones);
  }

  /** A comment that fits the buffer adds nothing. */
  lemma CommentsAreSkipped(text: string, rest: string)
    requires '\n' !in text && |text| + 2 < LINE_SIZE
    ensures FileCells(("#" + text) + "\n" + rest) == FileCells(rest)
  {
    var line := "#" + text;
    FGetsLine(line, rest, LINE_SIZE);
    assert (line + "\n" + rest)[|line + "\n"|..] == rest;
    assert FileLines(line + "\n" + rest) == [line + "\n"] + FileLines(rest);
    CellsOfNext(line + "\n", FileLines(rest));
    assert (line + "\n")[0] == '#';
  }

  /** A row too long for the buffer is cut after 255 characters, and what is left is taken for another row. */
  lemma LongRowIsCut(text: string, rest: string)
    requires '\n' !in text && |text| >= 255
    ensures var file := text + ("\n" + rest);
            FileLines(file) == [text[..255]] + FileLines(text[255..] + ("\n" + rest))
  {
    var file := text + ("\n" + rest);
    FirstIndexIs(file, '\n', |text|);
    assert file[..255] == text[..255] && file[255..] == text[255..] + ("\n" + rest);
  }

  // ---- zone names ----

  /** get_country and get_city: the first '/'-token and what follows its slash; None when there is no token,
      where the program would duplicate a NULL pointer. */
  function Split(name: string): Option<(string, string)> {
    if name == "" then None
    else if name[0] == '/' then Split(name[1..])
    else
      var n := FirstIndex(name, '/');
      Some((name[..n], if n < |name| then name[n + 1..] else ""))
  }

  function Path(country: string, city: string): string { country + "/" + city }

  lemma SplitNoSlash(name: string)
    ensures Split(name).Some? ==> Split(name).value.0 != "" && '/' !in Split(name).value.0
  {
    if name != "" && name[0] != '/' { assert name[..FirstIndex(name, '/')][0] == name[0]; }
  }

  /** The path made from the two halves is the zone name again exactly when the name has a slash but does not
      start with one. Further slashes stay in the city. */
  lemma PathUndoesSplit(name: string)
    ensures Split(name).Some? && Path(Split(name).value.0, Split(name).value.1) == name <==>
            name != "" && name[0] != '/' && '/' in name
  {
    if name != "" {
      if name[0] == '/' {
        SplitNoSlash(name);
        if Split(name).Some? {
          assert Path(Split(name).value.0, Split(name).value.1)[0] == Split(name).value.0[0];
        }
      } else {
        var n := FirstIndex(name, '/');
        if n < |name| {
          assert name == name[..n] + "/" + name[n + 1..];
        } else {
          assert forall k :: 0 <= k < |name| ==> name[k] != '/';
          assert |Path(name[..n], "")| == |name| + 1;
        }
      }
    }
  }

  // ---- the tree ----

  datatype Leaf = Leaf(city: string, comment: string)
  datatype Branch = Branch(country: string, leaves: seq<Leaf>)

  /** A row of the table as the tree sees it. */
  datatype Place = Place(country: string, leaf: Leaf)

  /** find_country_path: the position of the first branch of that name, or the length of the tree. */
  function FindCountry(tree: seq<Branch>, country: string): (i: nat)
    ensures i <= |tree|
    ensures i < |tree| ==> tree[i].country == country
    ensures forall j :: 0 <= j < i ==> tree[j].country != country
  {
    if tree == [] then 0
    else if tree[0].country == country then 0
    else
      var k := FindCountry(tree[1..], country);
      assert forall j :: 1 <= j < k + 1 ==> tree[j] == tree[1..][j - 1];
      k + 1
  }

  function AddPlace(tree: seq<Branch>, p: Place): seq<Branch> {
    var i := FindCountry(tree, p.country);
    if i < |tree| then tree[i := tree[i].(leaves := tree[i].leaves + [p.leaf])]
    else tree + [Branch(p.country, [p.leaf])]
  }

  function Build(tree: seq<Branch>, ps: seq<Place>): seq<Branch> {
    if ps == [] then tree else AddPlace(Build(tree, ps[..|ps| - 1]), ps[|ps| - 1])
  }

  function LeavesOf(tree: seq<Branch>, country: string): seq<Leaf> {
    var i := FindCountry(tree, country);
    if i < |tree| then tree[i].leaves else []
  }

  function Countries(tree: seq<Branch>): seq<string> { Map((b: Branch) => b.country, tree) }

  /** The list without repetitions, each element where it was first seen. */
  function FirstSeen(xs: seq<string>): seq<string> {
    if xs == [] then []
    else
      var seen := FirstSeen(xs[..|xs| - 1]);
      if xs[|xs| - 1] in seen then seen else seen + [xs[|xs| - 1]]
  }

  function InCountry(country: string): Place -> bool { (p: Place) => p.country == country }
  function LeafOf(p: Place): Leaf { p.leaf }
  function CountryOf(p: Place): string { p.country }

  lemma FindCountryIs(tree: seq<Branch>, country: string, i: nat)
    requires i <= |tree| && (i < |tree| ==> tree[i].country == country)
    requires forall j :: 0 <= j < i ==> tree[j].country != country
    ensures FindCountry(tree, country) == i
  {
  }

  lemma AddPlaceLeaves(tree: seq<Branch>, p: Place, country: string)
    ensures LeavesOf(AddPlace(tree, p), country)
            == LeavesOf(tree, country) + (if p.country == country then [p.leaf] else [])
  {
    var i, k, after := FindCountry(tree, p.country), FindCountry(tree, country), AddPlace(tree, p);
    if p.country == country {
      FindCountryIs(after, country, i);
    } else if k < |tree| {
      FindCountryIs(after, country, k);
    } else {
      FindCountryIs(after, country, |after|);
    }
  }

  /** Each branch gains its own places, in table order. */
  lemma {:induction false} BuildGroups(tree: seq<Branch>, ps: seq<Place>, country: string)
    ensures LeavesOf(Build(tree, ps), country) == LeavesOf(tree, country) + Map(LeafOf, Filter(InCountry(country), ps))
    decreases |ps|
  {
    if ps != [] {
      var init, last := ps[..|ps| - 1], ps[|ps| - 1];
      BuildGroups(tree, init, country);
      AddPlaceLeaves(Build(tree, init), last, country);
      TakeOne(ps, |init|);
      TakeAll(ps);
      LeavesSnoc(init, last, country);
      Assoc(LeavesOf(tree, country), Map(LeafOf, Filter(InCountry(country), init)),
        if last.country == country then [last.leaf] else []);
    }
  }

  lemma LeavesSnoc(ps: seq<Place>, p: Place, country: string)
    ensures Map(LeafOf, Filter(InCountry(country), ps + [p])) ==
            Map(LeafOf, Filter(InCountry(country), ps)) + (if p.country == country then [p.leaf] else [])
  {
    FilterSnoc(InCountry(country), ps, p);
  }

  /** A tree built from nothing has one branch per country, in the order the table first names them. */
  lemma {:induction false} BuildOrders(ps: seq<Place>)
    ensures Countries(Build([], ps)) == FirstSeen(Map(CountryOf, ps))
    ensures NoDup(Countries(Build([], ps)))
    decreases |ps|
  {
    if ps != [] {
      var init, last := ps[..|ps| - 1], ps[|ps| - 1];
      BuildOrders(init);
      var tree, cs := Build([], init), Map(CountryOf, ps);
      assert cs[..|cs| - 1] == Map(CountryOf, init);
      var i := FindCountry(tree, last.country);
      if i < |tree| {
        assert Countries(tree)[i] == last.country;
        assert Countries(AddPlace(tree, last)) == Countries(tree);
      } else {
        assert forall j :: 0 <= j < |tree| ==> Countries(tree)[j] == tree[j].country != last.country;
        assert Countries(AddPlace(tree, last)) == Countries(tree) + [last.country];
      }
    }
  }

  predicate GoodName(name: string) { name != "" && name[0] != '/' && '/' in name }

  /** The place of a zone: the halves of its name and its comment. */
  function PlaceOf(name: string, comment: string): Option<Place> {
    match Split(name)
    case None => None
    case Some(halves) => Some(Place(halves.0, Leaf(halves.1, comment)))
  }

  function PlaceOfZone(z: Zone): Place {
    match PlaceOf(z.name, z.comment) case None => Place("", Leaf("", "")) case Some(p) => p
  }

  function NameOf(z: Zone): string { z.name }

  function LeafPath(country: string): Leaf -> string { (l: Leaf) => Path(country, l.city) }

  function ZoneIn(country: string): Zone -> bool { (z: Zone) => PlaceOfZone(z).country == country }

  lemma {:induction false} PathsOfPlaces(zones: seq<Zone>, country: string)
    requires forall z :: z in zones ==> GoodName(z.name)
    ensures Map(LeafPath(country), Map(LeafOf, Filter(InCountry(country), Map(PlaceOfZone, zones)))) ==
            Map(NameOf, Filter(ZoneIn(country), zones))
  {
    FilterMap(PlaceOfZone, InCountry(country), ZoneIn(country), zones);
    var kept := Filter(ZoneIn(country), zones);
    forall i | 0 <= i < |kept| ensures LeafPath(country)(PlaceOfZone(kept[i]).leaf) == kept[i].name {
      assert kept[i] in kept;
      PathUndoesSplit(kept[i].name);
    }
  }

  /** The tree built on a first visit: walking a branch and making the path of each leaf gives the zone names of
      that country, in table order, and nothing else. */
  lemma TreePathsAreZoneNames(zones: seq<Zone>, country: string)
    requires forall z :: z in zones ==> GoodName(z.name)
    ensures Map(LeafPath(country), LeavesOf(Build([], Map(PlaceOfZone, zones)), country)) ==
            Map(NameOf, Filter(ZoneIn(country), zones))
  {
    BuildGroups([], Map(PlaceOfZone, zones), country);
    PathsOfPlaces(zones, country);
    var leaves := Map(LeafOf, Filter(InCountry(country), Map(PlaceOfZone, zones)));
    assert [] + leaves == leaves;
  }

  /** A zone in the tree: country, slash, city is its name, and the leaf carries its comment. */
  lemma ZoneByField(z: Zone)
    requires GoodName(z.name)
    ensures var p := PlaceOfZone(z);
            p.country != "" && '/' !in p.country && p.country + "/" + p.leaf.city == z.name
              && p.leaf.comment == z.comment
  {
    PathUndoesSplit(z.name);
    SplitNoSlash(z.name);
  }

  /** Which zones are a country's: those whose names begin with it and a slash. */
  lemma ZonesOfACountry(z: Zone, country: string)
    requires GoodName(z.name)
    ensures ZoneIn(country)(z) <==> '/' !in country && country + "/" <= z.name
  {
    ZoneByField(z);
    var p := PlaceOfZone(z);
    if '/' !in country && country + "/" <= z.name {
      assert z.name == country + ['/'] + z.name[|country| + 1..];
      SlashAfter(z.name, country, z.name[|country| + 1..]);
      SlashAfter(z.name, p.country, p.leaf.city);
    }
  }

  lemma SlashAfter(name: string, head: string, tail: string)
    requires name == head + ['/'] + tail && '/' !in head
    ensures FirstIndex(name, '/') == |head| && name[..|head|] == head
  {
    assert name[..|head|] == head;
    FirstIndexIs(name, '/', |head|);
  }

  /** The leaves of a country after a first visit, field by field. */
  lemma LeavesByField(zones: seq<Zone>, country: string)
    requires forall z :: z in zones ==> GoodName(z.name)
    ensures var leaves, kept := LeavesOf(Build([], Map(PlaceOfZone, zones)), country), Filter(ZoneIn(country), zones);
            && |leaves| == |kept|
            && forall i :: 0 <= i < |kept| ==>
                 country + "/" + leaves[i].city == kept[i].name && leaves[i].comment == kept[i].comment
  {
    BuildGroups([], Map(PlaceOfZone, zones), country);
    FilterMap(PlaceOfZone, InCountry(country), ZoneIn(country), zones);
    var kept := Filter(ZoneIn(country), zones);
    assert [] + Map(LeafOf, Map(PlaceOfZone, kept)) == Map(LeafOf, Map(PlaceOfZone, kept));
    forall i | 0 <= i < |kept|
      ensures country + "/" + PlaceOfZone(kept[i]).leaf.city == kept[i].name
              && PlaceOfZone(kept[i]).leaf.comment == kept[i].comment
    {
      assert kept[i] in kept;
      ZoneByField(kept[i]);
    }
  }

  // ---- coming back to the page ----

  function Copies<T>(n: nat, xs: seq<T>): seq<T> {
    if n == 0 then [] else Copies(n - 1, xs) + xs
  }

  /** The tree after `n` visits: each prerun appends the table to zonetime again and then adds all of zonetime
      to a tree it never clears. */
  function Visits(n: nat, ps: seq<Place>): seq<Branch> {
    if n == 0 then [] else Build(Visits(n - 1, ps), Copies(n, ps))
  }

  /** The leaves of one country that a table lists. */
  function LeavesIn(ps: seq<Place>, country: string): seq<Leaf> { Map(LeafOf, Filter(InCountry(country), ps)) }

  /** One copy, then two, and so on up to `n`. */
  function Staircase<T>(n: nat, xs: seq<T>): seq<T> {
    if n == 0 then [] else Staircase(n - 1, xs) + Copies(n, xs)
  }

  lemma LeavesAppend(ps: seq<Place>, qs: seq<Place>, country: string)
    ensures LeavesIn(ps + qs, country) == LeavesIn(ps, country) + LeavesIn(qs, country)
  {
    FilterAppend(InCountry(country), ps, qs);
    MapAppend(LeafOf, Filter(InCountry(country), ps), Filter(InCountry(country), qs));
  }

  lemma {:induction false} CopiesLeaves(n: nat, ps: seq<Place>, country: string)
    ensures LeavesIn(Copies(n, ps), country) == Copies(n, LeavesIn(ps, country))
  {
    if n > 0 {
      CopiesLeaves(n - 1, ps, country);
      LeavesAppend(Copies(n - 1, ps), ps, country);
    }
  }

  lemma LastVisit(n: nat, ps: seq<Place>, country: string, own: seq<Leaf>, before: seq<Leaf>)
    requires n > 0 && own == LeavesIn(ps, country) && before == LeavesOf(Visits(n - 1, ps), country)
    ensures LeavesOf(Visits(n, ps), country) == before + Copies(n, own)
  {
    CopiesLeaves(n, ps, country);
    BuildGroups(Visits(n - 1, ps), Copies(n, ps), country);
  }

  /** After n visits a country lists its cities once, then twice over, and so on up to n times over. */
  lemma {:induction false} VisitsRepeat(n: nat, ps: seq<Place>, country: string, own: seq<Leaf>)
    requires own == LeavesIn(ps, country)
    ensures LeavesOf(Visits(n, ps), country) == Staircase(n, own)
  {
    if n > 0 {
      VisitsRepeat(n - 1, ps, country, own);
      LastVisit(n, ps, country, own, Staircase(n - 1, own));
    }
  }

  lemma {:induction false} CopiesLength<T>(n: nat, xs: seq<T>, m: nat)
    requires m == n * |xs|
    ensures |Copies(n, xs)| == m
  {
    if n > 0 {
      assert m - |xs| == (n - 1) * |xs|;
      CopiesLength(n - 1, xs, m - |xs|);
    }
  }

  lemma Triangle(n: nat, m: nat, before: int, step: int, after: int)
    requires n > 0 && before == (n - 1) * n * m && step == n * m && after == n * (n + 1) * m
    ensures after == before + 2 * step
  {
    assert before == (n - 1) * step && after == (n + 1) * step;
  }

  lemma {:induction false} StaircaseLength<T>(n: nat, xs: seq<T>, double: nat)
    requires double == n * (n + 1) * |xs|
    ensures 2 * |Staircase(n, xs)| == double
  {
    if n > 0 {
      var before, step := (n - 1) * n * |xs|, n * |xs|;
      StaircaseLength(n - 1, xs, before);
      CopiesLength(n, xs, step);
      Triangle(n, |xs|, before, step, double);
    }
  }

  /** n visits list a country's cities n(n+1)/2 times: three times on the second visit. */
  lemma StaircaseCount<T>(n: nat, xs: seq<T>)
    ensures 2 * |Staircase(n, xs)| == n * (n + 1) * |xs|
  {
    StaircaseLength(n, xs, n * (n + 1) * |xs|);
  }

  // ---- the page ----

  /** The loop of fwifetime_find over one line: the tokens trimmed and appended, then the filler. */
  method AppendLine(zonetime: seq<string>, ligne: string) returns (zonetime': seq<string>)
    ensures zonetime' == zonetime + Cells(ligne)
  {
    zonetime' := zonetime;
    var j, str := 0, ligne;
    ghost var ts := Tokens(ligne, '\t');
    while true
      invariant 0 <= j <= |ts| && Tokens(str, '\t') == ts[j..]
      invariant zonetime' == zonetime + Map(Trim, ts)[..j]
      decreases |str|
    {
      // strtok_r: skip separators, cut the next token
      ghost var before := |str|;
      while str != "" && str[0] == '\t'
        invariant Tokens(str, '\t') == ts[j..] && |str| <= before
        decreases |str|
      {
        str := str[1..];
      }
      if str == "" { break; }
      var n := FirstIndex(str, '\t');
      var token := str[..n];
      str := str[n..];
      assert ts[j..][0] == token && ts[j..][1..] == ts[j + 1..];
      zonetime' := zonetime' + [Trim(token)];
      j := j + 1;
    }
    assert Map(Trim, ts)[..j] == Map(Trim, ts);
    if j < 4 { zonetime' := zonetime' + [""]; }
  }

  /** The rows prerun reads off the flat table, four cells at a time; None when a name cell is missing or has
      no token. */
  function PlacesIn(cells: seq<string>): Option<seq<Place>>
    decreases |cells|
  {
    if cells == [] then Some([])
    else if |cells| < 3 then None
    else
      match PlaceOf(cells[2], if |cells| > 3 then cells[3] else "")
      case None => None
      case Some(p) =>
        match PlacesIn(if |cells| > 4 then cells[4..] else [])
        case None => None
        case Some(rest) => Some([p] + rest)
  }

  function Before(ps: seq<Place>, rest: Option<seq<Place>>): Option<seq<Place>> {
    if rest == None then None else Some(ps + rest.value)
  }

  lemma BeforeNothing(rest: Option<seq<Place>>)
    ensures Before([], rest) == rest
  {
    if rest.Some? { assert [] + rest.value == rest.value; }
  }

  lemma BeforeBefore(a: seq<Place>, b: seq<Place>, rest: Option<seq<Place>>)
    ensures Before(a, Before(b, rest)) == Before(a + b, rest)
  {
    if rest.Some? { Assoc(a, b, rest.value); }
  }

  /** Something else than slashes. */
  predicate HasToken(name: string) { exists k :: 0 <= k < |name| && name[k] != '/' }

  lemma {:induction false} SplitExactly(name: string)
    ensures Split(name).Some? <==> HasToken(name)
  {
    if name != "" {
      if name[0] == '/' {
        SplitExactly(name[1..]);
        if HasToken(name) {
          var k :| 0 <= k < |name| && name[k] != '/';
          assert name[1..][k - 1] == name[k];
        }
      } else {
        assert name[0] != '/';
      }
    }
  }

  /** Every name cell has a token. */
  predicate Named(cells: seq<string>) {
    forall k :: 0 <= k < |cells| && k % 4 == 2 ==> HasToken(cells[k])
  }

  lemma NamedStep(cells: seq<string>)
    requires |cells| > 4
    ensures Named(cells) <==> HasToken(cells[2]) && Named(cells[4..])
  {
    var t := cells[4..];
    if Named(cells) {
      forall k | 0 <= k < |t| && k % 4 == 2 ensures HasToken(t[k]) {
        assert t[k] == cells[k + 4] && (k + 4) % 4 == 2;
      }
    }
    if HasToken(cells[2]) && Named(t) {
      forall k | 0 <= k < |cells| && k % 4 == 2 ensures HasToken(cells[k]) {
        if k > 2 { assert cells[k] == t[k - 4] && (k - 4) % 4 == 2; }
      }
    }
  }

  lemma PlacesStep(cells: seq<string>)
    requires |cells| >= 3
    ensures PlacesIn(cells).Some? <==> Split(cells[2]).Some? && (|cells| > 4 ==> PlacesIn(cells[4..]).Some?)
  {
  }

  lemma NamedShort(cells: seq<string>)
    requires 3 <= |cells| <= 4
    ensures Named(cells) <==> HasToken(cells[2])
  {
  }

  /** The table can be read if and only if no row breaks off before its name and every name has a token; anywhere
      else the program follows a NULL pointer. */
  lemma {:induction false} ReadableExactly(cells: seq<string>)
    ensures PlacesIn(cells).Some? <==> |cells| % 4 != 1 && |cells| % 4 != 2 && Named(cells)
    decreases |cells|
  {
    if |cells| < 3 {
      PlacesShort(cells);
    } else {
      PlacesStep(cells);
      SplitExactly(cells[2]);
      if |cells| > 4 {
        NamedStep(cells);
        ReadableExactly(cells[4..]);
        FourLess(|cells|);
      } else {
        NamedShort(cells);
      }
    }
  }

  lemma FourLess(n: int)
    ensures (n - 4) % 4 == n % 4
  {
  }

  lemma PlacesShort(cells: seq<string>)
    requires |cells| < 3
    ensures (PlacesIn(cells).Some? <==> cells == []) && Named(cells)
  {
  }

  lemma TailOfOneMore(cells: seq<string>)
    ensures |cells| >= 3 ==> (cells + [""])[2] == cells[2]
    ensures |cells| > 4 ==> (cells + [""])[3] == cells[3] && (cells + [""])[4..] == cells[4..] + [""]
  {
  }

  /** A comment missing at the end of the table is read as an empty one. */
  lemma {:induction false} MissingComment(cells: seq<string>)
    requires |cells| % 4 == 3
    ensures PlacesIn(cells) == PlacesIn(cells + [""])
    decreases |cells|
  {
    TailOfOneMore(cells);
    if |cells| > 4 { MissingComment(cells[4..]); }
  }

  /** Zone rows laid out four cells each are read back as their places. */
  lemma PlacesOfZones(zones: seq<Zone>)
    requires forall z :: z in zones ==> GoodName(z.name)
    ensures PlacesIn(Flatten(Map(ZoneCells, zones))) == Some(Map(PlaceOfZone, zones))
  {
    var cells, ps := Flatten(Map(ZoneCells, zones)), Map(PlaceOfZone, zones);
    PlacesAppend(zones, []);
    assert cells + [] == cells && ps + [] == ps;
  }

  class TimePage {
    var zonetime: seq<string>
    var tree: seq<Branch>

    constructor ()
      ensures zonetime == [] && tree == []
    {
      zonetime, tree := [], [];
    }

    /** One fgets of fwifetime_find and what it appends. */
    method ReadRow(file: string) returns (rest: string)
      requires file != ""
      modifies this`zonetime
      ensures |rest| < |file|
      ensures zonetime + FileCells(rest) == old(zonetime) + FileCells(file)
    {
      var ligne := FGets(file, LINE_SIZE);
      rest := file[|ligne|..];
      CellsOfNext(ligne, FileLines(rest));
      if ligne[0] != '#' {
        Assoc(zonetime, Cells(ligne), FileCells(rest));
        zonetime := AppendLine(zonetime, ligne);
      }
    }

    /** fwifetime_find: append the cells of every line of the table that is not a comment. */
    method FwifetimeFind(file: string)
      modifies this`zonetime
      ensures zonetime == old(zonetime) + FileCells(file)
    {
      var rest := file;
      while rest != ""
        invariant zonetime + FileCells(rest) == old(zonetime) + FileCells(file)
        decreases |rest|
      {
        rest := ReadRow(rest);
      }
      assert zonetime + FileCells("") == zonetime;
    }

    /** The tree half of prerun for one row. */
    method AddRow(country: string, city: string, comment: string)
      modifies this`tree
      ensures tree == AddPlace(old(tree), Place(country, Leaf(city, comment)))
    {
      var i := 0;
      while i < |tree| && tree[i].country != country
        invariant 0 <= i <= |tree|
        invariant forall j :: 0 <= j < i ==> tree[j].country != country
      {
        i := i + 1;
      }
      FindCountryIs(tree, country, i);
      if i == |tree| {
        tree := tree + [Branch(country, [Leaf(city, comment)])];
      } else {
        tree := tree[i := tree[i].(leaves := tree[i].leaves + [Leaf(city, comment)])];
      }
    }

    /** prerun: read the table, then add every row of zonetime to the tree. */
    method Prerun(file: string) returns (ok: bool)
      modifies this
      ensures zonetime == old(zonetime) + FileCells(file)
      ensures ok <==> PlacesIn(zonetime).Some?
      ensures ok ==> tree == Build(old(tree), PlacesIn(zonetime).value)
    {
      FwifetimeFind(file);
      var rest := zonetime;
      ghost var done: seq<Place> := [];
      BeforeNothing(PlacesIn(zonetime));
      while rest != []
        invariant PlacesIn(zonetime) == Before(done, PlacesIn(rest))
        invariant tree == Build(old(tree), done) && zonetime == old(zonetime) + FileCells(file)
        decreases |rest|
      {
        if |rest| < 3 { return false; }
        var comment := if |rest| > 3 then rest[3] else "";
        var halves := Split(rest[2]);
        if halves == None { return false; }
        AddRow(halves.value.0, halves.value.1, comment);
        rest := if |rest| > 4 then rest[4..] else [];
        ghost var p := Place(halves.value.0, Leaf(halves.value.1, comment));
        BeforeBefore(done, [p], PlacesIn(rest));
        Unsnoc(done, p);
        done := done + [p];
      }
      assert done + [] == done;
      ok := true;
    }
  }

  lemma CellsOfNext(line: string, lines: seq<string>)
    ensures CellsOf([line] + lines) == if ZoneRow(line) then Cells(line) + CellsOf(lines) else CellsOf(lines)
  {
    assert ([line] + lines)[1..] == lines;
    var kept := Filter(ZoneRow, lines);
    if ZoneRow(line) {
      assert Filter(ZoneRow, [line] + lines) == [line] + kept;
      assert Map(Cells, [line] + kept) == [Cells(line)] + Map(Cells, kept);
      assert ([Cells(line)] + Map(Cells, kept))[1..] == Map(Cells, kept);
    } else {
      assert Filter(ZoneRow, [line] + lines) == kept;
    }
  }

  /** First visit, whole path: a table of well-formed rows with good names gives a tree whose leaves, branch by
      branch, spell the table's zone names in table order. */
  lemma FirstVisit(zones: seq<Zone>, country: string)
    requires forall z :: z in zones ==> GoodZone(z) && GoodName(z.name)
    ensures var read := PlacesIn(FileCells(TableOf(zones)));
            read.Some? &&
            Map(LeafPath(country), LeavesOf(Build([], read.value), country))
              == Map(NameOf, Filter(ZoneIn(country), zones)) &&
            NoDup(Countries(Build([], read.value)))
  {
    TableReadsBack(zones);
    PlacesOfZones(zones);
    TreePathsAreZoneNames(zones, country);
    BuildOrders(Map(PlaceOfZone, zones));
  }

  lemma CellsUncons(zones: seq<Zone>, more: seq<string>)
    requires zones != []
    ensures Flatten(Map(ZoneCells, zones)) + more == ZoneCells(zones[0]) + (Flatten(Map(ZoneCells, zones[1..])) + more)
  {
    Uncons(zones);
    MapUncons(ZoneCells, zones[0], zones[1..]);
    FlattenCons(ZoneCells(zones[0]), Map(ZoneCells, zones[1..]));
    Assoc(ZoneCells(zones[0]), Flatten(Map(ZoneCells, zones[1..])), more);
  }

  /** Rows of four cells are read off one after the other, whatever follows them. */
  lemma {:induction false} PlacesAppend(zones: seq<Zone>, more: seq<string>)
    requires forall z :: z in zones ==> GoodName(z.name)
    ensures PlacesIn(Flatten(Map(ZoneCells, zones)) + more) == Before(Map(PlaceOfZone, zones), PlacesIn(more))
  {
    if zones == [] {
      assert Flatten(Map(ZoneCells, zones)) + more == more;
      BeforeNothing(PlacesIn(more));
    } else {
      var z, t := zones[0], zones[1..];
      assert z in zones;
      PlacesAppend(t, more);
      CellsUncons(zones, more);
      PlacesOfRow(z, Flatten(Map(ZoneCells, t)) + more);
      BeforeBefore([PlaceOfZone(z)], Map(PlaceOfZone, t), PlacesIn(more));
      Uncons(zones);
      MapUncons(PlaceOfZone, z, t);
    }
  }

  lemma PlacesOfRow(z: Zone, rest: seq<string>)
    requires GoodName(z.name)
    ensures PlacesIn(ZoneCells(z) + rest) == Before([PlaceOfZone(z)], PlacesIn(rest))
  {
    var cells := ZoneCells(z) + rest;
    assert cells[2] == z.name && cells[3] == z.comment && cells[4..] == rest;
    PathUndoesSplit(z.name);
  }

  lemma {:induction false} CopiesFirst<T>(n: nat, xs: seq<T>)
    requires n > 0
    ensures Copies(n, xs) == xs + Copies(n - 1, xs)
  {
    if n > 1 {
      CopiesFirst(n - 1, xs);
      Assoc(xs, Copies(n - 2, xs), xs);
    } else {
      assert Copies(0, xs) + xs == xs + Copies(0, xs);
    }
  }

  lemma PlacesOnceMore(zones: seq<Zone>, cells: seq<string>, ps: seq<Place>)
    requires forall z :: z in zones ==> GoodName(z.name)
    requires PlacesIn(cells) == Some(ps)
    ensures PlacesIn(Flatten(Map(ZoneCells, zones)) + cells) == Some(Map(PlaceOfZone, zones) + ps)
  {
    PlacesAppend(zones, cells);
  }

  /** The table n times over is read as its places n times over. */
  lemma {:induction false} PlacesTimes(n: nat, zones: seq<Zone>)
    requires forall z :: z in zones ==> GoodName(z.name)
    ensures PlacesIn(Copies(n, Flatten(Map(ZoneCells, zones)))) == Some(Copies(n, Map(PlaceOfZone, zones)))
  {
    if n > 0 {
      var cells, ps := Flatten(Map(ZoneCells, zones)), Map(PlaceOfZone, zones);
      PlacesTimes(n - 1, zones);
      PlacesOnceMore(zones, Copies(n - 1, cells), Copies(n - 1, ps));
      assert Copies(n, cells) == cells + Copies(n - 1, cells) by { CopiesFirst(n, cells); }
      assert Copies(n, ps) == ps + Copies(n - 1, ps) by { CopiesFirst(n, ps); }
    }
  }

  /** The page entered n times with the same table. */
  method VisitPage(zones: seq<Zone>, n: nat) returns (page: TimePage)
    requires forall z :: z in zones ==> GoodZone(z) && GoodName(z.name)
    ensures fresh(page)
    ensures page.tree == Visits(n, Map(PlaceOfZone, zones))
    ensures forall country ::
              LeavesOf(page.tree, country) == Staircase(n, LeavesIn(Map(PlaceOfZone, zones), country))
  {
    ghost var cells, ps := Flatten(Map(ZoneCells, zones)), Map(PlaceOfZone, zones);
    page := new TimePage();
    TableReadsBack(zones);
    for k := 0 to n
      invariant fresh(page)
      invariant page.zonetime == Copies(k, cells) && page.tree == Visits(k, ps)
    {
      PlacesTimes(k + 1, zones);
      var ok := page.Prerun(TableOf(zones));
    }
    forall country ensures LeavesOf(page.tree, country) == Staircase(n, LeavesIn(ps, country)) {
      VisitsRepeat(n, ps, country, LeavesIn(ps, country));
    }
  }
}
