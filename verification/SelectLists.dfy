/** select.c, select-intermediate.c, select-expert.c: the flat lists (three cells a category, four cells a
    package) and the loops that overwrite their flag cells. */
module SelectLists {
  import opened GLists
  import opened ConfigStore
  import opened Flags
  import opened Modes

  datatype Cell = Text(text: string) | Flag(flag: int)

  function CatCells(row: CatRow): seq<Cell> { [Text(row.name), Text(row.size), Flag(row.flag)] }

  function PkgCells(row: PkgRow): seq<Cell> { [Text(row.name), Text(row.size), Text(row.desc), Flag(row.flag)] }

  function FlatCats(rows: seq<CatRow>): (cells: seq<Cell>)
    ensures |cells| == 3 * |rows|
  {
    if rows == [] then [] else CatCells(rows[0]) + FlatCats(rows[1..])
  }

  function FlatPkgs(rows: seq<PkgRow>): (cells: seq<Cell>)
    ensures |cells| == 4 * |rows|
  {
    if rows == [] then [] else PkgCells(rows[0]) + FlatPkgs(rows[1..])
  }

  function FlatLists(lists: seq<Entry<seq<PkgRow>>>): seq<Entry<seq<Cell>>> {
    Map((e: Entry<seq<PkgRow>>) => Entry(e.name, FlatPkgs(e.data)), lists)
  }

  lemma {:induction false} FlatCatCells(rows: seq<CatRow>, i: nat)
    requires i < |rows|
    ensures FlatCats(rows)[3 * i] == Text(rows[i].name) && FlatCats(rows)[3 * i + 1] == Text(rows[i].size)
    ensures FlatCats(rows)[3 * i + 2] == Flag(rows[i].flag)
  {
    if i > 0 { FlatCatCells(rows[1..], i - 1); }
  }

  lemma {:induction false} FlatPkgCells(rows: seq<PkgRow>, j: nat)
    requires j < |rows|
    ensures FlatPkgs(rows)[4 * j] == Text(rows[j].name) && FlatPkgs(rows)[4 * j + 1] == Text(rows[j].size)
    ensures FlatPkgs(rows)[4 * j + 2] == Text(rows[j].desc) && FlatPkgs(rows)[4 * j + 3] == Flag(rows[j].flag)
  {
    if j > 0 { FlatPkgCells(rows[1..], j - 1); }
  }

  lemma UpdateTail<T>(a: seq<T>, b: seq<T>, i: nat, x: T)
    requires |a| <= i < |a| + |b|
    ensures (a + b)[i := x] == a + b[i - |a| := x]
  {
  }

  lemma UpdateRest<T>(xs: seq<T>, i: nat, x: T)
    requires 0 < i < |xs|
    ensures xs[i := x][0] == xs[0] && xs[i := x][1..] == xs[1..][i - 1 := x]
  {
  }

  /** Overwriting cell 3i+2 sets the flag of category i and nothing else. */
  lemma {:induction false} SetCatCell(rows: seq<CatRow>, i: nat, b: int)
    requires i < |rows|
    ensures FlatCats(rows)[3 * i + 2 := Flag(b)] == FlatCats(rows[i := rows[i].(flag := b)])
  {
    var rows' := rows[i := rows[i].(flag := b)];
    if i == 0 {
      assert rows'[1..] == rows[1..];
      assert CatCells(rows[0])[2 := Flag(b)] == CatCells(rows'[0]);
    } else {
      SetCatCell(rows[1..], i - 1, b);
      UpdateTail(CatCells(rows[0]), FlatCats(rows[1..]), 3 * i + 2, Flag(b));
      UpdateRest(rows, i, rows[i].(flag := b));
    }
  }

  /** Overwriting cell 4j+3 sets the flag of package j and nothing else. */
  lemma {:induction false} SetPkgCell(rows: seq<PkgRow>, j: nat, b: int)
    requires j < |rows|
    ensures FlatPkgs(rows)[4 * j + 3 := Flag(b)] == FlatPkgs(rows[j := rows[j].(flag := b)])
  {
    var rows' := rows[j := rows[j].(flag := b)];
    if j == 0 {
      assert rows'[1..] == rows[1..];
      assert PkgCells(rows[0])[3 := Flag(b)] == PkgCells(rows'[0]);
    } else {
      SetPkgCell(rows[1..], j - 1, b);
      UpdateTail(PkgCells(rows[0]), FlatPkgs(rows[1..]), 4 * j + 3, Flag(b));
      UpdateRest(rows, j, rows[j].(flag := b));
    }
  }

  lemma FindFlat(lists: seq<Entry<seq<PkgRow>>>, name: string)
    ensures Find(FlatLists(lists), name) == Find(lists, name)
  {
    FindIs(FlatLists(lists), name, Find(lists, name));
  }

  // ---- an operation as a change of rows ----

  function MarkedRows(rows: seq<PkgRow>, exception: Option<string>, b: int, n: nat): seq<PkgRow>
    requires n <= |rows|
  {
    seq(|rows|, j requires 0 <= j < |rows| =>
      if j < n && exception != Some(rows[j].name) then rows[j].(flag := b) else rows[j])
  }

  lemma ApplyCat(s: Selection, name: string, b: int, i: nat)
    requires i <= |s.cats|
    requires i < |s.cats| ==> FirstCat(s.cats, name, i)
    requires i == |s.cats| ==> forall j :: 0 <= j < |s.cats| ==> s.cats[j].name != name
    ensures Apply(s, Cat(name, b)) == if i < |s.cats| then s.(cats := s.cats[i := s.cats[i].(flag := b)]) else s
  {
    var t := if i < |s.cats| then s.(cats := s.cats[i := s.cats[i].(flag := b)]) else s;
    SameAsWritten(s, Cat(name, b), t);
  }

  /** The selection an operation leaves is the one with the same catalogue and the flags the operation gives. */
  lemma SameAsWritten(s: Selection, op: Op, t: Selection)
    requires SameCatalogue(s, t)
    requires forall p :: Has(s, p) ==> Has(t, p) && FlagAt(t, p) == NewFlag(s, op, p)
    ensures Apply(s, op) == t
  {
    ApplyFlags(s, op);
    SameSym(s, Apply(s, op));
    SameTrans(Apply(s, op), s, t);
    assert forall p :: Has(Apply(s, op), p) ==> Has(s, p);
    EqualByFlags(Apply(s, op), t);
  }

  function WithRows(s: Selection, k: nat, rows: seq<PkgRow>): Selection
    requires k < |s.lists|
  {
    s.(lists := s.lists[k := Entry(s.lists[k].name, rows)])
  }

  lemma ApplyAllOp(s: Selection, cat: string, exception: Option<string>, b: int)
    ensures var k := Find(s.lists, cat);
            Apply(s, All(cat, exception, b)) ==
            if k < |s.lists| then WithRows(s, k, MarkedRows(s.lists[k].data, exception, b, |s.lists[k].data|)) else s
  {
    var k := Find(s.lists, cat);
    var t := if k < |s.lists| then WithRows(s, k, MarkedRows(s.lists[k].data, exception, b, |s.lists[k].data|)) else s;
    SameAsWritten(s, All(cat, exception, b), t);
  }

  lemma ApplyFile(s: Selection, cat: string, name: string, b: int, j: nat)
    requires Find(s.lists, cat) < |s.lists|
    requires var rows := s.lists[Find(s.lists, cat)].data;
             j <= |rows| && (j < |rows| ==> FirstPkg(rows, name, j)) &&
             (j == |rows| ==> forall i :: 0 <= i < |rows| ==> rows[i].name != name)
    ensures var k := Find(s.lists, cat); var rows := s.lists[k].data;
            Apply(s, File(cat, name, b)) == if j < |rows| then WithRows(s, k, rows[j := rows[j].(flag := b)]) else s
  {
    var k := Find(s.lists, cat);
    var rows := s.lists[k].data;
    var t := if j < |rows| then WithRows(s, k, rows[j := rows[j].(flag := b)]) else s;
    SameAsWritten(s, File(cat, name, b), t);
  }

  lemma ApplyNowhere(s: Selection, op: Op)
    requires (op.File? || op.All?) && Find(s.lists, op.cat) == |s.lists|
    ensures Apply(s, op) == s
  {
    SameAsWritten(s, op, s);
  }

  // ---- the operations, row by row ----

  /** selectcat sets the flag of the first category of that name, and only that. */
  lemma SelectCatByField(s: Selection, name: string, b: int, i: nat)
    requires i < |s.cats| && s.cats[i].name == name && forall j :: 0 <= j < i ==> s.cats[j].name != name
    ensures Apply(s, Cat(name, b)) == s.(cats := s.cats[i := s.cats[i].(flag := b)])
  {
    ApplyCat(s, name, b, i);
  }

  /** selectallfiles sets the flags of the first list of that category, except under the name to be left out. */
  lemma SelectAllByField(s: Selection, cat: string, exception: Option<string>, b: int, k: nat)
    requires k < |s.lists| && s.lists[k].name == cat && forall j :: 0 <= j < k ==> s.lists[j].name != cat
    ensures var t := Apply(s, All(cat, exception, b));
            && t.cats == s.cats && |t.lists| == |s.lists|
            && (forall j :: 0 <= j < |s.lists| && j != k ==> t.lists[j] == s.lists[j])
            && t.lists[k].name == cat && |t.lists[k].data| == |s.lists[k].data|
            && forall j :: 0 <= j < |s.lists[k].data| ==>
                 t.lists[k].data[j] ==
                 if exception == Some(s.lists[k].data[j].name) then s.lists[k].data[j]
                   else s.lists[k].data[j].(flag := b)
  {
    FindIs(s.lists, cat, k);
    ApplyAllOp(s, cat, exception, b);
  }

  /** selectfile sets the flag of the first package of that name on the first list of the category, and only that. */
  lemma SelectFileByField(s: Selection, cat: string, name: string, b: int, k: nat, j: nat)
    requires k < |s.lists| && s.lists[k].name == cat && forall i :: 0 <= i < k ==> s.lists[i].name != cat
    requires j < |s.lists[k].data| && s.lists[k].data[j].name == name
    requires forall i :: 0 <= i < j ==> s.lists[k].data[i].name != name
    ensures var rows := s.lists[k].data;
            Apply(s, File(cat, name, b)) == s.(lists := s.lists[k := Entry(cat, rows[j := rows[j].(flag := b)])])
  {
    FindIs(s.lists, cat, k);
    ApplyFile(s, cat, name, b, j);
  }

  /** The writes of expert mode: one category, one package, one whole list, by position. */
  lemma ExpertByField(s: Selection, i: nat, k: nat, j: nat, b: int)
    requires i < |s.cats| && k < |s.lists| && j < |s.lists[k].data|
    ensures Apply(s, CatAt(i, b)) == s.(cats := s.cats[i := s.cats[i].(flag := b)])
    ensures Apply(s, PkgAt(k, j, b)) ==
            s.(lists := s.lists[k := Entry(s.lists[k].name, s.lists[k].data[j := s.lists[k].data[j].(flag := b)])])
    ensures var t := Apply(s, AllAt(k, b));
            && t.cats == s.cats && |t.lists| == |s.lists|
            && (forall n :: 0 <= n < |s.lists| && n != k ==> t.lists[n] == s.lists[n])
            && t.lists[k].name == s.lists[k].name && |t.lists[k].data| == |s.lists[k].data|
            && forall n :: 0 <= n < |s.lists[k].data| ==> t.lists[k].data[n] == s.lists[k].data[n].(flag := b)
  {
    ApplyCatAt(s, i, b);
    ApplyPkgAt(s, k, j, b);
    ApplyAllAt(s, k, b);
  }

  /** Names that are not there change nothing. */
  lemma SelectAbsent(s: Selection, cat: string, name: string, exception: Option<string>, b: int)
    ensures (forall i :: 0 <= i < |s.cats| ==> s.cats[i].name != name) ==> Apply(s, Cat(name, b)) == s
    ensures (forall k :: 0 <= k < |s.lists| ==> s.lists[k].name != cat) ==>
              Apply(s, All(cat, exception, b)) == s && Apply(s, File(cat, name, b)) == s
  {
    if forall i :: 0 <= i < |s.cats| ==> s.cats[i].name != name { ApplyCat(s, name, b, |s.cats|); }
    if forall k :: 0 <= k < |s.lists| ==> s.lists[k].name != cat {
      FindIs(s.lists, cat, |s.lists|);
      ApplyNowhere(s, All(cat, exception, b));
      ApplyNowhere(s, File(cat, name, b));
    }
  }

  /** The sums compared with the free space count each package's installed and packed size. */
  lemma SumsByField(sorted: seq<Resolved>, r: Resolved)
    ensures Unpacked(sorted + [r]) == Unpacked(sorted) + r.usize && Packed(sorted + [r]) == Packed(sorted) + r.size
    ensures Unpacked([]) == 0 && Packed([]) == 0
    ensures FullName(r) == r.name + "-" + r.version
  {
    Unsnoc(sorted, r);
  }

  /** The order of the targets: category by category, and within each in list order. */
  lemma TargetsInOrder(s: Selection, before: seq<CatRow>, c: CatRow, rows: seq<PkgRow>, r: PkgRow)
    ensures TargetsOf(s, before + [c]) == TargetsOf(s, before) + Contribution(s, c)
    ensures c.flag != 1 ==> Contribution(s, c) == []
    ensures c.flag == 1 && Get(s.lists, c.name) == Some(rows + [r]) ==>
              Contribution(s, c) == Picked(rows) + (if r.flag == 1 then [r.name] else [])
  {
    TargetsSnoc(s, before, c);
    PickedSnoc(rows, r);
  }

  lemma FlatWithRows(s: Selection, k: nat, rows: seq<PkgRow>)
    requires k < |s.lists|
    ensures FlatLists(WithRows(s, k, rows).lists) == FlatLists(s.lists)[k := Entry(s.lists[k].name, FlatPkgs(rows))]
  {
  }

  lemma ApplySnoc(base: Selection, log: seq<Op>, op: Op)
    ensures ApplyAll(base, log + [op]) == Apply(ApplyAll(base, log), op)
  {
    assert (log + [op])[..|log|] == log;
  }

  lemma Assoc4<T>(l: seq<T>, a: seq<T>, b: seq<T>, c: seq<T>, d: seq<T>)
    ensures l + a + b + c + d == l + (a + b + c + d)
  {
    Assoc(l, a, b);
    Assoc(l, a + b, c);
    Assoc(l, a + b + c, d);
  }

  lemma AppendTwo<T>(l: seq<T>, x: T, y: T, rest: seq<T>)
    ensures l + [x] + [y] + rest == l + ([x, y] + rest)
  {
  }

  /** The default applications in the parts they are selected in. */
  lemma XappsInParts()
    ensures XAPPS[..4] == ["dvdauthor", "emacs", "gfpm", "gnetconfig"]
    ensures XAPPS[4..8] == ["gnokii", "gvfs", "icedtea-web", "libreoffice"]
    ensures XAPPS[8..12] == ["vte", "system-config-printer", "startup-notification", "plymouth"]
    ensures XAPPS[12..] == ["xpdf", "udisks"]
    ensures Files("xapps", XAPPS[..4], 1) + Files("xapps", XAPPS[4..8], 1) + Files("xapps", XAPPS[8..12], 1)
            + Files("xapps", XAPPS[12..], 1)
         == Files("xapps", XAPPS, 1)
  {
  }

  /** The same for the console applications. */
  lemma AppsInParts()
    ensures APPS[..4] == ["bash-completion", "bc", "bluez", "cdrtools"]
    ensures APPS[4..8] == ["sudo", "irqbalance", "logrotate", "man-pages"]
    ensures APPS[8..12] == ["nano", "pm-utils", "pmount", "recode"]
    ensures APPS[12..] == ["unarj", "unzip", "unarj", "vim", "upower", "memtest86+"]
    ensures Files("apps", APPS[..4], 1) + Files("apps", APPS[4..8], 1) + Files("apps", APPS[8..12], 1)
            + Files("apps", APPS[12..], 1)
         == Files("apps", APPS, 1)
  {
  }

  lemma Logged(base: Selection, log: seq<Op>, op: Op, sel: Selection, next: Selection)
    requires sel == ApplyAll(base, log) && next == Apply(sel, op)
    ensures next == ApplyAll(base, log + [op])
  {
    ApplySnoc(base, log, op);
  }

  // ---- the lists ----

  class Catalogue {
    var cats: seq<Cell>
    var allPackages: seq<Entry<seq<Cell>>>
    ghost var sel: Selection
    ghost const base: Selection
    ghost var log: seq<Op>

    /** The flat lists are the rows laid out, and the rows are the first ones after all operations so far. */
    ghost predicate Valid() reads this {
      cats == FlatCats(sel.cats) && allPackages == FlatLists(sel.lists) && sel == ApplyAll(base, log)
    }

    constructor (s: Selection)
      ensures Valid() && sel == base == s && log == []
    {
      cats, allPackages, sel, base, log := FlatCats(s.cats), FlatLists(s.lists), s, s, [];
    }

    /** Record that the flat lists now show `next`, the selection after `op`. */
    ghost method Log(op: Op, next: Selection)
      requires sel == ApplyAll(base, log) && next == Apply(sel, op)
      requires cats == FlatCats(next.cats) && allPackages == FlatLists(next.lists)
      modifies this`sel, this`log
      ensures Valid() && log == old(log) + [op]
    {
      Logged(base, log, op, sel, next);
      sel, log := next, log + [op];
    }

    /** selectcat */
    method SelectCat(name: string, b: int)
      requires Valid()
      modifies this
      ensures Valid() && log == old(log) + [Cat(name, b)]
    {
      var i := 0;
      ghost var k := 0;
      while i < |cats|
        invariant Valid() && log == old(log)
        invariant i == 3 * k && 0 <= k <= |sel.cats|
        invariant forall j :: 0 <= j < k ==> sel.cats[j].name != name
      {
        FlatCatCells(sel.cats, k);
        if cats[i] == Text(name) {
          ApplyCat(sel, name, b, k);
          SetCatCell(sel.cats, k, b);
          cats := cats[i + 2 := Flag(b)];
          Log(Cat(name, b), Apply(sel, Cat(name, b)));
          return;
        }
        i := i + 3;
        k := k + 1;
      }
      ApplyCat(sel, name, b, |sel.cats|);
      Log(Cat(name, b), Apply(sel, Cat(name, b)));
    }

    /** selectallfiles */
    method SelectAllFiles(cat: string, exception: Option<string>, b: int)
      requires Valid()
      modifies this
      ensures Valid() && log == old(log) + [All(cat, exception, b)]
    {
      var k := FindList(allPackages, sel, cat);
      ApplyAllOp(sel, cat, exception, b);
      if k < |allPackages| {
        ghost var rows := sel.lists[k].data;
        FlatWithRows(sel, k, MarkedRows(rows, exception, b, |rows|));
        var lispack := MarkAll(allPackages[k].data, rows, exception, b);
        allPackages := allPackages[k := Entry(allPackages[k].name, lispack)];
      }
      Log(All(cat, exception, b), Apply(sel, All(cat, exception, b)));
    }

    /** selectfile */
    method SelectFile(cat: string, name: string, b: int)
      requires Valid()
      modifies this
      ensures Valid() && log == old(log) + [File(cat, name, b)]
    {
      var k := FindList(allPackages, sel, cat);
      if k == |allPackages| {
        ApplyNowhere(sel, File(cat, name, b));
        Log(File(cat, name, b), Apply(sel, File(cat, name, b)));
        return;
      }
      ghost var rows := sel.lists[k].data;
      var lispack := allPackages[k].data;
      ghost var j;
      var i;
      i, j := FindRow(lispack, rows, name);
      ApplyFile(sel, cat, name, b, j);
      if i < |lispack| {
        SetPkgCell(rows, j, b);
        FlatWithRows(sel, k, rows[j := rows[j].(flag := b)]);
        allPackages := allPackages[k := Entry(allPackages[k].name, lispack[i + 3 := Flag(b)])];
      }
      Log(File(cat, name, b), Apply(sel, File(cat, name, b)));
    }

    // ---- expert mode: cells at computed offsets ----

    /** fixed_toggled_cat on row i, shown as `fixed`. */
    method FixedToggledCat(i: nat, fixed: bool)
      requires Valid() && i < |sel.cats|
      modifies this
      ensures Valid() && log == old(log) + [CatAt(i, if fixed then 0 else 1)]
    {
      var b := if fixed then 0 else 1;
      ApplyCatAt(sel, i, b);
      SetCatCell(sel.cats, i, b);
      cats := cats[i * 3 + 2 := Flag(b)];
      Log(CatAt(i, b), Apply(sel, CatAt(i, b)));
    }

    /** fixed_toggled_pack on row j of the current list, the k-th, shown as `fixed`. */
    method FixedToggledPack(k: nat, j: nat, fixed: bool)
      requires Valid() && k < |sel.lists| && j < |sel.lists[k].data|
      modifies this
      ensures Valid() && log == old(log) + [PkgAt(k, j, if fixed then 0 else 1)]
    {
      var b := if fixed then 0 else 1;
      ghost var rows := sel.lists[k].data;
      ApplyPkgAt(sel, k, j, b);
      SetPkgCell(rows, j, b);
      FlatWithRows(sel, k, rows[j := rows[j].(flag := b)]);
      allPackages := allPackages[k := Entry(allPackages[k].name, allPackages[k].data[j * 4 + 3 := Flag(b)])];
      Log(PkgAt(k, j, b), Apply(sel, PkgAt(k, j, b)));
    }

    /** selection_clicked: every package of the current list, the k-th. */
    method SelectionClicked(k: nat, b: int)
      requires Valid() && k < |sel.lists|
      modifies this
      ensures Valid() && log == old(log) + [AllAt(k, b)]
    {
      ghost var rows := sel.lists[k].data;
      ApplyAllAt(sel, k, b);
      FlatWithRows(sel, k, MarkedRows(rows, None, b, |rows|));
      var lispack := MarkAll(allPackages[k].data, rows, None, b);
      allPackages := allPackages[k := Entry(allPackages[k].name, lispack)];
      Log(AllAt(k, b), Apply(sel, AllAt(k, b)));
    }

    // ---- basic mode ----

    /** Four calls of selectfile in a row, on one category. */
    method SelectFiles4(cat: string, a: string, b: string, c: string, d: string, flag: int)
      requires Valid()
      modifies this
      ensures Valid() && log == old(log) + Files(cat, [a, b, c, d], flag)
    {
      SelectFile(cat, a, flag);
      SelectFile(cat, b, flag);
      SelectFile(cat, c, flag);
      SelectFile(cat, d, flag);
    }

    /** Three calls of selectfile in a row, on one category. */
    method SelectFiles3(cat: string, a: string, b: string, c: string, flag: int)
      requires Valid()
      modifies this
      ensures Valid() && log == old(log) + Files(cat, [a, b, c], flag)
    {
      SelectFile(cat, a, flag);
      SelectFile(cat, b, flag);
      SelectFile(cat, c, flag);
    }

    method PickXapps()
      requires Valid()
      modifies this
      ensures Valid() && log == old(log) + Files("xapps", XAPPS, 1)
    {
      ghost var l := log;
      SelectFiles4("xapps", "dvdauthor", "emacs", "gfpm", "gnetconfig", 1);
      SelectFiles4("xapps", "gnokii", "gvfs", "icedtea-web", "libreoffice", 1);
      SelectFiles4("xapps", "vte", "system-config-printer", "startup-notification", "plymouth", 1);
      SelectFiles2("xapps", "xpdf", "udisks", 1);
      XappsInParts();
      Assoc4(l, Files("xapps", XAPPS[..4], 1), Files("xapps", XAPPS[4..8], 1), Files("xapps", XAPPS[8..12], 1),
        Files("xapps", XAPPS[12..], 1));
    }

    /** Two calls of selectfile in a row, on one category. */
    method SelectFiles2(cat: string, a: string, b: string, flag: int)
      requires Valid()
      modifies this
      ensures Valid() && log == old(log) + Files(cat, [a, b], flag)
    {
      SelectFile(cat, a, flag);
      SelectFile(cat, b, flag);
    }

    method PickApps()
      requires Valid()
      modifies this
      ensures Valid() && log == old(log) + Files("apps", APPS, 1)
    {
      ghost var l := log;
      SelectFiles4("apps", "bash-completion", "bc", "bluez", "cdrtools", 1);
      SelectFiles4("apps", "sudo", "irqbalance", "logrotate", "man-pages", 1);
      SelectFiles4("apps", "nano", "pm-utils", "pmount", "recode", 1);
      PickLastApps();
      AppsInParts();
      Assoc4(l, Files("apps", APPS[..4], 1), Files("apps", APPS[4..8], 1), Files("apps", APPS[8..12], 1),
        Files("apps", APPS[12..], 1));
    }

    method PickLastApps()
      requires Valid()
      modifies this
      ensures Valid() && log == old(log) + Files("apps", ["unarj", "unzip", "unarj", "vim", "upower", "memtest86+"], 1)
    {
      SelectFiles4("apps", "unarj", "unzip", "unarj", "vim", 1);
      SelectFile("apps", "upower", 1);
      SelectFile("apps", "memtest86+", 1);
    }

    method SelectLocales(lang: string, a: string, b: string, flag: int)
      requires Valid()
      modifies this
      ensures Valid() && log == old(log) + LocaleOps(lang, [a, b], flag)
    {
      SelectFile("locale-extra", a + lang, flag);
      SelectFile("locale-extra", b + lang, flag);
    }

    method PickCommonFiles(lang: string)
      requires Valid()
      modifies this
      ensures Valid() && log == old(log) + CommonFiles(lang)
    {
      ghost var l := log;
      PickXapps();
      PickApps();
      SelectFiles4("network", "apache", "samba", "procmail", "postfix", 0);
      SelectFile("xlib", "flashplugin", 1);
      ghost var four := Files("xapps", XAPPS, 1) + Files("apps", APPS, 1) + Files("network", NETWORK, 0)
          + [File("xlib", "flashplugin", 1)];
      Assoc4(l, Files("xapps", XAPPS, 1), Files("apps", APPS, 1), Files("network", NETWORK, 0),
        [File("xlib", "flashplugin", 1)]);
      if lang != "en" {
        SelectLocales(lang, "firefox-", "thunderbird-", 0);
        Assoc(l, four, LocaleOps(lang, ["firefox-", "thunderbird-"], 0));
      }
    }

    method ClearDefaults()
      requires Valid()
      modifies this
      ensures Valid() && log == old(log) + CLEARED
    {
      SelectCat("lib", 0);
      SelectCat("devel", 0);
      SelectAllFiles("xapps", None, 0);
      SelectAllFiles("apps", None, 0);
      SelectAllFiles("xlib", None, 0);
    }

    method ClearDesktops()
      requires Valid()
      modifies this
      ensures Valid() && log == old(log) + DESKTOPS_OFF
    {
      SelectCat("kde", 0);
      SelectAllFiles("gnome", None, 0);
      SelectCat("xfce4", 0);
    }

    method PickKdeFiles()
      requires Valid()
      modifies this
      ensures Valid() && log == old(log) + KDE_FILES
    {
      SelectFiles3("kde-extra", "rekonq", "krita", "kmymoney2", 1);
      SelectFile("apps", "attica", 1);
      SelectFile("xapps", "akonadi", 1);
      SelectFile("xapps-extra", "qtparted", 1);
    }

    method PickKde(lang: string)
      requires Valid()
      modifies this
      ensures Valid() && log == old(log) + DesktopOps(KDE, lang)
    {
      SelectCat("kde", 1);
      SelectLocales(lang, "koffice-l10n-", "kde-l10n-", 1);
      SelectFile("locale-extra", "k3b-i18n", 1);
      SelectCat("kde-extra", 1);
      PickKdeFiles();
    }

    method PickGnomeFiles()
      requires Valid()
      modifies this
      ensures Valid() && log == old(log) + GNOME_FILES
    {
      SelectFiles3("gnome-extra", "epiphany", "empathy", "gnucash", 1);
      SelectFile("xapps-extra", "transmission", 1);
      SelectFiles3("xapps", "gimp", "gftp", "xchat", 1);
      SelectFile("xmultimedia", "phonon", 0);
      SelectFile("xapps-extra", "gparted", 1);
    }

    method PickXfceFiles()
      requires Valid()
      modifies this
      ensures Valid() && log == old(log) + XFCE_FILES
    {
      SelectFiles4("xfce4-extra", "squeeze", "eatmonkey", "parole", "xfburn", 1);
      SelectFiles4("xfce4-extra", "xfce4-notifyd", "xfce4-power-manager", "xfce4-volumed", "thunar-thumbnailers", 1);
      SelectFiles3("xapps-extra", "midori", "xarchiver", "claws-mail", 1);
      SelectFiles3("xapps", "gimp", "gftp", "pidgin", 1);
      PickPlain();
      SelectFiles3("xapps-extra", "epdfview", "gparted", "grisbi", 1);
    }

    method PickPlain()
      requires Valid()
      modifies this
      ensures Valid()
      ensures log == old(log) + [File("gnome", "gksu-frugalware", 1), File("xapps", "xchat", 1),
                                 File("xmultimedia", "phonon", 0)]
    {
      SelectFile("gnome", "gksu-frugalware", 1);
      SelectFile("xapps", "xchat", 1);
      SelectFile("xmultimedia", "phonon", 0);
    }

    method PickLxdeFiles()
      requires Valid()
      modifies this
      ensures Valid() && log == old(log) + LXDE_FILES
    {
      SelectFiles4("xapps-extra", "midori", "leafpad", "claws-mail", "xarchiver", 1);
      SelectFiles3("xapps", "gimp", "gftp", "pidgin", 1);
      PickPlain();
      SelectFiles4("xapps-extra", "epdfview", "gparted", "grisbi", "recorder", 1);
    }

    method PickGnome(lang: string)
      requires Valid()
      modifies this
      ensures Valid() && log == old(log) + DesktopOps(GNOME, lang)
    {
      ghost var l := log;
      SelectAllFiles("gnome", None, 1);
      SelectCat("gnome-extra", 1);
      PickGnomeFiles();
      AppendTwo(l, All("gnome", None, 1), Cat("gnome-extra", 1), GNOME_FILES);
    }

    method PickXfce(lang: string)
      requires Valid()
      modifies this
      ensures Valid() && log == old(log) + DesktopOps(XFCE, lang)
    {
      ghost var l := log;
      SelectCat("xfce4", 1);
      SelectCat("xfce4-extra", 1);
      PickXfceFiles();
      AppendTwo(l, Cat("xfce4", 1), Cat("xfce4-extra", 1), XFCE_FILES);
    }

    method PickLxde(lang: string)
      requires Valid()
      modifies this
      ensures Valid() && log == old(log) + DesktopOps(LXDE, lang)
    {
      ghost var l := log;
      SelectCat("lxde-desktop", 1);
      SelectAllFiles("lxde-desktop", None, 1);
      PickLxdeFiles();
      AppendTwo(l, Cat("lxde-desktop", 1), All("lxde-desktop", None, 1), LXDE_FILES);
    }

    method PickDesktop(desk: Desktop, lang: string)
      requires Valid()
      modifies this
      ensures Valid() && log == old(log) + DesktopOps(desk, lang)
    {
      match desk {
        case KDE => PickKde(lang);
        case GNOME => PickGnome(lang);
        case XFCE => PickXfce(lang);
        case LXDE => PickLxde(lang);
      }
    }

    method PickCommon(lang: string)
      requires Valid()
      modifies this
      ensures Valid() && log == old(log) + CommonOps(lang)
    {
      ghost var l := log;
      ClearDefaults();
      PickCommonFiles(lang);
      PickTweaks();
      ClearDesktops();
      Assoc4(l, CLEARED, CommonFiles(lang), TWEAKS, DESKTOPS_OFF);
    }

    method PickTweaks()
      requires Valid()
      modifies this
      ensures Valid() && log == old(log) + TWEAKS
    {
      SelectCat("xapps-extra", 1);
      SelectFile("xapps-extra", "frugalware-tweak", 1);
    }

    /** The calls of configure_desktop_basic, in order. */
    method BasicSequence(desk: Desktop, lang: string)
      requires Valid()
      modifies this
      ensures Valid() && log == old(log) + BasicOps(desk, lang)
    {
      ghost var l := log;
      PickCommon(lang);
      PickDesktop(desk, lang);
      Assoc(l, CommonOps(lang), DesktopOps(desk, lang));
    }

    /** configure_desktop_basic, as a change of the selection. */
    method ConfigureDesktopBasic(desk: Desktop, lang: string)
      requires Valid()
      modifies this
      ensures Valid() && sel == ApplyAll(old(sel), BasicOps(desk, lang))
    {
      ghost var l0, ops := log, BasicOps(desk, lang);
      BasicSequence(desk, lang);
      ApplyAllAppend(base, l0, ops);
    }

    /** run_basic_mode and run_intermediate_mode: the same writes. */
    method FixLocales(lang: string)
      requires Valid()
      modifies this
      ensures Valid() && log == old(log) + LocaleFix(lang)
    {
      if lang != "en" {
        SelectLocales(lang, "eric-i18n-", "eric4-i18n-", 0);
        SelectLocales(lang, "hunspell-", "koffice-l10n-", 0);
        SelectLocales(lang, "mbrola-", "kde-l10n-", 0);
      }
    }

    // ---- intermediate mode ----

    method ClearChoices()
      requires Valid()
      modifies this
      ensures Valid() && log == old(log) + CHOICES_OFF
    {
      SelectCat("lib", 0);
      SelectCat("xlib", 0);
      SelectCat("kde", 0);
      SelectCat("gnome", 0);
      SelectCat("xfce4", 0);
    }

    method PickChoice(c: Choice, lang: string)
      requires Valid()
      modifies this
      ensures Valid() && log == old(log) + ChoiceOps(c, lang)
    {
      match c {
        case KDE_X =>
          SelectCat("kde", 1);
          SelectLocales(lang, "koffice-l10n-", "kde-l10n-", 1);
          SelectFile("locale-extra", "k3b-i18n", 1);
        case GNOME_X =>
          SelectCat("gnome", 1);
        case XFCE_X =>
          SelectCat("xfce4", 1);
        case LXDE_X =>
          SelectCat("lxde-desktop", 1);
          SelectAllFiles("lxde-desktop", None, 1);
        case E17_X =>
          SelectCat("e17-extra", 1);
          SelectAllFiles("e17-extra", None, 1);
          SelectCat("x11-extra", 1);
          SelectFile("x11-extra", "lxdm", 1);
        case NO_X =>
          SelectCat("x11", 0);
      }
    }

    /** configure_desktop_intermediate, as a change of the selection. */
    method ConfigureDesktopIntermediate(c: Choice, lang: string)
      requires Valid()
      modifies this
      ensures Valid() && sel == ApplyAll(old(sel), IntermediateOps(c, lang))
    {
      ghost var l := log;
      ClearChoices();
      PickChoice(c, lang);
      Assoc(l, CHOICES_OFF, ChoiceOps(c, lang));
      ApplyAllAppend(base, l, IntermediateOps(c, lang));
    }

    /** group_changed, as a change of the selection; `flag` is 1 for a checked box and 0 for a cleared one. */
    method GroupChanged(box: string, flag: int, lang: string)
      requires Valid()
      modifies this
      ensures Valid() && sel == ApplyAll(old(sel), GroupOps(box, flag, lang))
    {
      ghost var l := log;
      WriteGroup(box, flag, lang);
      ApplyAllAppend(base, l, GroupOps(box, flag, lang));
    }

    method WriteGroup(box: string, flag: int, lang: string)
      requires Valid()
      modifies this
      ensures Valid() && log == old(log) + GroupOps(box, flag, lang)
    {
      match box {
        case "NET" => SelectCat("network", flag);
        case "NETEX" => SelectCat("network-extra", flag);
        case "MUL" => SelectCats("multimedia", "xmultimedia", flag);
        case "MULEX" => SelectCats("multimedia-extra", "xmultimedia-extra", flag);
        case "DEV" =>
          SelectCat("devel", flag);
          SelectFile("locale-extra", "php-docs-" + lang, flag);
        case "DEVEX" => SelectCat("devel-extra", flag);
        case "GAME" => SelectCat("games-extra", flag);
        case _ => WritePackedGroup(box, flag, lang);
      }
    }

    method WritePackedGroup(box: string, flag: int, lang: string)
      requires Valid()
      modifies this
      ensures Valid() && log == old(log) + PackedOps(box, flag, lang)
    {
      match box {
        case "CONS" => SelectCatWithPacks("apps", "vim-spell-", "aspell-", flag, lang);
        case "CONSEX" => SelectCatWithPacks("apps-extra", "hunspell-", "mbrola-", flag, lang);
        case "XAPP" =>
          SelectAllFiles("xapps", Some("libreoffice"), flag);
          if lang != "en" { SelectLocales(lang, "firefox-", "thunderbird-", flag); }
        case "XAPPEX" => SelectCatWithPacks("xapps-extra", "eric-i18n-", "eric4-i18n-", flag, lang);
        case "BUR" =>
          SelectFile("xapps", "libreoffice", flag);
          if lang != "en" { SelectFile("locale-extra", "libreoffice-l10n-" + lang, flag); }
        case _ =>
      }
    }

    /** Two calls of selectcat in a row. */
    method SelectCats(a: string, b: string, flag: int)
      requires Valid()
      modifies this
      ensures Valid() && log == old(log) + [Cat(a, flag), Cat(b, flag)]
    {
      SelectCat(a, flag);
      SelectCat(b, flag);
    }

    /** A category and, unless the language is English, two of its language packs. */
    method SelectCatWithPacks(cat: string, a: string, b: string, flag: int, lang: string)
      requires Valid()
      modifies this
      ensures Valid() && log == old(log) + WithPacks(Cat(cat, flag), lang, [a, b], flag)
    {
      SelectCat(cat, flag);
      if lang != "en" { SelectLocales(lang, a, b, flag); }
    }

    // ---- run ----

    /** select.c, run: add the flagged packages of the flagged categories. */
    method Collect() returns (targets: seq<string>)
      requires Valid()
      ensures targets == Targets(sel)
    {
      targets := CollectTargets(cats, allPackages, sel);
    }
  }

  /** data_get on all_packages: where the category's list is. */
  method FindList(lists: seq<Entry<seq<Cell>>>, ghost sel: Selection, cat: string) returns (k: nat)
    requires lists == FlatLists(sel.lists)
    ensures k == Find(sel.lists, cat)
  {
    k := 0;
    while k < |lists| && lists[k].name != cat
      invariant 0 <= k <= |lists|
      invariant forall j :: 0 <= j < k ==> lists[j].name != cat
    {
      k := k + 1;
    }
    FindIs(lists, cat, k);
    FindFlat(sel.lists, cat);
  }

  /** The flagged packages of one category. */
  method CategoryTargets(lists: seq<Entry<seq<Cell>>>, ghost sel: Selection, cat: string) returns (names: seq<string>)
    requires lists == FlatLists(sel.lists)
    ensures names == match Get(sel.lists, cat) case None => [] case Some(rows) => Picked(rows)
  {
    var pkgs := FindList(lists, sel, cat);
    if pkgs == |lists| { return []; }
    names := FlaggedNames(lists[pkgs].data, sel.lists[pkgs].data);
  }

  /** What one category adds, read from its cells. */
  method TargetsAt(cats: seq<Cell>, lists: seq<Entry<seq<Cell>>>, ghost sel: Selection, i: nat, ghost k: nat)
      returns (names: seq<string>)
    requires cats == FlatCats(sel.cats) && lists == FlatLists(sel.lists)
    requires i == 3 * k && k < |sel.cats|
    ensures names == Contribution(sel, sel.cats[k])
  {
    FlatCatCells(sel.cats, k);
    if cats[i + 2] == Flag(1) {
      names := CategoryTargets(lists, sel, cats[i].text);
    } else {
      names := [];
    }
  }

  /** The loop of run: walk the flagged categories and add the flagged packages of each. */
  method CollectTargets(cats: seq<Cell>, lists: seq<Entry<seq<Cell>>>, ghost sel: Selection)
      returns (targets: seq<string>)
    requires cats == FlatCats(sel.cats) && lists == FlatLists(sel.lists)
    ensures targets == Targets(sel)
  {
    targets := [];
    var i := 0;
    ghost var k := 0;
    while i < |cats|
      invariant i == 3 * k && 0 <= k <= |sel.cats|
      invariant targets == TargetsOf(sel, sel.cats[..k])
    {
      var more := TargetsAt(cats, lists, sel, i, k);
      TargetsStep(sel, k, more);
      targets := targets + more;
      i := i + 3;
      k := k + 1;
    }
    TakeAll(sel.cats);
  }

  /** The first cell of the first package of this name, or the length of the list. */
  method FindRow(lispack: seq<Cell>, ghost rows: seq<PkgRow>, name: string) returns (i: nat, ghost j: nat)
    requires lispack == FlatPkgs(rows)
    ensures i == 4 * j && j <= |rows|
    ensures j < |rows| ==> FirstPkg(rows, name, j)
    ensures j == |rows| ==> forall n :: 0 <= n < |rows| ==> rows[n].name != name
  {
    i, j := 0, 0;
    while i < |lispack|
      invariant i == 4 * j && 0 <= j <= |rows|
      invariant forall n :: 0 <= n < j ==> rows[n].name != name
    {
      FlatPkgCells(rows, j);
      if lispack[i] == Text(name) { return; }
      i := i + 4;
      j := j + 1;
    }
  }

  predicate Chosen(r: PkgRow) { r.flag == 1 }
  function NameOf(r: PkgRow): string { r.name }

  /** The names a category contributes. */
  function Contribution(s: Selection, c: CatRow): seq<string> {
    if c.flag != 1 then []
    else match Get(s.lists, c.name) case None => [] case Some(rows) => Picked(rows)
  }

  function TargetsOf(s: Selection, cats: seq<CatRow>): seq<string> {
    Flatten(Map((c: CatRow) => Contribution(s, c), cats))
  }

  function Targets(s: Selection): seq<string> { TargetsOf(s, s.cats) }

  lemma TargetsSnoc(s: Selection, cats: seq<CatRow>, c: CatRow)
    ensures TargetsOf(s, cats + [c]) == TargetsOf(s, cats) + Contribution(s, c)
  {
    var f := (c: CatRow) => Contribution(s, c);
    assert Map(f, cats + [c]) == Map(f, cats) + [f(c)];
    FlattenSnoc(Map(f, cats), f(c));
  }

  lemma TargetsStep(s: Selection, k: nat, more: seq<string>)
    requires k < |s.cats| && more == Contribution(s, s.cats[k])
    ensures TargetsOf(s, s.cats[..k + 1]) == TargetsOf(s, s.cats[..k]) + more
  {
    TargetsSnoc(s, s.cats[..k], s.cats[k]);
    TakeOne(s.cats, k);
  }

  function Picked(rows: seq<PkgRow>): seq<string> { Map(NameOf, Filter(Chosen, rows)) }

  lemma PickedSnoc(rows: seq<PkgRow>, r: PkgRow)
    ensures Picked(rows + [r]) == if Chosen(r) then Picked(rows) + [r.name] else Picked(rows)
  {
    FilterSnoc(Chosen, rows, r);
  }

  method FlaggedNames(cells: seq<Cell>, ghost rows: seq<PkgRow>) returns (names: seq<string>)
    requires cells == FlatPkgs(rows)
    ensures names == Picked(rows)
  {
    names := [];
    var i := 0;
    ghost var j := 0;
    while i < |cells|
      invariant i == 4 * j && 0 <= j <= |rows|
      invariant names == Picked(rows[..j])
    {
      FlatPkgCells(rows, j);
      PickedSnoc(rows[..j], rows[j]);
      TakeOne(rows, j);
      if cells[i + 3] == Flag(1) {
        names := names + [cells[i].text];
      }
      i := i + 4;
      j := j + 1;
    }
    TakeAll(rows);
  }

  ghost predicate ChosenIn(rows: seq<PkgRow>, name: string) {
    exists j :: 0 <= j < |rows| && rows[j].name == name && rows[j].flag == 1
  }

  lemma PickedExactly(rows: seq<PkgRow>, name: string)
    ensures name in Picked(rows) <==> ChosenIn(rows, name)
  {
    var kept := Filter(Chosen, rows);
    if name in Picked(rows) {
      var n :| 0 <= n < |kept| && Picked(rows)[n] == name;
      assert kept[n] in kept;
    }
    if ChosenIn(rows, name) {
      var j :| 0 <= j < |rows| && rows[j].name == name && rows[j].flag == 1;
      assert rows[j] in rows && rows[j] in kept;
      var n :| 0 <= n < |kept| && kept[n] == rows[j];
      assert Picked(rows)[n] == name;
    }
  }

  /** A package is a target exactly when it is flagged on the list of some flagged category. */
  lemma TargetsExactly(s: Selection, name: string)
    ensures name in Targets(s) <==>
            exists i :: 0 <= i < |s.cats| && s.cats[i].flag == 1 &&
              Get(s.lists, s.cats[i].name).Some? && ChosenIn(Get(s.lists, s.cats[i].name).value, name)
  {
    var f := (c: CatRow) => Contribution(s, c);
    if name in Targets(s) {
      var i :| 0 <= i < |s.cats| && name in Map(f, s.cats)[i];
      PickedExactly(Get(s.lists, s.cats[i].name).value, name);
    }
    if i :| 0 <= i < |s.cats| && s.cats[i].flag == 1 &&
              Get(s.lists, s.cats[i].name).Some? && ChosenIn(Get(s.lists, s.cats[i].name).value, name) {
      PickedExactly(Get(s.lists, s.cats[i].name).value, name);
      assert name in Map(f, s.cats)[i];
    }
  }

  // ---- the space gate ----

  /** A package of the resolved transaction. */
  datatype Resolved = Resolved(name: string, version: string, usize: int, size: int)

  datatype Value = Size(bytes: int) | Packages(names: seq<string>)

  function FullName(r: Resolved): string { r.name + "-" + r.version }

  function Unpacked(rs: seq<Resolved>): int { if rs == [] then 0 else Unpacked(rs[..|rs| - 1]) + rs[|rs| - 1].usize }
  function Packed(rs: seq<Resolved>): int { if rs == [] then 0 else Packed(rs[..|rs| - 1]) + rs[|rs| - 1].size }

  /** The end of select's run: the download size is stored either way; the package list is stored, in
      transaction order, exactly when unpacked and downloaded packages together fit in the free space. */
  method StoreResolved(config: seq<Entry<Value>>, sorted: seq<Resolved>, freespace: int)
      returns (ret: int, config': seq<Entry<Value>>)
    ensures ret == if Unpacked(sorted) + Packed(sorted) > freespace then 1 else 0
    ensures Get(config', "compsizepkg") == Some(Size(Packed(sorted)))
    ensures Get(config', "packages") == if ret == 0 then Some(Packages(Map(FullName, sorted)))
            else Get(config, "packages")
    ensures forall key :: key != "compsizepkg" && key != "packages" ==> Get(config', key) == Get(config, key)
  {
    var pkgsize, compressedsize, allpkgs := 0, 0, [];
    for i := 0 to |sorted|
      invariant pkgsize == Unpacked(sorted[..i]) && compressedsize == Packed(sorted[..i])
      invariant allpkgs == Map(FullName, sorted[..i])
    {
      assert sorted[..i + 1][..i] == sorted[..i];
      pkgsize := pkgsize + sorted[i].usize;
      compressedsize := compressedsize + sorted[i].size;
      allpkgs := allpkgs + [sorted[i].name + "-" + sorted[i].version];
    }
    assert sorted[..|sorted|] == sorted;
    PutGet(config, "compsizepkg", Size(compressedsize));
    config' := DataPut(config, "compsizepkg", Size(compressedsize));
    if pkgsize + compressedsize > freespace { return 1, config'; }
    PutGet(config', "packages", Packages(allpkgs));
    config' := DataPut(config', "packages", Packages(allpkgs));
    ret := 0;
  }

  method MarkAll(cells: seq<Cell>, ghost rows: seq<PkgRow>, exception: Option<string>, b: int)
      returns (lispack: seq<Cell>)
    requires cells == FlatPkgs(rows)
    ensures lispack == FlatPkgs(MarkedRows(rows, exception, b, |rows|))
  {
    lispack := cells;
    var i := 0;
    ghost var j := 0;
    assert MarkedRows(rows, exception, b, 0) == rows;
    while i < |lispack|
      invariant i == 4 * j && 0 <= j <= |rows|
      invariant lispack == FlatPkgs(MarkedRows(rows, exception, b, j))
    {
      ghost var now, next := MarkedRows(rows, exception, b, j), MarkedRows(rows, exception, b, j + 1);
      FlatPkgCells(now, j);
      if exception == None || lispack[i] != Text(exception.value) {
        SetPkgCell(now, j, b);
        assert now[j := now[j].(flag := b)] == next;
        lispack := lispack[i + 3 := Flag(b)];
      } else {
        assert now == next;
      }
      i := i + 4;
      j := j + 1;
    }
  }

  lemma ApplyCatAt(s: Selection, i: nat, b: int)
    requires i < |s.cats|
    ensures Apply(s, CatAt(i, b)) == s.(cats := s.cats[i := s.cats[i].(flag := b)])
  {
    SameAsWritten(s, CatAt(i, b), s.(cats := s.cats[i := s.cats[i].(flag := b)]));
  }

  lemma ApplyPkgAt(s: Selection, k: nat, j: nat, b: int)
    requires k < |s.lists| && j < |s.lists[k].data|
    ensures var rows := s.lists[k].data; Apply(s, PkgAt(k, j, b)) == WithRows(s, k, rows[j := rows[j].(flag := b)])
  {
    var rows := s.lists[k].data;
    SameAsWritten(s, PkgAt(k, j, b), WithRows(s, k, rows[j := rows[j].(flag := b)]));
  }

  lemma ApplyAllAt(s: Selection, k: nat, b: int)
    requires k < |s.lists|
    ensures var rows := s.lists[k].data; Apply(s, AllAt(k, b)) == WithRows(s, k, MarkedRows(rows, None, b, |rows|))
  {
    var rows := s.lists[k].data;
    SameAsWritten(s, AllAt(k, b), WithRows(s, k, MarkedRows(rows, None, b, |rows|)));
  }
}
