/** select-basic.c and select-intermediate.c: the writes each mode makes. */
module Modes {
  import opened GLists
  import opened ConfigStore
  import opened Flags

  datatype Desktop = KDE | GNOME | XFCE | LXDE

  function Files(cat: string, names: seq<string>, flag: int): seq<Op> {
    seq(|names|, i requires 0 <= i < |names| => File(cat, names[i], flag))
  }

  const XAPPS: seq<string> := ["dvdauthor", "emacs", "gfpm", "gnetconfig", "gnokii", "gvfs", "icedtea-web",
    "libreoffice",
    "vte", "system-config-printer", "startup-notification", "plymouth", "xpdf", "udisks"]

  const APPS: seq<string> := ["bash-completion", "bc", "bluez", "cdrtools", "sudo", "irqbalance", "logrotate",
    "man-pages",
    "nano", "pm-utils", "pmount", "recode", "unarj", "unzip", "unarj", "vim", "upower", "memtest86+"]

  const NETWORK: seq<string> := ["apache", "samba", "procmail", "postfix"]

  /** Libraries, development and the default applications off. */
  const CLEARED: seq<Op> := [Cat("lib", 0), Cat("devel", 0), All("xapps", None, 0), All("apps", None, 0),
      All("xlib", None, 0)]

  const DESKTOPS_OFF: seq<Op> := [Cat("kde", 0), All("gnome", None, 0), Cat("xfce4", 0)]

  function LocaleOps(lang: string, prefixes: seq<string>, flag: int): seq<Op> {
    seq(|prefixes|, i requires 0 <= i < |prefixes| => File("locale-extra", prefixes[i] + lang, flag))
  }

  /** The packages picked or dropped whatever the desktop. */
  function CommonFiles(lang: string): seq<Op> {
    Files("xapps", XAPPS, 1) + Files("apps", APPS, 1) + Files("network", NETWORK, 0)
    + [File("xlib", "flashplugin", 1)]
    + (if lang != "en" then LocaleOps(lang, ["firefox-", "thunderbird-"], 0) else [])
  }

  const TWEAKS: seq<Op> := [Cat("xapps-extra", 1), File("xapps-extra", "frugalware-tweak", 1)]

  /** The writes every desktop shares. */
  function CommonOps(lang: string): seq<Op> { CLEARED + CommonFiles(lang) + TWEAKS + DESKTOPS_OFF }

  function KdeLocales(lang: string): seq<Op> {
    LocaleOps(lang, ["koffice-l10n-", "kde-l10n-"], 1) + [File("locale-extra", "k3b-i18n", 1)]
  }

  const KDE_FILES: seq<Op> := Files("kde-extra", ["rekonq", "krita", "kmymoney2"], 1)
    + [File("apps", "attica", 1), File("xapps", "akonadi", 1), File("xapps-extra", "qtparted", 1)]

  const GNOME_FILES: seq<Op> := Files("gnome-extra", ["epiphany", "empathy", "gnucash"], 1)
    + [File("xapps-extra", "transmission", 1)] + Files("xapps", ["gimp", "gftp", "xchat"], 1)
    + [File("xmultimedia", "phonon", 0), File("xapps-extra", "gparted", 1)]

  const XFCE_FILES: seq<Op> :=
    Files("xfce4-extra", ["squeeze", "eatmonkey", "parole", "xfburn", "xfce4-notifyd", "xfce4-power-manager",
                          "xfce4-volumed", "thunar-thumbnailers"], 1)
    + Files("xapps-extra", ["midori", "xarchiver", "claws-mail"], 1) + Files("xapps", ["gimp", "gftp", "pidgin"], 1)
    + [File("gnome", "gksu-frugalware", 1), File("xapps", "xchat", 1), File("xmultimedia", "phonon", 0)]
    + Files("xapps-extra", ["epdfview", "gparted", "grisbi"], 1)

  const LXDE_FILES: seq<Op> :=
    Files("xapps-extra", ["midori", "leafpad", "claws-mail", "xarchiver"], 1)
      + Files("xapps", ["gimp", "gftp", "pidgin"], 1)
    + [File("gnome", "gksu-frugalware", 1), File("xapps", "xchat", 1), File("xmultimedia", "phonon", 0)]
    + Files("xapps-extra", ["epdfview", "gparted", "grisbi", "recorder"], 1)

  function DesktopOps(desk: Desktop, lang: string): seq<Op> {
    match desk
    case KDE => [Cat("kde", 1)] + KdeLocales(lang) + [Cat("kde-extra", 1)] + KDE_FILES
    case GNOME => [All("gnome", None, 1), Cat("gnome-extra", 1)] + GNOME_FILES
    case XFCE => [Cat("xfce4", 1), Cat("xfce4-extra", 1)] + XFCE_FILES
    case LXDE => [Cat("lxde-desktop", 1), All("lxde-desktop", None, 1)] + LXDE_FILES
  }

  /** configure_desktop_basic */
  function BasicOps(desk: Desktop, lang: string): seq<Op> { CommonOps(lang) + DesktopOps(desk, lang) }

  // ---- what basic mode determines ----

  const BASIC_CATEGORIES: seq<string> := ["lib", "devel", "kde", "xfce4", "xapps-extra"]
  const BASIC_LISTS: seq<string> := ["xapps", "apps", "xlib", "gnome"]

  lemma CommonContains(lang: string)
    ensures forall c :: c in BASIC_CATEGORIES ==> exists b :: Cat(c, b) in CommonOps(lang)
    ensures forall l :: l in BASIC_LISTS ==> All(l, None, 0) in CommonOps(lang)
  {
    var ops := CommonOps(lang);
    assert forall op :: op in CLEARED ==> op in ops;
    assert forall op :: op in DESKTOPS_OFF ==> op in ops;
    assert Cat("xapps-extra", 1) in ops;
    assert Cat("lib", 0) == CLEARED[0] && Cat("devel", 0) == CLEARED[1];
    assert All("xapps", None, 0) == CLEARED[2] && All("apps", None, 0) == CLEARED[3]
      && All("xlib", None, 0) == CLEARED[4];
    assert Cat("kde", 0) == DESKTOPS_OFF[0] && All("gnome", None, 0) == DESKTOPS_OFF[1]
      && Cat("xfce4", 0) == DESKTOPS_OFF[2];
  }

  /** A place basic mode always writes: the flag of one of its categories, or of any package on one of its lists. */
  predicate BasicPlace(s: Selection, p: Place)
    requires Has(s, p)
  {
    match p
    case OfCat(i) => exists c :: c in BASIC_CATEGORIES && FirstCat(s.cats, c, i)
    case OfPkg(k, _) => exists l :: l in BASIC_LISTS && Find(s.lists, l) == k
  }

  /** Two installers over the same catalogue, whatever flags they start from, agree on all these places once
      basic mode has run with the same desktop and language. */
  lemma BasicModeDetermines(s: Selection, t: Selection, desk: Desktop, lang: string, p: Place)
    requires SameCatalogue(s, t) && Has(s, p) && BasicPlace(s, p)
    ensures Has(ApplyAll(s, BasicOps(desk, lang)), p) && Has(ApplyAll(t, BasicOps(desk, lang)), p)
    ensures FlagAt(ApplyAll(s, BasicOps(desk, lang)), p) == FlagAt(ApplyAll(t, BasicOps(desk, lang)), p)
  {
    var ops := BasicOps(desk, lang);
    CommonContains(lang);
    assert forall op :: op in CommonOps(lang) ==> op in ops;
    if p.OfCat? {
      var c :| c in BASIC_CATEGORIES && FirstCat(s.cats, c, p.i);
      var b :| Cat(c, b) in CommonOps(lang);
      WrittenWhenHit(s, ops, p, Cat(c, b));
    } else {
      var l :| l in BASIC_LISTS && Find(s.lists, l) == p.k;
      WrittenWhenHit(s, ops, p, All(l, None, 0));
    }
    LastWriteSame(s, t, ops, p);
    FlagsAfter(s, ops, p);
    FlagsAfter(t, ops, p);
  }

  // ---- what basic mode forgets ----

  /** The category writes of a sequence, as (name, flag) pairs. */
  function CatWrites(ops: seq<Op>): set<(string, int)> {
    set op | op in ops && op.Cat? :: (op.name, op.flag)
  }

  lemma CatWritesAppend(a: seq<Op>, b: seq<Op>)
    ensures CatWrites(a + b) == CatWrites(a) + CatWrites(b)
  {
    forall w ensures w in CatWrites(a + b) <==> w in CatWrites(a) + CatWrites(b) {
      assert w in CatWrites(a + b) <==> Cat(w.0, w.1) in a + b;
      assert w in CatWrites(a) <==> Cat(w.0, w.1) in a;
      assert w in CatWrites(b) <==> Cat(w.0, w.1) in b;
    }
  }

  predicate NoCats(ops: seq<Op>) { forall op :: op in ops ==> op.File? || op.All? }

  /** The sequence names everything it writes, and writes these categories. */
  ghost predicate WritesCats(ops: seq<Op>, ws: set<(string, int)>) {
    OnlyNamed(ops) && CatWrites(ops) == ws
  }

  predicate OnlyNamed(ops: seq<Op>) { forall op :: op in ops ==> !op.CatAt? }

  lemma NoCatWrites(ops: seq<Op>)
    requires NoCats(ops)
    ensures WritesCats(ops, {})
  {
  }

  lemma WritesAppend(a: seq<Op>, b: seq<Op>, u: set<(string, int)>, v: set<(string, int)>)
    requires WritesCats(a, u) && WritesCats(b, v)
    ensures WritesCats(a + b, u + v)
  {
    CatWritesAppend(a, b);
  }

  lemma WritesOne(op: Op)
    requires !op.CatAt?
    ensures WritesCats([op], if op.Cat? then {(op.name, op.flag)} else {})
  {
    assert [op][0] == op;
  }

  lemma ClearedCats()
    ensures WritesCats(CLEARED, {("lib", 0), ("devel", 0)})
    ensures WritesCats(TWEAKS, {("xapps-extra", 1)})
    ensures WritesCats(DESKTOPS_OFF, {("kde", 0), ("xfce4", 0)})
  {
    assert CLEARED[0] == Cat("lib", 0) && CLEARED[1] == Cat("devel", 0);
    assert TWEAKS[0] == Cat("xapps-extra", 1);
    assert DESKTOPS_OFF[0] == Cat("kde", 0) && DESKTOPS_OFF[2] == Cat("xfce4", 0);
  }

  lemma CommonCats(lang: string)
    ensures WritesCats(CommonOps(lang), {("lib", 0), ("devel", 0)} + {("xapps-extra", 1)} + {("kde", 0), ("xfce4", 0)})
  {
    ClearedCats();
    NoCatWrites(CommonFiles(lang));
    WritesAppend(CLEARED, CommonFiles(lang), {("lib", 0), ("devel", 0)}, {});
    assert {("lib", 0), ("devel", 0)} + {} == {("lib", 0), ("devel", 0)};
    WritesAppend(CLEARED + CommonFiles(lang), TWEAKS, {("lib", 0), ("devel", 0)}, {("xapps-extra", 1)});
    WritesAppend(CLEARED + CommonFiles(lang) + TWEAKS, DESKTOPS_OFF,
      {("lib", 0), ("devel", 0)} + {("xapps-extra", 1)}, {("kde", 0), ("xfce4", 0)});
  }

  /** The category only this desktop switches on, and none switches off. */
  function OwnCategory(desk: Desktop): string {
    match desk
    case KDE => "kde-extra"
    case GNOME => "gnome-extra"
    case XFCE => "xfce4-extra"
    case LXDE => "lxde-desktop"
  }

  function DesktopWrites(desk: Desktop): set<(string, int)> {
    (match desk case KDE => {("kde", 1)} case XFCE => {("xfce4", 1)} case _ => {}) + {(OwnCategory(desk), 1)}
  }

  lemma KdeCats(lang: string)
    ensures WritesCats(DesktopOps(KDE, lang), DesktopWrites(KDE))
  {
    WritesOne(Cat("kde", 1));
    NoCatWrites(KdeLocales(lang));
    WritesOne(Cat("kde-extra", 1));
    NoCatWrites(KDE_FILES);
    WritesAppend([Cat("kde", 1)], KdeLocales(lang), {("kde", 1)}, {});
    assert {("kde", 1)} + {} == {("kde", 1)};
    WritesAppend([Cat("kde", 1)] + KdeLocales(lang), [Cat("kde-extra", 1)], {("kde", 1)}, {("kde-extra", 1)});
    WritesAppend([Cat("kde", 1)] + KdeLocales(lang) + [Cat("kde-extra", 1)], KDE_FILES,
      {("kde", 1)} + {("kde-extra", 1)}, {});
    assert {("kde", 1)} + {("kde-extra", 1)} + {} == DesktopWrites(KDE);
  }

  lemma TwoThenFiles(a: Op, b: Op, files: seq<Op>, ws: set<(string, int)>)
    requires !a.CatAt? && !b.CatAt? && NoCats(files)
    requires ws == (if a.Cat? then {(a.name, a.flag)} else {}) + (if b.Cat? then {(b.name, b.flag)} else {})
    ensures WritesCats([a, b] + files, ws)
  {
    assert WritesCats([a, b], ws) by {
      WritesOne(a);
      WritesOne(b);
      WritesAppend([a], [b], if a.Cat? then {(a.name, a.flag)} else {}, if b.Cat? then {(b.name, b.flag)} else {});
      assert [a] + [b] == [a, b];
    }
    NoCatWrites(files);
    WritesAppend([a, b], files, ws, {});
    assert ws + {} == ws;
  }

  lemma DesktopCats(desk: Desktop, lang: string)
    ensures WritesCats(DesktopOps(desk, lang), DesktopWrites(desk))
  {
    match desk {
      case KDE => KdeCats(lang);
      case GNOME => TwoThenFiles(All("gnome", None, 1), Cat("gnome-extra", 1), GNOME_FILES, DesktopWrites(GNOME));
      case XFCE => TwoThenFiles(Cat("xfce4", 1), Cat("xfce4-extra", 1), XFCE_FILES, DesktopWrites(XFCE));
      case LXDE => TwoThenFiles(Cat("lxde-desktop", 1), All("lxde-desktop", None, 1), LXDE_FILES, DesktopWrites(LXDE));
    }
  }

  /** A category is written by the last of its category writes; with one value written, by that value. */
  lemma {:induction false} LastCatWrite(s: Selection, i: nat, ops: seq<Op>, ws: set<(string, int)>, flag: int)
    requires i < |s.cats| && FirstCat(s.cats, s.cats[i].name, i)
    requires WritesCats(ops, ws) && forall b :: (s.cats[i].name, b) in ws ==> b == flag
    ensures LastWrite(s, ops, OfCat(i)) == if (s.cats[i].name, flag) in ws then Some(flag) else None
    decreases |ops|
  {
    if ops != [] {
      var init, last := ops[..|ops| - 1], ops[|ops| - 1];
      assert ops == init + [last];
      CatWritesAppend(init, [last]);
      assert last in ops;
      WritesOne(last);
      LastCatWrite(s, i, init, CatWrites(init), flag);
    }
  }

  lemma {:induction false} LastWriteAppend(s: Selection, a: seq<Op>, b: seq<Op>, p: Place)
    requires Has(s, p)
    ensures LastWrite(s, a + b, p) == if LastWrite(s, b, p).Some? then LastWrite(s, b, p) else LastWrite(s, a, p)
    decreases |b|
  {
    if b == [] {
      assert a + b == a;
    } else {
      assert (a + b)[..|a + b| - 1] == a + b[..|b| - 1];
      LastWriteAppend(s, a, b[..|b| - 1], p);
    }
  }

  const COMMON_WRITES: set<(string, int)> := {("lib", 0), ("devel", 0)} + {("xapps-extra", 1)}
      + {("kde", 0), ("xfce4", 0)}

  /** The flag of a category after basic mode. */
  function BasicCatFlag(desk: Desktop, name: string, before: int): int {
    if name == OwnCategory(desk) || name == "xapps-extra" then 1
    else if name == "kde" then (if desk == KDE then 1 else 0)
    else if name == "xfce4" then (if desk == XFCE then 1 else 0)
    else if name == "lib" || name == "devel" then 0
    else before
  }

  lemma CommonWritesOf(name: string)
    ensures forall b :: (name, b) in COMMON_WRITES <==>
              if name == "xapps-extra" then b == 1 else name in {"lib", "devel", "kde", "xfce4"} && b == 0
  {
  }

  lemma CommonCatFlag(s: Selection, lang: string, i: nat)
    requires i < |s.cats| && FirstCat(s.cats, s.cats[i].name, i)
    ensures LastWrite(s, CommonOps(lang), OfCat(i)) ==
            if s.cats[i].name == "xapps-extra" then Some(1)
            else if s.cats[i].name in {"lib", "devel", "kde", "xfce4"} then Some(0)
            else None
  {
    CommonCats(lang);
    CommonWritesOf(s.cats[i].name);
    LastCatWrite(s, i, CommonOps(lang), COMMON_WRITES, if s.cats[i].name == "xapps-extra" then 1 else 0);
  }

  lemma DesktopCatFlag(s: Selection, desk: Desktop, lang: string, i: nat)
    requires i < |s.cats| && FirstCat(s.cats, s.cats[i].name, i)
    ensures LastWrite(s, DesktopOps(desk, lang), OfCat(i)) ==
            if s.cats[i].name == OwnCategory(desk) || (desk == KDE && s.cats[i].name == "kde")
              || (desk == XFCE && s.cats[i].name == "xfce4")
            then Some(1) else None
  {
    DesktopCats(desk, lang);
    LastCatWrite(s, i, DesktopOps(desk, lang), DesktopWrites(desk), 1);
  }

  function WrittenByBasic(desk: Desktop, name: string): Option<int> {
    if name == OwnCategory(desk) || (desk == KDE && name == "kde") || (desk == XFCE && name == "xfce4") then Some(1)
    else if name == "xapps-extra" then Some(1)
    else if name in {"lib", "devel", "kde", "xfce4"} then Some(0)
    else None
  }

  lemma BasicWrite(s: Selection, desk: Desktop, lang: string, i: nat)
    requires i < |s.cats| && FirstCat(s.cats, s.cats[i].name, i)
    ensures LastWrite(s, BasicOps(desk, lang), OfCat(i)) == WrittenByBasic(desk, s.cats[i].name)
  {
    LastWriteAppend(s, CommonOps(lang), DesktopOps(desk, lang), OfCat(i));
    CommonCatFlag(s, lang, i);
    DesktopCatFlag(s, desk, lang, i);
  }

  lemma BasicValue(desk: Desktop, name: string, before: int)
    ensures WrittenByBasic(desk, name).GetOr(before) == BasicCatFlag(desk, name, before)
  {
  }

  /** What basic mode does to every category: libraries and development off, the desktop's own categories on, the
      other default desktops off, the extra applications on, and nothing else touched. */
  lemma BasicCategoryFlags(s: Selection, desk: Desktop, lang: string, i: nat)
    requires i < |s.cats| && FirstCat(s.cats, s.cats[i].name, i)
    ensures Has(ApplyAll(s, BasicOps(desk, lang)), OfCat(i))
    ensures FlagAt(ApplyAll(s, BasicOps(desk, lang)), OfCat(i)) == BasicCatFlag(desk, s.cats[i].name, s.cats[i].flag)
  {
    FlagsAfter(s, BasicOps(desk, lang), OfCat(i));
    BasicWrite(s, desk, lang, i);
    BasicValue(desk, s.cats[i].name, s.cats[i].flag);
  }

  /** A catalogue as prerun builds it: one list for each category, under its name; categories are named apart. */
  ghost predicate Built(s: Selection) {
    && |s.cats| == |s.lists|
    && (forall i :: 0 <= i < |s.cats| ==> s.cats[i].name == s.lists[i].name)
    && (forall i, j :: 0 <= i < j < |s.cats| ==> s.cats[i].name != s.cats[j].name)
  }

  /** A catalogue of one category with one package. */
  function Single(cat: string, flag: int, pkg: string): (s: Selection)
    ensures Built(s)
  {
    Selection([CatRow(cat, "", flag)], [ConfigStore.Entry(cat, [PkgRow(pkg, "", "", 0)])])
  }

  lemma OwnNames(desk: Desktop)
    ensures OwnCategory(desk) !in ["lib", "devel", "kde", "xfce4", "xapps-extra"]
    ensures forall other :: OwnCategory(desk) == OwnCategory(other) ==> desk == other
  {
    assert forall d :: |OwnCategory(d)| == (if d == KDE then 9 else if d == LXDE then 12 else 11);
    assert forall d ::
      OwnCategory(d)[0] == (if d == KDE then 'k' else if d == GNOME then 'g' else if d == XFCE then 'x' else 'l');
    assert "xapps-extra"[1] == 'a' && "xfce4-extra"[1] == 'f' && "xapps-extra"[0] == 'x';
  }

  lemma FlagTrace(first: Desktop, second: Desktop, name: string, before: int)
    ensures BasicCatFlag(second, name, BasicCatFlag(first, name, before)) == BasicCatFlag(second, name, before) <==>
            first == second || name != OwnCategory(first) || before == 1
  {
    OwnNames(first);
  }

  lemma FirstCatKept(s: Selection, t: Selection, i: nat)
    requires SameCatalogue(s, t) && i < |s.cats| && FirstCat(s.cats, s.cats[i].name, i)
    ensures i < |t.cats| && t.cats[i].name == s.cats[i].name && FirstCat(t.cats, t.cats[i].name, i)
  {
  }

  lemma BasicTwice(s: Selection, first: Desktop, second: Desktop, lang: string, i: nat)
    requires i < |s.cats| && FirstCat(s.cats, s.cats[i].name, i)
    ensures var both := ApplyAll(ApplyAll(s, BasicOps(first, lang)), BasicOps(second, lang));
            && Has(both, OfCat(i))
            && FlagAt(both, OfCat(i))
              == BasicCatFlag(second, s.cats[i].name, BasicCatFlag(first, s.cats[i].name, s.cats[i].flag))
  {
    var mid := ApplyAll(s, BasicOps(first, lang));
    CatalogueKept(s, BasicOps(first, lang));
    FirstCatKept(s, mid, i);
    BasicCategoryFlags(s, first, lang, i);
    BasicCategoryFlags(mid, second, lang, i);
  }

  /** What a first desktop leaves of itself in a category after a second one: nothing, except that its own category
      stays selected if it was not before. */
  lemma CategoryTrace(s: Selection, first: Desktop, second: Desktop, lang: string, i: nat)
    requires i < |s.cats| && FirstCat(s.cats, s.cats[i].name, i)
    ensures var both := ApplyAll(ApplyAll(s, BasicOps(first, lang)), BasicOps(second, lang));
            var once := ApplyAll(s, BasicOps(second, lang));
            && Has(both, OfCat(i)) && Has(once, OfCat(i))
            && (FlagAt(both, OfCat(i)) == FlagAt(once, OfCat(i)) <==>
                 first == second || s.cats[i].name != OwnCategory(first) || s.cats[i].flag == 1)
  {
    BasicCategoryFlags(s, second, lang, i);
    BasicTwice(s, first, second, lang, i);
    FlagTrace(first, second, s.cats[i].name, s.cats[i].flag);
  }

  /** In a catalogue that has the first desktop's own category, not selected at first, switching to another desktop
      does not give what choosing that desktop at once gives. */
  lemma SwitchingLeavesItsCategory(s: Selection, first: Desktop, second: Desktop, lang: string, i: nat)
    requires first != second
    requires i < |s.cats| && s.cats[i].name == OwnCategory(first) && FirstCat(s.cats, s.cats[i].name, i)
            && s.cats[i].flag != 1
    ensures ApplyAll(ApplyAll(s, BasicOps(first, lang)), BasicOps(second, lang)) != ApplyAll(s, BasicOps(second, lang))
  {
    CategoryTrace(s, first, second, lang, i);
  }

  /** Trying one desktop and then another leaves no trace of the first, in every catalogue the program can build,
      exactly when it is the same desktop: each leaves a category of its own selected that no other deselects. */
  lemma SwitchingDesktopsLeavesTraces(first: Desktop, second: Desktop, lang: string)
    ensures (forall s :: Built(s) ==>
              ApplyAll(ApplyAll(s, BasicOps(first, lang)), BasicOps(second, lang))
                == ApplyAll(s, BasicOps(second, lang)))
            <==> first == second
  {
    if first == second {
      forall s ensures ApplyAll(ApplyAll(s, BasicOps(first, lang)), BasicOps(second, lang))
        == ApplyAll(s, BasicOps(second, lang)) {
        TwiceIsOnce(s, BasicOps(first, lang));
      }
    } else {
      var s := Single(OwnCategory(first), 0, "");
      SwitchingLeavesItsCategory(s, first, second, lang, 0);
      assert Built(s);
    }
  }

  // ---- intermediate mode ----

  datatype Choice = KDE_X | GNOME_X | XFCE_X | LXDE_X | E17_X | NO_X

  const CHOICES_OFF: seq<Op> := [Cat("lib", 0), Cat("xlib", 0), Cat("kde", 0), Cat("gnome", 0), Cat("xfce4", 0)]

  function ChoiceOps(c: Choice, lang: string): seq<Op> {
    match c
    case KDE_X => [Cat("kde", 1)] + KdeLocales(lang)
    case GNOME_X => [Cat("gnome", 1)]
    case XFCE_X => [Cat("xfce4", 1)]
    case LXDE_X => [Cat("lxde-desktop", 1), All("lxde-desktop", None, 1)]
    case E17_X => [Cat("e17-extra", 1), All("e17-extra", None, 1), Cat("x11-extra", 1), File("x11-extra", "lxdm", 1)]
    case NO_X => [Cat("x11", 0)]
  }

  /** configure_desktop_intermediate */
  function IntermediateOps(c: Choice, lang: string): seq<Op> { CHOICES_OFF + ChoiceOps(c, lang) }

  /** A place whose hits all write one value holds that value, if there is a hit at all. */
  lemma {:induction false} WrittenAs(s: Selection, ops: seq<Op>, p: Place, flag: int)
    requires Has(s, p)
    requires forall op :: op in ops && Hits(s, op, p) ==> op.flag == flag
    ensures LastWrite(s, ops, p) == if exists op :: op in ops && Hits(s, op, p) then Some(flag) else None
    decreases |ops|
  {
    if ops != [] {
      var init, last := ops[..|ops| - 1], ops[|ops| - 1];
      assert ops == init + [last];
      assert forall op :: op in init ==> op in ops;
      WrittenAs(s, init, p, flag);
      assert last in ops;
      if !Hits(s, last, p) {
        assert forall op :: op in ops ==> op in init || op == last;
      }
    }
  }

  lemma {:induction false} SomeHit(s: Selection, ops: seq<Op>, p: Place) returns (op: Op)
    requires Has(s, p) && LastWrite(s, ops, p).Some?
    ensures op in ops && Hits(s, op, p)
    decreases |ops|
  {
    op := ops[|ops| - 1];
    if !Hits(s, op, p) { op := SomeHit(s, ops[..|ops| - 1], p); }
  }

  const CHOICE_CATEGORIES: seq<string> := ["lib", "xlib", "kde", "gnome", "xfce4"]

  lemma ChoicesOffContains(name: string, c: Choice, lang: string)
    requires name in CHOICE_CATEGORIES
    ensures Cat(name, 0) in IntermediateOps(c, lang)
  {
    var i :| 0 <= i < 5 && CHOICE_CATEGORIES[i] == name;
    assert CHOICES_OFF[i] == Cat(name, 0);
    assert forall op :: op in CHOICES_OFF ==> op in IntermediateOps(c, lang);
  }

  /** GNOME and XFCE write only categories that every choice clears first. */
  lemma ClearedByEveryChoice(s: Selection, first: Choice, second: Choice, lang: string, p: Place)
    requires first.GNOME_X? || first.XFCE_X?
    requires Has(s, p) && LastWrite(s, IntermediateOps(first, lang), p).Some?
    ensures LastWrite(s, IntermediateOps(second, lang), p).Some?
  {
    var op := SomeHit(s, IntermediateOps(first, lang), p);
    assert op.Cat? && op.name in CHOICE_CATEGORIES by {
      if op in CHOICES_OFF {
        var i :| 0 <= i < 5 && CHOICES_OFF[i] == op;
        assert CHOICE_CATEGORIES[i] == op.name;
      } else {
        assert op in ChoiceOps(first, lang);
        assert CHOICE_CATEGORIES[3] == "gnome" && CHOICE_CATEGORIES[4] == "xfce4";
      }
    }
    ChoicesOffContains(op.name, second, lang);
    WrittenWhenHit(s, IntermediateOps(second, lang), p, Cat(op.name, 0));
  }

  /** A place the first sequence changes and the second does not write shows the difference. */
  lemma TraceLeft(s: Selection, first: seq<Op>, second: seq<Op>, p: Place)
    requires Has(s, p) && LastWrite(s, second, p) == None
    requires LastWrite(s, first, p).Some? && LastWrite(s, first, p).value != FlagAt(s, p)
    ensures ApplyAll(ApplyAll(s, first), second) != ApplyAll(s, second)
  {
    var mid := ApplyAll(s, first);
    CatalogueKept(s, first);
    FlagsAfter(s, first, p);
    FlagsAfter(s, second, p);
    LastWriteSame(s, mid, second, p);
    FlagsAfter(mid, second, p);
  }

  /** A catalogue and a place in it that only this choice writes, and not with the flag it has. */
  function OnlyPlace(c: Choice): (Selection, Place) {
    match c
    case LXDE_X => (Single("lxde-desktop", 0, ""), OfCat(0))
    case E17_X => (Single("e17-extra", 0, ""), OfCat(0))
    case NO_X => (Single("x11", 1, ""), OfCat(0))
    case _ => (Single("locale-extra", 1, "k3b-i18n"), OfPkg(0, 0))
  }

  function OwnFlag(c: Choice): int { if c.NO_X? then 0 else 1 }

  lemma NamesApart()
    ensures "x11" !in CHOICE_CATEGORIES && "lxde-desktop" !in CHOICE_CATEGORIES && "e17-extra" !in CHOICE_CATEGORIES
    ensures "x11-extra" != "e17-extra" && "lxde-desktop" != "locale-extra"
  {
    assert "x11"[0] == 'x' && "lib"[0] == 'l' && "kde"[0] == 'k';
    assert "x11-extra"[0] == 'x' && "e17-extra"[0] == 'e';
    assert "lxde-desktop"[1] == 'x' && "locale-extra"[1] == 'o';
  }

  lemma OffMissesOnlyPlace(c: Choice)
    requires !c.GNOME_X? && !c.XFCE_X?
    ensures forall op :: op in CHOICES_OFF ==> !Hits(OnlyPlace(c).0, op, OnlyPlace(c).1)
  {
    NamesApart();
    forall op | op in CHOICES_OFF ensures !Hits(OnlyPlace(c).0, op, OnlyPlace(c).1) {
      var i :| 0 <= i < 5 && CHOICES_OFF[i] == op;
      assert CHOICE_CATEGORIES[i] == op.name;
    }
  }

  lemma OthersMissOnlyPlace(c: Choice, other: Choice, lang: string)
    requires !c.GNOME_X? && !c.XFCE_X? && other != c
    ensures forall op :: op in ChoiceOps(other, lang) ==> !Hits(OnlyPlace(c).0, op, OnlyPlace(c).1)
  {
    NamesApart();
    assert CHOICE_CATEGORIES[2] == "kde" && CHOICE_CATEGORIES[3] == "gnome" && CHOICE_CATEGORIES[4] == "xfce4";
  }

  lemma OneFlag(c: Choice, lang: string)
    ensures forall op :: op in ChoiceOps(c, lang) ==> op.flag == OwnFlag(c)
  {
  }

  lemma OwnOp(c: Choice, lang: string) returns (own: Op)
    requires !c.GNOME_X? && !c.XFCE_X?
    ensures own in ChoiceOps(c, lang) && Hits(OnlyPlace(c).0, own, OnlyPlace(c).1)
  {
    if c.KDE_X? {
      own := File("locale-extra", "k3b-i18n", 1);
      assert own == KdeLocales(lang)[2];
    } else {
      own := ChoiceOps(c, lang)[0];
    }
  }

  lemma OwnHitsOnlyPlace(c: Choice, lang: string)
    requires !c.GNOME_X? && !c.XFCE_X?
    ensures exists op :: op in ChoiceOps(c, lang) && Hits(OnlyPlace(c).0, op, OnlyPlace(c).1)
    ensures forall op :: op in ChoiceOps(c, lang) && Hits(OnlyPlace(c).0, op, OnlyPlace(c).1) ==> op.flag == OwnFlag(c)
    ensures OwnFlag(c) != FlagAt(OnlyPlace(c).0, OnlyPlace(c).1)
  {
    OneFlag(c, lang);
    var own := OwnOp(c, lang);
  }

  /** With nothing hit by a common start, only the rest of the first sequence counts. */
  lemma TraceOfRest(s: Selection, off: seq<Op>, first: seq<Op>, second: seq<Op>, p: Place, flag: int)
    requires Has(s, p) && flag != FlagAt(s, p)
    requires forall op :: op in off || op in second ==> !Hits(s, op, p)
    requires forall op :: op in first && Hits(s, op, p) ==> op.flag == flag
    requires exists op :: op in first && Hits(s, op, p)
    ensures ApplyAll(ApplyAll(s, off + first), off + second) != ApplyAll(s, off + second)
  {
    WrittenAs(s, off + second, p, 0);
    WrittenAs(s, off + first, p, flag);
    var op :| op in first && Hits(s, op, p);
    assert op in off + first;
    TraceLeft(s, off + first, off + second, p);
  }

  lemma ChoiceLeavesTrace(first: Choice, second: Choice, lang: string)
    requires !first.GNOME_X? && !first.XFCE_X? && first != second
    ensures exists s :: Built(s) &&
              ApplyAll(ApplyAll(s, IntermediateOps(first, lang)), IntermediateOps(second, lang))
                != ApplyAll(s, IntermediateOps(second, lang))
  {
    OffMissesOnlyPlace(first);
    OthersMissOnlyPlace(first, second, lang);
    OwnHitsOnlyPlace(first, lang);
    var s := OnlyPlace(first).0;
    TraceOfRest(s, CHOICES_OFF, ChoiceOps(first, lang), ChoiceOps(second, lang), OnlyPlace(first).1, OwnFlag(first));
    assert Built(s) && ApplyAll(ApplyAll(s, IntermediateOps(first, lang)), IntermediateOps(second, lang))
      != ApplyAll(s, IntermediateOps(second, lang));
  }

  /** Intermediate mode switches whole categories, so it forgets some choices: in every catalogue that the program
      can build a first choice
      leaves no trace after a second exactly when they are the same or the first is GNOME or XFCE. KDE leaves its
      language packs, LXDE and E17 categories of their own, and no X server takes the X category away for good. */
  lemma ChoosingAgainLeavesTraces(first: Choice, second: Choice, lang: string)
    ensures (forall s :: Built(s) ==>
              ApplyAll(ApplyAll(s, IntermediateOps(first, lang)), IntermediateOps(second, lang))
                == ApplyAll(s, IntermediateOps(second, lang)))
            <==> first == second || first.GNOME_X? || first.XFCE_X?
  {
    if first == second {
      forall s ensures ApplyAll(ApplyAll(s, IntermediateOps(first, lang)), IntermediateOps(second, lang))
        == ApplyAll(s, IntermediateOps(second, lang)) {
        TwiceIsOnce(s, IntermediateOps(first, lang));
      }
    } else if first.GNOME_X? || first.XFCE_X? {
      forall s ensures ApplyAll(ApplyAll(s, IntermediateOps(first, lang)), IntermediateOps(second, lang))
        == ApplyAll(s, IntermediateOps(second, lang)) {
        forall p | Has(s, p) && LastWrite(s, IntermediateOps(first, lang), p).Some?
          ensures LastWrite(s, IntermediateOps(second, lang), p).Some?
        {
          ClearedByEveryChoice(s, first, second, lang, p);
        }
        SecondDecides(s, IntermediateOps(first, lang), IntermediateOps(second, lang));
      }
    } else {
      ChoiceLeavesTrace(first, second, lang);
    }
  }

  // ---- what basic mode selects, package by package ----

  /** The applications every desktop gets. */
  predicate ByDefault(cat: string, name: string) {
    || (cat == "xapps" && name in
         {"dvdauthor", "emacs", "gfpm", "gnetconfig", "gnokii", "gvfs", "icedtea-web", "libreoffice", "vte",
          "system-config-printer", "startup-notification", "plymouth", "xpdf", "udisks"})
    || (cat == "apps" && name in
         {"bash-completion", "bc", "bluez", "cdrtools", "sudo", "irqbalance", "logrotate", "man-pages", "nano",
          "pm-utils", "pmount", "recode", "unarj", "unzip", "vim", "upower", "memtest86+"})
    || (cat == "xlib" && name == "flashplugin")
  }

  /** The packages a desktop adds, by list. */
  predicate ByDesktop(desk: Desktop, lang: string, cat: string, name: string) {
    match desk
    case KDE =>
      || (cat == "apps" && name == "attica")
      || (cat == "xapps" && name == "akonadi")
      || (cat == "xapps-extra" && name == "qtparted")
      || (cat == "kde-extra" && name in {"rekonq", "krita", "kmymoney2"})
      || (cat == "locale-extra" && name in {"koffice-l10n-" + lang, "kde-l10n-" + lang, "k3b-i18n"})
    case GNOME =>
      || (cat == "xapps" && name in {"gimp", "gftp", "xchat"})
      || (cat == "xapps-extra" && name in {"transmission", "gparted"})
      || (cat == "gnome-extra" && name in {"epiphany", "empathy", "gnucash"})
    case XFCE =>
      || (cat == "xapps" && name in {"gimp", "gftp", "pidgin", "xchat"})
      || (cat == "gnome" && name == "gksu-frugalware")
      || (cat == "xapps-extra" && name in {"midori", "xarchiver", "claws-mail", "epdfview", "gparted", "grisbi"})
      || (cat == "xfce4-extra" && name in
           {"squeeze", "eatmonkey", "parole", "xfburn", "xfce4-notifyd", "xfce4-power-manager", "xfce4-volumed",
            "thunar-thumbnailers"})
    case LXDE =>
      || (cat == "xapps" && name in {"gimp", "gftp", "pidgin", "xchat"})
      || (cat == "gnome" && name == "gksu-frugalware")
      || (cat == "xapps-extra" && name in
           {"midori", "leafpad", "claws-mail", "xarchiver", "epdfview", "gparted", "grisbi", "recorder"})
  }

  /** The whole lists a desktop selects. */
  predicate WholeList(desk: Desktop, cat: string) {
    (desk == GNOME && cat == "gnome") || (desk == LXDE && cat == "lxde-desktop")
  }

  lemma FilesMember(cat: string, names: seq<string>, flag: int, op: Op)
    ensures op in Files(cat, names, flag) <==> op.File? && op.cat == cat && op.name in names && op.flag == flag
  {
    if op.File? && op.cat == cat && op.name in names && op.flag == flag {
      var i :| 0 <= i < |names| && names[i] == op.name;
      assert Files(cat, names, flag)[i] == op;
    }
  }

  lemma DefaultMember(lang: string, cat: string, name: string)
    ensures File(cat, name, 1) in CommonFiles(lang) <==> ByDefault(cat, name)
  {
    var op := File(cat, name, 1);
    FilesMember("xapps", XAPPS, 1, op);
    FilesMember("apps", APPS, 1, op);
    FilesMember("network", NETWORK, 0, op);
  }

  lemma KdeMember(lang: string, cat: string, name: string)
    ensures File(cat, name, 1) in DesktopOps(KDE, lang) <==> ByDesktop(KDE, lang, cat, name)
  {
    var op := File(cat, name, 1);
    FilesMember("kde-extra", ["rekonq", "krita", "kmymoney2"], 1, op);
    LocalesMember(lang, op);
  }

  lemma LocalesMember(lang: string, op: Op)
    ensures op in KdeLocales(lang) <==>
            op.File? && op.cat == "locale-extra" && op.flag == 1
            && op.name in {"koffice-l10n-" + lang, "kde-l10n-" + lang, "k3b-i18n"}
  {
    var ops := KdeLocales(lang);
    assert |ops| == 3 && ops[0] == File("locale-extra", "koffice-l10n-" + lang, 1)
      && ops[1] == File("locale-extra", "kde-l10n-" + lang, 1) && ops[2] == File("locale-extra", "k3b-i18n", 1);
  }

  lemma GnomeMember(lang: string, cat: string, name: string)
    ensures File(cat, name, 1) in DesktopOps(GNOME, lang) <==> ByDesktop(GNOME, lang, cat, name)
  {
    var op := File(cat, name, 1);
    FilesMember("gnome-extra", ["epiphany", "empathy", "gnucash"], 1, op);
    FilesMember("xapps", ["gimp", "gftp", "xchat"], 1, op);
  }

  lemma XfceMember(lang: string, cat: string, name: string)
    ensures File(cat, name, 1) in DesktopOps(XFCE, lang) <==> ByDesktop(XFCE, lang, cat, name)
  {
    var op := File(cat, name, 1);
    FilesMember("xfce4-extra", ["squeeze", "eatmonkey", "parole", "xfburn", "xfce4-notifyd", "xfce4-power-manager",
                                "xfce4-volumed", "thunar-thumbnailers"], 1, op);
    FilesMember("xapps-extra", ["midori", "xarchiver", "claws-mail"], 1, op);
    FilesMember("xapps", ["gimp", "gftp", "pidgin"], 1, op);
    FilesMember("xapps-extra", ["epdfview", "gparted", "grisbi"], 1, op);
  }

  lemma LxdeMember(lang: string, cat: string, name: string)
    ensures File(cat, name, 1) in DesktopOps(LXDE, lang) <==> ByDesktop(LXDE, lang, cat, name)
  {
    var op := File(cat, name, 1);
    FilesMember("xapps-extra", ["midori", "leafpad", "claws-mail", "xarchiver"], 1, op);
    FilesMember("xapps", ["gimp", "gftp", "pidgin"], 1, op);
    FilesMember("xapps-extra", ["epdfview", "gparted", "grisbi", "recorder"], 1, op);
  }

  lemma DesktopMember(desk: Desktop, lang: string, cat: string, name: string)
    ensures File(cat, name, 1) in DesktopOps(desk, lang) <==> ByDesktop(desk, lang, cat, name)
  {
    match desk {
      case KDE => KdeMember(lang, cat, name);
      case GNOME => GnomeMember(lang, cat, name);
      case XFCE => XfceMember(lang, cat, name);
      case LXDE => LxdeMember(lang, cat, name);
    }
  }

  /** What the writes for a desktop can be. */
  predicate KindFor(desk: Desktop, op: Op) {
    && (op.Cat? || op.File? || op.All?)
    && (op.flag == 1 || (op.flag == 0 && op.File? && op.cat == "xmultimedia"))
    && (op.All? ==> op.exception == None && op.flag == 1 && WholeList(desk, op.cat))
  }

  lemma KdeKinds(lang: string)
    ensures forall op :: op in DesktopOps(KDE, lang) ==> KindFor(KDE, op)
  {
    assert forall op :: op in KdeLocales(lang) ==> op.File? && op.flag == 1;
    assert forall op :: op in KDE_FILES ==> op.File? && op.flag == 1;
  }

  lemma GnomeKinds(lang: string)
    ensures forall op :: op in DesktopOps(GNOME, lang) ==> KindFor(GNOME, op)
  {
    assert forall op :: op in GNOME_FILES ==> op.File? && (op.flag == 1 || (op.flag == 0 && op.cat == "xmultimedia"));
  }

  lemma XfceKinds(lang: string)
    ensures forall op :: op in DesktopOps(XFCE, lang) ==> KindFor(XFCE, op)
  {
    assert forall op :: op in XFCE_FILES ==> op.File? && (op.flag == 1 || (op.flag == 0 && op.cat == "xmultimedia"));
  }

  lemma LxdeKinds(lang: string)
    ensures forall op :: op in DesktopOps(LXDE, lang) ==> KindFor(LXDE, op)
  {
    assert forall op :: op in LXDE_FILES ==> op.File? && (op.flag == 1 || (op.flag == 0 && op.cat == "xmultimedia"));
  }

  lemma DesktopKinds(desk: Desktop, lang: string)
    ensures forall op :: op in DesktopOps(desk, lang) ==> KindFor(desk, op)
  {
    match desk {
      case KDE => KdeKinds(lang);
      case GNOME => GnomeKinds(lang);
      case XFCE => XfceKinds(lang);
      case LXDE => LxdeKinds(lang);
    }
  }

  lemma WholeListMember(desk: Desktop, lang: string, cat: string)
    requires WholeList(desk, cat)
    ensures All(cat, None, 1) in DesktopOps(desk, lang)
  {
    assert DesktopOps(GNOME, lang)[0] == All("gnome", None, 1)
      && DesktopOps(LXDE, lang)[1] == All("lxde-desktop", None, 1);
  }

  lemma CommonKinds(lang: string, op: Op)
    requires op in CommonFiles(lang)
    ensures op.File? && (op.flag == 1 || op.cat in {"network", "locale-extra"})
  {
  }

  /** The place of the first package of this name on the list of this category. */
  predicate ListedAs(s: Selection, p: Place, cat: string, name: string) {
    p.OfPkg? && Has(s, p) && Find(s.lists, cat) == p.k && FirstPkg(s.lists[p.k].data, name, p.j)
  }

  lemma HitsAre(s: Selection, p: Place, cat: string, name: string, op: Op)
    requires ListedAs(s, p, cat, name) && (op.Cat? || op.File? || op.All?)
    ensures Hits(s, op, p) <==>
            (op.File? && op.cat == cat && op.name == name) || (op.All? && op.cat == cat && op.exception != Some(name))
  {
  }

  lemma DesktopWrite(s: Selection, p: Place, desk: Desktop, lang: string, cat: string, name: string)
    requires ListedAs(s, p, cat, name) && cat != "xmultimedia"
    ensures LastWrite(s, DesktopOps(desk, lang), p) ==
            if ByDesktop(desk, lang, cat, name) || WholeList(desk, cat) then Some(1) else None
  {
    var ops := DesktopOps(desk, lang);
    DesktopKinds(desk, lang);
    forall op | op in ops
      ensures Hits(s, op, p) ==> op.flag == 1 && (op == File(cat, name, 1) || WholeList(desk, cat))
    {
      HitsAre(s, p, cat, name, op);
    }
    DesktopMember(desk, lang, cat, name);
    HitsAre(s, p, cat, name, File(cat, name, 1));
    if WholeList(desk, cat) {
      WholeListMember(desk, lang, cat);
      HitsAre(s, p, cat, name, All(cat, None, 1));
    }
    WrittenAs(s, ops, p, 1);
  }

  lemma DefaultWrite(s: Selection, p: Place, lang: string, cat: string, name: string)
    requires ListedAs(s, p, cat, name) && cat in {"xapps", "apps", "xlib", "gnome"}
    ensures LastWrite(s, CommonFiles(lang), p) == if ByDefault(cat, name) then Some(1) else None
  {
    var ops := CommonFiles(lang);
    OtherLists();
    forall op | op in ops ensures Hits(s, op, p) ==> op == File(cat, name, 1) {
      CommonKinds(lang, op);
      HitsAre(s, p, cat, name, op);
    }
    DefaultMember(lang, cat, name);
    HitsAre(s, p, cat, name, File(cat, name, 1));
    WrittenAs(s, ops, p, 1);
  }

  lemma ClearedWrite(s: Selection, p: Place, cat: string, name: string)
    requires ListedAs(s, p, cat, name) && cat in {"xapps", "apps", "xlib", "gnome"}
    ensures LastWrite(s, CLEARED, p) == if cat != "gnome" then Some(0) else None
    ensures LastWrite(s, TWEAKS, p) == None
    ensures LastWrite(s, DESKTOPS_OFF, p) == if cat == "gnome" then Some(0) else None
  {
    forall op | op in CLEARED || op in TWEAKS || op in DESKTOPS_OFF
      ensures Hits(s, op, p) <==> op == All(cat, None, 0)
    {
      HitsAre(s, p, cat, name, op);
    }
    assert CLEARED[2] == All("xapps", None, 0) && CLEARED[3] == All("apps", None, 0)
      && CLEARED[4] == All("xlib", None, 0);
    assert DESKTOPS_OFF[1] == All("gnome", None, 0);
    WrittenAs(s, CLEARED, p, 0);
    WrittenAs(s, TWEAKS, p, 0);
    WrittenAs(s, DESKTOPS_OFF, p, 0);
  }

  lemma CommonWrite(s: Selection, p: Place, lang: string, cat: string, name: string)
    requires ListedAs(s, p, cat, name) && cat in {"xapps", "apps", "xlib", "gnome"}
    ensures LastWrite(s, CommonOps(lang), p) == Some(if ByDefault(cat, name) then 1 else 0)
  {
    ClearedWrite(s, p, cat, name);
    DefaultWrite(s, p, lang, cat, name);
    LastWriteAppend(s, CLEARED, CommonFiles(lang), p);
    LastWriteAppend(s, CLEARED + CommonFiles(lang), TWEAKS, p);
    LastWriteAppend(s, CLEARED + CommonFiles(lang) + TWEAKS, DESKTOPS_OFF, p);
  }

  /** On the four lists that basic mode clears, a package is selected afterwards exactly when every desktop gets it,
      or the desktop chosen adds it, or takes its whole list. */
  lemma BasicPackageFlags(s: Selection, p: Place, desk: Desktop, lang: string, cat: string, name: string)
    requires ListedAs(s, p, cat, name) && cat in {"xapps", "apps", "xlib", "gnome"}
    ensures Has(ApplyAll(s, BasicOps(desk, lang)), p)
    ensures FlagAt(ApplyAll(s, BasicOps(desk, lang)), p) ==
            if ByDefault(cat, name) || ByDesktop(desk, lang, cat, name) || WholeList(desk, cat) then 1 else 0
  {
    FlagsAfter(s, BasicOps(desk, lang), p);
    LastWriteAppend(s, CommonOps(lang), DesktopOps(desk, lang), p);
    CommonWrite(s, p, lang, cat, name);
    DesktopWrite(s, p, desk, lang, cat, name);
  }

  /** On any list, the packages of the desktop chosen are selected. */
  lemma DesktopPackagesSelected(s: Selection, p: Place, desk: Desktop, lang: string, cat: string, name: string)
    requires ListedAs(s, p, cat, name) && cat != "xmultimedia"
    requires ByDesktop(desk, lang, cat, name) || WholeList(desk, cat)
    ensures Has(ApplyAll(s, BasicOps(desk, lang)), p) && FlagAt(ApplyAll(s, BasicOps(desk, lang)), p) == 1
  {
    FlagsAfter(s, BasicOps(desk, lang), p);
    LastWriteAppend(s, CommonOps(lang), DesktopOps(desk, lang), p);
    DesktopWrite(s, p, desk, lang, cat, name);
  }

  /** The flag of a category after intermediate mode. */
  function IntermediateCatFlag(c: Choice, name: string, before: int): int {
    if name == "lib" || name == "xlib" then 0
    else if name == "kde" then (if c.KDE_X? then 1 else 0)
    else if name == "gnome" then (if c.GNOME_X? then 1 else 0)
    else if name == "xfce4" then (if c.XFCE_X? then 1 else 0)
    else if name == "lxde-desktop" then (if c.LXDE_X? then 1 else before)
    else if name == "e17-extra" || name == "x11-extra" then (if c.E17_X? then 1 else before)
    else if name == "x11" then (if c.NO_X? then 0 else before)
    else before
  }

  /** The category a choice of intermediate mode writes. */
  predicate OwnChoice(c: Choice, name: string) {
    match c
    case KDE_X => name == "kde"
    case GNOME_X => name == "gnome"
    case XFCE_X => name == "xfce4"
    case LXDE_X => name == "lxde-desktop"
    case E17_X => name in {"e17-extra", "x11-extra"}
    case NO_X => name == "x11"
  }

  lemma ChoiceCatOps(c: Choice, lang: string, name: string)
    ensures Cat(name, OwnFlag(c)) in ChoiceOps(c, lang) <==> OwnChoice(c, name)
    ensures forall op :: op in ChoiceOps(c, lang) ==> !op.CatAt? && op.flag == OwnFlag(c)
  {
    OneFlag(c, lang);
    assert c.E17_X? ==> ChoiceOps(c, lang)[0] == Cat("e17-extra", 1) && ChoiceOps(c, lang)[2] == Cat("x11-extra", 1);
    assert !c.E17_X? ==> ChoiceOps(c, lang)[0].Cat? && OwnChoice(c, ChoiceOps(c, lang)[0].name);
    assert forall op :: op in KdeLocales(lang) ==> op.File?;
  }

  lemma ChoicesOffCat(name: string)
    ensures Cat(name, 0) in CHOICES_OFF <==> name in {"lib", "xlib", "kde", "gnome", "xfce4"}
    ensures forall op :: op in CHOICES_OFF ==> op.Cat? && op.flag == 0
  {
    assert CHOICES_OFF[0] == Cat("lib", 0) && CHOICES_OFF[1] == Cat("xlib", 0) && CHOICES_OFF[2] == Cat("kde", 0);
    assert CHOICES_OFF[3] == Cat("gnome", 0) && CHOICES_OFF[4] == Cat("xfce4", 0);
  }

  lemma CatHit(s: Selection, i: nat, op: Op)
    requires i < |s.cats| && FirstCat(s.cats, s.cats[i].name, i) && !op.CatAt?
    ensures Hits(s, op, OfCat(i)) <==> op.Cat? && op.name == s.cats[i].name
  {
  }

  lemma OneCatWrite(s: Selection, i: nat, ops: seq<Op>, flag: int)
    requires i < |s.cats| && FirstCat(s.cats, s.cats[i].name, i)
    requires forall op :: op in ops ==> !op.CatAt? && op.flag == flag
    ensures LastWrite(s, ops, OfCat(i)) == if Cat(s.cats[i].name, flag) in ops then Some(flag) else None
  {
    forall op | op in ops ensures Hits(s, op, OfCat(i)) <==> op == Cat(s.cats[i].name, flag) { CatHit(s, i, op); }
    WrittenAs(s, ops, OfCat(i), flag);
  }

  /** What intermediate mode does to every category: libraries off, the choice's own categories on or, with no X
      server, the X category off, the default desktops not chosen off, and nothing else touched. */
  lemma IntermediateCategoryFlags(s: Selection, c: Choice, lang: string, i: nat)
    requires i < |s.cats| && FirstCat(s.cats, s.cats[i].name, i)
    ensures Has(ApplyAll(s, IntermediateOps(c, lang)), OfCat(i))
    ensures FlagAt(ApplyAll(s, IntermediateOps(c, lang)), OfCat(i))
            == IntermediateCatFlag(c, s.cats[i].name, s.cats[i].flag)
  {
    FlagsAfter(s, IntermediateOps(c, lang), OfCat(i));
    IntermediateWrite(s, c, lang, i);
    IntermediateValue(c, s.cats[i].name, s.cats[i].flag);
  }

  function WrittenByChoice(c: Choice, name: string): Option<int> {
    if OwnChoice(c, name) then Some(OwnFlag(c))
    else if name in {"lib", "xlib", "kde", "gnome", "xfce4"} then Some(0)
    else None
  }

  lemma IntermediateValue(c: Choice, name: string, before: int)
    ensures WrittenByChoice(c, name).GetOr(before) == IntermediateCatFlag(c, name, before)
  {
    assert "lib"[0] == 'l' && "xlib"[0] == 'x' && "kde"[0] == 'k' && "x11"[0] == 'x' && "x11"[1] == '1' && |"x11"| == 3;
  }

  lemma IntermediateWrite(s: Selection, c: Choice, lang: string, i: nat)
    requires i < |s.cats| && FirstCat(s.cats, s.cats[i].name, i)
    ensures LastWrite(s, IntermediateOps(c, lang), OfCat(i)) == WrittenByChoice(c, s.cats[i].name)
  {
    LastWriteAppend(s, CHOICES_OFF, ChoiceOps(c, lang), OfCat(i));
    ChoicesOffCat(s.cats[i].name);
    ChoiceCatOps(c, lang, s.cats[i].name);
    OneCatWrite(s, i, CHOICES_OFF, 0);
    OneCatWrite(s, i, ChoiceOps(c, lang), OwnFlag(c));
  }

  /** The packages basic mode switches off whatever list they are on. */
  predicate SwitchedOff(desk: Desktop, lang: string, cat: string, name: string) {
    || (cat == "network" && name in {"apache", "samba", "procmail", "postfix"})
    || (cat == "locale-extra" && lang != "en" && name in {"firefox-" + lang, "thunderbird-" + lang})
    || (cat == "xmultimedia" && name == "phonon" && desk != KDE)
  }

  lemma OffMember(desk: Desktop, lang: string, cat: string, name: string)
    requires SwitchedOff(desk, lang, cat, name)
    ensures File(cat, name, 0) in BasicOps(desk, lang)
  {
    var op := File(cat, name, 0);
    if cat == "network" {
      FilesMember("network", NETWORK, 0, op);
      assert op in CommonFiles(lang) && op in CommonOps(lang);
    } else if cat == "locale-extra" {
      var ops := LocaleOps(lang, ["firefox-", "thunderbird-"], 0);
      assert ops[0] == File("locale-extra", "firefox-" + lang, 0)
        && ops[1] == File("locale-extra", "thunderbird-" + lang, 0);
      assert op in CommonFiles(lang) && op in CommonOps(lang);
    } else {
      match desk {
        case GNOME => assert op in GNOME_FILES;
        case XFCE => assert op in XFCE_FILES;
        case LXDE => assert op in LXDE_FILES;
      }
      assert op in DesktopOps(desk, lang);
    }
  }

  lemma OffNotOn(desk: Desktop, lang: string, cat: string, name: string)
    requires SwitchedOff(desk, lang, cat, name)
    ensures !ByDefault(cat, name) && !ByDesktop(desk, lang, cat, name) && !WholeList(desk, cat) && cat != "xapps-extra"
    ensures cat !in {"xapps", "apps", "xlib", "gnome"}
  {
    assert "network"[0] == 'n' && "locale-extra"[1] == 'o' && "xmultimedia"[1] == 'm' && |"xmultimedia"| == 11;
    if cat == "locale-extra" && desk == KDE {
      assert ("firefox-" + lang)[0] == 'f' && ("thunderbird-" + lang)[0] == 't';
      assert ("koffice-l10n-" + lang)[0] == 'k' && ("kde-l10n-" + lang)[0] == 'k' && "k3b-i18n"[0] == 'k';
    }
  }

  lemma CommonFlags(lang: string, cat: string, name: string, op: Op)
    requires op in CommonOps(lang) && cat !in {"xapps", "apps", "xlib", "gnome", "xapps-extra"} && !ByDefault(cat, name)
    requires (op.File? && op.cat == cat && op.name == name) || (op.All? && op.cat == cat && op.exception != Some(name))
    ensures op.flag == 0
  {
    if op in CommonFiles(lang) {
      CommonKinds(lang, op);
      DefaultMember(lang, cat, name);
    } else if op in TWEAKS {
      assert false;
    }
  }

  /** ... and they are off afterwards. */
  lemma BasicSwitchesOff(s: Selection, p: Place, desk: Desktop, lang: string, cat: string, name: string)
    requires ListedAs(s, p, cat, name) && SwitchedOff(desk, lang, cat, name)
    ensures Has(ApplyAll(s, BasicOps(desk, lang)), p) && FlagAt(ApplyAll(s, BasicOps(desk, lang)), p) == 0
  {
    var ops := BasicOps(desk, lang);
    OffNotOn(desk, lang, cat, name);
    OffMember(desk, lang, cat, name);
    DesktopKinds(desk, lang);
    DesktopMember(desk, lang, cat, name);
    forall op | op in ops && Hits(s, op, p) ensures op.flag == 0 {
      if op in CommonOps(lang) {
        NoPositions(lang, op);
        HitsAre(s, p, cat, name, op);
        CommonFlags(lang, cat, name, op);
      } else {
        HitsAre(s, p, cat, name, op);
      }
    }
    HitsAre(s, p, cat, name, File(cat, name, 0));
    WrittenAs(s, ops, p, 0);
    FlagsAfter(s, ops, p);
  }

  lemma NoPositions(lang: string, op: Op)
    requires op in CommonOps(lang)
    ensures op.Cat? || op.File? || op.All?
  {
    assert forall o :: o in CLEARED ==> o.Cat? || o.All?;
    assert forall o :: o in TWEAKS ==> o.Cat? || o.File?;
    assert forall o :: o in DESKTOPS_OFF ==> o.Cat? || o.All?;
    if op in CommonFiles(lang) { CommonKinds(lang, op); }
  }

  /** Every desktop gets the tweaks. */
  lemma TweaksSelected(s: Selection, p: Place, desk: Desktop, lang: string)
    requires ListedAs(s, p, "xapps-extra", "frugalware-tweak")
    ensures Has(ApplyAll(s, BasicOps(desk, lang)), p) && FlagAt(ApplyAll(s, BasicOps(desk, lang)), p) == 1
  {
    FlagsAfter(s, BasicOps(desk, lang), p);
    LastWriteAppend(s, CommonOps(lang), DesktopOps(desk, lang), p);
    DesktopWrite(s, p, desk, lang, "xapps-extra", "frugalware-tweak");
    LastWriteAppend(s, CLEARED + CommonFiles(lang) + TWEAKS, DESKTOPS_OFF, p);
    LastWriteAppend(s, CLEARED + CommonFiles(lang), TWEAKS, p);
    forall op | op in TWEAKS || op in DESKTOPS_OFF
      ensures Hits(s, op, p) <==> op == File("xapps-extra", "frugalware-tweak", 1)
    {
      HitsAre(s, p, "xapps-extra", "frugalware-tweak", op);
    }
    assert TWEAKS[1] == File("xapps-extra", "frugalware-tweak", 1);
    WrittenAs(s, DESKTOPS_OFF, p, 1);
    WrittenAs(s, TWEAKS, p, 1);
  }

  /** The packages a choice of intermediate mode selects. */
  predicate ByChoice(c: Choice, lang: string, cat: string, name: string) {
    match c
    case KDE_X => cat == "locale-extra" && name in {"koffice-l10n-" + lang, "kde-l10n-" + lang, "k3b-i18n"}
    case LXDE_X => cat == "lxde-desktop"
    case E17_X => cat == "e17-extra" || (cat == "x11-extra" && name == "lxdm")
    case _ => false
  }

  lemma ChoiceHits(s: Selection, p: Place, c: Choice, lang: string, cat: string, name: string)
    requires ListedAs(s, p, cat, name)
    ensures (exists op :: op in ChoiceOps(c, lang) && Hits(s, op, p)) <==> ByChoice(c, lang, cat, name)
    ensures ByChoice(c, lang, cat, name) ==> OwnFlag(c) == 1
  {
    forall op | op in ChoiceOps(c, lang) ensures Hits(s, op, p) ==> ByChoice(c, lang, cat, name) {
      ChoiceKinds(c, lang, op);
      HitsAre(s, p, cat, name, op);
    }
    if ByChoice(c, lang, cat, name) {
      var op := ChoiceOpFor(c, lang, cat, name);
      HitsAre(s, p, cat, name, op);
    }
  }

  lemma ChoiceKinds(c: Choice, lang: string, op: Op)
    requires op in ChoiceOps(c, lang)
    ensures op.Cat? || op.File? || op.All?
    ensures op.File? ==> ByChoice(c, lang, op.cat, op.name)
    ensures op.All? ==> op.exception == None && forall name :: ByChoice(c, lang, op.cat, name)
  {
    LocalesMember(lang, op);
  }

  lemma ChoiceOpFor(c: Choice, lang: string, cat: string, name: string) returns (op: Op)
    requires ByChoice(c, lang, cat, name)
    ensures op in ChoiceOps(c, lang) && (op == File(cat, name, 1) || op == All(cat, None, 1))
  {
    match c {
      case KDE_X =>
        op := File(cat, name, 1);
        LocalesMember(lang, op);
      case LXDE_X =>
        op := ChoiceOps(c, lang)[1];
      case E17_X =>
        op := if cat == "e17-extra" then ChoiceOps(c, lang)[1] else ChoiceOps(c, lang)[3];
    }
  }

  /** Intermediate mode selects exactly these packages and touches no other. */
  lemma IntermediatePackageFlags(s: Selection, p: Place, c: Choice, lang: string, cat: string, name: string)
    requires ListedAs(s, p, cat, name)
    ensures Has(ApplyAll(s, IntermediateOps(c, lang)), p)
    ensures FlagAt(ApplyAll(s, IntermediateOps(c, lang)), p) == if ByChoice(c, lang, cat, name) then 1 else FlagAt(s, p)
  {
    FlagsAfter(s, IntermediateOps(c, lang), p);
    LastWriteAppend(s, CHOICES_OFF, ChoiceOps(c, lang), p);
    ChoicesOffCat("");
    assert forall op :: op in CHOICES_OFF ==> !Hits(s, op, p);
    WrittenAs(s, CHOICES_OFF, p, 0);
    OneFlag(c, lang);
    ChoiceHits(s, p, c, lang, cat, name);
    WrittenAs(s, ChoiceOps(c, lang), p, OwnFlag(c));
  }

  // ---- language packs ----

  /** run_basic_mode and run_intermediate_mode, when the page is entered: language packs off. */
  function LocaleFix(lang: string): seq<Op> {
    if lang == "en" then []
    else LocaleOps(lang, ["eric-i18n-", "eric4-i18n-", "hunspell-", "koffice-l10n-", "mbrola-", "kde-l10n-"], 0)
  }

  predicate KdePack(s: Selection, lang: string, p: Place)
    requires Has(s, p)
  {
    p.OfPkg? && Find(s.lists, "locale-extra") == p.k && FirstPkg(s.lists[p.k].data, "kde-l10n-" + lang, p.j)
  }

  /** The writes touch no package of this name on the list of language packs. */
  predicate Spares(ops: seq<Op>, name: string) {
    forall op :: op in ops ==>
      op.Cat? || (op.All? && op.cat != "locale-extra") || (op.File? && (op.cat != "locale-extra" || op.name != name))
  }

  lemma SparesAppend(a: seq<Op>, b: seq<Op>, name: string)
    requires Spares(a, name) && Spares(b, name)
    ensures Spares(a + b, name)
  {
  }

  lemma SparedMeansUnwritten(s: Selection, ops: seq<Op>, lang: string, p: Place)
    requires Has(s, p) && KdePack(s, lang, p) && Spares(ops, "kde-l10n-" + lang)
    ensures LastWrite(s, ops, p) == None
  {
    forall op | op in ops ensures !Hits(s, op, p) {
      if (op.All? || op.File?) && Find(s.lists, op.cat) == p.k {
        assert s.lists[p.k].name == op.cat == "locale-extra";
      }
    }
    WrittenAs(s, ops, p, 0);
  }

  lemma FilesSpare(cat: string, names: seq<string>, flag: int, name: string)
    requires cat != "locale-extra"
    ensures Spares(Files(cat, names, flag), name)
  {
  }

  lemma OtherLists()
    ensures "locale-extra" !in ["xapps", "apps", "network", "xlib", "gnome", "xapps-extra", "xmultimedia",
                                "lxde-desktop", "gnome-extra", "xfce4-extra"]
  {
    assert "locale-extra"[0] == 'l' && "locale-extra"[1] == 'o';
    assert "lxde-desktop"[1] == 'x';
  }

  lemma LocaleFilesSpare(lang: string, prefixes: seq<string>, flag: int)
    requires forall prefix :: prefix in prefixes ==> prefix != "" && prefix[0] != 'k'
    ensures Spares(LocaleOps(lang, prefixes, flag), "kde-l10n-" + lang)
  {
    forall i | 0 <= i < |prefixes| ensures prefixes[i] + lang != "kde-l10n-" + lang {
      assert prefixes[i] in prefixes;
      assert (prefixes[i] + lang)[0] == prefixes[i][0];
      assert ("kde-l10n-" + lang)[0] == 'k';
    }
  }

  lemma CommonFilesSpare(lang: string)
    ensures Spares(CommonFiles(lang), "kde-l10n-" + lang)
  {
    OtherLists();
    FilesSpare("xapps", XAPPS, 1, "kde-l10n-" + lang);
    FilesSpare("apps", APPS, 1, "kde-l10n-" + lang);
    FilesSpare("network", NETWORK, 0, "kde-l10n-" + lang);
    assert "firefox-"[0] == 'f' && "thunderbird-"[0] == 't';
    LocaleFilesSpare(lang, ["firefox-", "thunderbird-"], 0);
  }

  lemma CommonOpsSpare(lang: string)
    ensures Spares(CommonOps(lang), "kde-l10n-" + lang)
  {
    OtherLists();
    CommonFilesSpare(lang);
    SparesAppend(CLEARED, CommonFiles(lang), "kde-l10n-" + lang);
    SparesAppend(CLEARED + CommonFiles(lang), TWEAKS, "kde-l10n-" + lang);
    SparesAppend(CLEARED + CommonFiles(lang) + TWEAKS, DESKTOPS_OFF, "kde-l10n-" + lang);
  }

  lemma OtherDesktopsSpare(desk: Desktop, lang: string)
    requires desk != KDE
    ensures Spares(DesktopOps(desk, lang), "kde-l10n-" + lang)
  {
    OtherLists();
  }

  lemma PackHit(s: Selection, ops: seq<Op>, lang: string, p: Place, flag: int)
    requires Has(s, p) && KdePack(s, lang, p)
    requires File("locale-extra", "kde-l10n-" + lang, flag) in ops && forall op :: op in ops ==> op.flag == flag
    ensures LastWrite(s, ops, p) == Some(flag)
  {
    assert Hits(s, File("locale-extra", "kde-l10n-" + lang, flag), p);
    WrittenAs(s, ops, p, flag);
  }

  lemma KdeSetsPack(lang: string)
    ensures File("locale-extra", "kde-l10n-" + lang, 1) in DesktopOps(KDE, lang)
    ensures forall op :: op in DesktopOps(KDE, lang) ==> op.flag == 1
  {
    var on := File("locale-extra", "kde-l10n-" + lang, 1);
    assert on == KdeLocales(lang)[1];
    assert on in [Cat("kde", 1)] + KdeLocales(lang);
    assert forall op :: op in KdeLocales(lang) ==> op.flag == 1;
    assert forall op :: op in KDE_FILES ==> op.flag == 1;
  }

  lemma FixClearsPack(lang: string)
    requires lang != "en"
    ensures File("locale-extra", "kde-l10n-" + lang, 0) in LocaleFix(lang)
    ensures forall op :: op in LocaleFix(lang) ==> op.flag == 0
  {
    assert File("locale-extra", "kde-l10n-" + lang, 0) == LocaleFix(lang)[5];
  }

  /** Entering the page in basic mode and leaving it: KDE's pack for the user's language is selected with KDE; with
      any other desktop it is not, except that for English nothing ever deselects it. */
  lemma KdePackFollowsDesktop(s: Selection, desk: Desktop, lang: string, p: Place)
    requires Has(s, p) && KdePack(s, lang, p)
    ensures var t := ApplyAll(ApplyAll(s, LocaleFix(lang)), BasicOps(desk, lang));
            Has(t, p) && FlagAt(t, p) == if desk == KDE then 1 else if lang != "en" then 0 else FlagAt(s, p)
  {
    var fix, common, own := LocaleFix(lang), CommonOps(lang), DesktopOps(desk, lang);
    ApplyAllAppend(s, fix, BasicOps(desk, lang));
    FlagsAfter(s, fix + (common + own), p);
    LastWriteAppend(s, fix, common + own, p);
    LastWriteAppend(s, common, own, p);
    if lang != "en" {
      FixClearsPack(lang);
      PackHit(s, fix, lang, p, 0);
    }
    CommonOpsSpare(lang);
    SparedMeansUnwritten(s, common, lang, p);
    if desk == KDE {
      KdeSetsPack(lang);
      PackHit(s, own, lang, p, 1);
    } else {
      OtherDesktopsSpare(desk, lang);
      SparedMeansUnwritten(s, own, lang, p);
    }
  }

  // ---- the group boxes of intermediate mode ----

  /** The labels the boxes of get_intermediate_mode_widget pass to group_changed. */
  const BOXES: seq<string> := ["XAPP", "CONS", "BUR", "NET", "DEV", "MUL", "APPEX", "CONSEX", "GAME", "NETEX", "DEVEX",
      "MULEX"]

  /** group_changed: the writes for a box, checked (flag 1) or not (flag 0). */
  function GroupOps(box: string, flag: int, lang: string): seq<Op> {
    if box == "NET" then [Cat("network", flag)]
    else if box == "NETEX" then [Cat("network-extra", flag)]
    else if box == "MUL" then [Cat("multimedia", flag), Cat("xmultimedia", flag)]
    else if box == "MULEX" then [Cat("multimedia-extra", flag), Cat("xmultimedia-extra", flag)]
    else if box == "DEV" then [Cat("devel", flag), File("locale-extra", "php-docs-" + lang, flag)]
    else if box == "DEVEX" then [Cat("devel-extra", flag)]
    else if box == "GAME" then [Cat("games-extra", flag)]
    else PackedOps(box, flag, lang)
  }

  /** One write, and the language packs that go with it unless the language is English. */
  function WithPacks(op: Op, lang: string, prefixes: seq<string>, flag: int): seq<Op> {
    [op] + (if lang != "en" then LocaleOps(lang, prefixes, flag) else [])
  }

  /** The boxes that come with language packs. */
  function PackedOps(box: string, flag: int, lang: string): seq<Op> {
    if box == "CONS" then WithPacks(Cat("apps", flag), lang, ["vim-spell-", "aspell-"], flag)
    else if box == "CONSEX" then WithPacks(Cat("apps-extra", flag), lang, ["hunspell-", "mbrola-"], flag)
    else if box == "XAPP" then
      WithPacks(All("xapps", Some("libreoffice"), flag), lang, ["firefox-", "thunderbird-"], flag)
    else if box == "XAPPEX" then WithPacks(Cat("xapps-extra", flag), lang, ["eric-i18n-", "eric4-i18n-"], flag)
    else if box == "BUR" then WithPacks(File("xapps", "libreoffice", flag), lang, ["libreoffice-l10n-"], flag)
    else []
  }

  /** The same writes with another value. */
  predicate SameTargets(a: seq<Op>, b: seq<Op>) {
    |a| == |b| && forall i :: 0 <= i < |a| ==> SameTarget(a[i], b[i])
  }

  predicate SameTarget(a: Op, b: Op) {
    match (a, b)
    case (Cat(n, _), Cat(m, _)) => n == m
    case (All(c, e, _), All(d, f, _)) => c == d && e == f
    case (File(c, n, _), File(d, m, _)) => c == d && n == m
    case _ => false
  }

  lemma {:induction false} SameTargetsWrite(s: Selection, a: seq<Op>, b: seq<Op>, p: Place)
    requires Has(s, p) && SameTargets(a, b)
    ensures LastWrite(s, a, p).Some? <==> LastWrite(s, b, p).Some?
    decreases |a|
  {
    if a != [] {
      var n := |a| - 1;
      assert SameTarget(a[n], b[n]);
      assert forall i :: 0 <= i < n ==> a[..n][i] == a[i] && b[..n][i] == b[i];
      SameTargetsWrite(s, a[..n], b[..n], p);
    }
  }

  lemma WithPacksTargets(a: Op, b: Op, lang: string, prefixes: seq<string>, flag: int, other: int)
    requires SameTarget(a, b)
    ensures SameTargets(WithPacks(a, lang, prefixes, flag), WithPacks(b, lang, prefixes, other))
  {
  }

  lemma PackedTargets(box: string, flag: int, other: int, lang: string)
    ensures SameTargets(PackedOps(box, flag, lang), PackedOps(box, other, lang))
  {
    match box {
      case "CONS" =>
        WithPacksTargets(Cat("apps", flag), Cat("apps", other), lang, ["vim-spell-", "aspell-"], flag, other);
      case "CONSEX" =>
        var packs := ["hunspell-", "mbrola-"];
        WithPacksTargets(Cat("apps-extra", flag), Cat("apps-extra", other), lang, packs, flag, other);
      case "XAPP" =>
        var but := Some("libreoffice");
        WithPacksTargets(All("xapps", but, flag), All("xapps", but, other), lang, ["firefox-", "thunderbird-"], flag,
          other);
      case "XAPPEX" =>
        WithPacksTargets(Cat("xapps-extra", flag), Cat("xapps-extra", other), lang, ["eric-i18n-", "eric4-i18n-"], flag,
          other);
      case "BUR" =>
        WithPacksTargets(File("xapps", "libreoffice", flag), File("xapps", "libreoffice", other), lang,
          ["libreoffice-l10n-"], flag, other);
      case _ =>
    }
  }

  lemma GroupTargets(box: string, flag: int, other: int, lang: string)
    ensures SameTargets(GroupOps(box, flag, lang), GroupOps(box, other, lang))
  {
    PackedTargets(box, flag, other, lang);
  }

  /** Only the last state of a box matters: toggling it back and forth first changes nothing. */
  lemma LastToggleDecides(s: Selection, box: string, earlier: int, last: int, lang: string)
    ensures ApplyAll(ApplyAll(s, GroupOps(box, earlier, lang)), GroupOps(box, last, lang))
            == ApplyAll(s, GroupOps(box, last, lang))
  {
    GroupTargets(box, earlier, last, lang);
    forall p | Has(s, p) && LastWrite(s, GroupOps(box, earlier, lang), p).Some?
      ensures LastWrite(s, GroupOps(box, last, lang), p).Some?
    {
      SameTargetsWrite(s, GroupOps(box, earlier, lang), GroupOps(box, last, lang), p);
    }
    SecondDecides(s, GroupOps(box, earlier, lang), GroupOps(box, last, lang));
  }

  /** The smallest catalogue with a place that the operation hits. */
  function TargetOf(op: Op): (Selection, Place) {
    match op
    case Cat(name, _) => (Single(name, 0, ""), OfCat(0))
    case All(cat, exception, _) => (Single(cat, 0, if exception == Some("") then "a" else ""), OfPkg(0, 0))
    case File(cat, name, _) => (Single(cat, 0, name), OfPkg(0, 0))
    case _ => (Single("", 0, ""), OfCat(0))
  }

  lemma HitsItsTarget(op: Op)
    requires op.Cat? || op.All? || op.File?
    ensures Has(TargetOf(op).0, TargetOf(op).1) && FlagAt(TargetOf(op).0, TargetOf(op).1) == 0
    ensures Hits(TargetOf(op).0, op, TargetOf(op).1)
  {
  }

  /** Operations that all select something change some catalogue. */
  lemma SelectingShows(ops: seq<Op>)
    requires ops != [] && forall op :: op in ops ==> (op.Cat? || op.All? || op.File?) && op.flag == 1
    ensures exists s :: Built(s) && ApplyAll(s, ops) != s
  {
    var s, p := TargetOf(ops[0]).0, TargetOf(ops[0]).1;
    assert ops[0] in ops;
    HitsItsTarget(ops[0]);
    WrittenAs(s, ops, p, 1);
    FlagsAfter(s, ops, p);
    assert Built(s) && ApplyAll(s, ops) != s;
  }

  lemma PackedOpsSelect(box: string, lang: string)
    ensures forall op :: op in PackedOps(box, 1, lang) ==> (op.Cat? || op.All? || op.File?) && op.flag == 1
  {
  }

  lemma GroupOpsSelect(box: string, lang: string)
    ensures forall op :: op in GroupOps(box, 1, lang) ==> (op.Cat? || op.All? || op.File?) && op.flag == 1
  {
    PackedOpsSelect(box, lang);
  }

  lemma OneBoxIsUnknown(box: string, lang: string)
    requires box in BOXES
    ensures GroupOps(box, 1, lang) == [] <==> box == "APPEX"
  {
  }

  /** Of the boxes of the page, checking one changes nothing in any catalogue the program can build: it passes
      APPEX, and the handler knows only XAPPEX. */
  lemma OneBoxIsDead(box: string, lang: string)
    requires box in BOXES
    ensures (forall s :: Built(s) ==> ApplyAll(s, GroupOps(box, 1, lang)) == s) <==> box == "APPEX"
  {
    OneBoxIsUnknown(box, lang);
    GroupOpsSelect(box, lang);
    if GroupOps(box, 1, lang) != [] { SelectingShows(GroupOps(box, 1, lang)); }
  }

  // ---- what each box does, by field ----

  /** The categories of a box. */
  function BoxCategories(box: string): set<string> {
    if box == "NET" then {"network"}
    else if box == "NETEX" then {"network-extra"}
    else if box == "MUL" then {"multimedia", "xmultimedia"}
    else if box == "MULEX" then {"multimedia-extra", "xmultimedia-extra"}
    else if box == "DEV" then {"devel"}
    else if box == "DEVEX" then {"devel-extra"}
    else if box == "GAME" then {"games-extra"}
    else if box == "CONS" then {"apps"}
    else if box == "CONSEX" then {"apps-extra"}
    else if box == "XAPPEX" then {"xapps-extra"}
    else {}
  }

  /** The language packs of a box. */
  function BoxPacks(box: string, lang: string): set<string> {
    if box == "DEV" then {"php-docs-" + lang}
    else if lang == "en" then {}
    else if box == "CONS" then {"vim-spell-" + lang, "aspell-" + lang}
    else if box == "CONSEX" then {"hunspell-" + lang, "mbrola-" + lang}
    else if box == "XAPP" then {"firefox-" + lang, "thunderbird-" + lang}
    else if box == "XAPPEX" then {"eric-i18n-" + lang, "eric4-i18n-" + lang}
    else if box == "BUR" then {"libreoffice-l10n-" + lang}
    else {}
  }

  /** The writes of a box: its categories, its packs, and for two boxes the graphical applications: all but
      libreoffice, or libreoffice alone. */
  predicate BoxWrites(box: string, lang: string, flag: int, op: Op) {
    || (op.Cat? && op.name in BoxCategories(box) && op.flag == flag)
    || (op.File? && op.cat == "locale-extra" && op.name in BoxPacks(box, lang) && op.flag == flag)
    || (box == "XAPP" && op == All("xapps", Some("libreoffice"), flag))
    || (box == "BUR" && op == File("xapps", "libreoffice", flag))
  }

  lemma WithPacksMember(first: Op, lang: string, prefixes: seq<string>, flag: int, op: Op)
    ensures op in WithPacks(first, lang, prefixes, flag) <==>
            op == first || (lang != "en" && exists i ::
              0 <= i < |prefixes| && op == File("locale-extra", prefixes[i] + lang, flag))
  {
    if lang != "en" {
      if i :| 0 <= i < |prefixes| && op == File("locale-extra", prefixes[i] + lang, flag) {
        assert LocaleOps(lang, prefixes, flag)[i] == op;
      }
    }
  }

  lemma TwoPacks(first: Op, lang: string, a: string, b: string, flag: int, op: Op)
    ensures op in WithPacks(first, lang, [a, b], flag) <==>
            op == first || (lang != "en"
              && op in [File("locale-extra", a + lang, flag), File("locale-extra", b + lang, flag)])
  {
    WithPacksMember(first, lang, [a, b], flag, op);
    assert [a, b][0] == a && [a, b][1] == b;
  }

  lemma PackedWrites(box: string, flag: int, lang: string, op: Op)
    requires box in ["CONS", "CONSEX", "XAPPEX"]
    ensures op in GroupOps(box, flag, lang) <==> BoxWrites(box, lang, flag, op)
  {
    match box {
      case "CONS" => TwoPacks(Cat("apps", flag), lang, "vim-spell-", "aspell-", flag, op);
      case "CONSEX" => TwoPacks(Cat("apps-extra", flag), lang, "hunspell-", "mbrola-", flag, op);
      case _ => TwoPacks(Cat("xapps-extra", flag), lang, "eric-i18n-", "eric4-i18n-", flag, op);
    }
  }

  lemma ApplicationWrites(box: string, flag: int, lang: string, op: Op)
    requires box in ["XAPP", "BUR"]
    ensures op in GroupOps(box, flag, lang) <==> BoxWrites(box, lang, flag, op)
  {
    if box == "XAPP" {
      TwoPacks(All("xapps", Some("libreoffice"), flag), lang, "firefox-", "thunderbird-", flag, op);
    } else {
      WithPacksMember(File("xapps", "libreoffice", flag), lang, ["libreoffice-l10n-"], flag, op);
      assert ["libreoffice-l10n-"][0] == "libreoffice-l10n-";
    }
  }

  /** A box writes exactly its own categories, packs and applications. */
  lemma GroupWrites(box: string, flag: int, lang: string, op: Op)
    requires box in ["NET", "NETEX", "MUL", "MULEX", "DEV", "DEVEX", "GAME", "CONS", "CONSEX", "XAPP", "XAPPEX", "BUR"]
    ensures op in GroupOps(box, flag, lang) <==> BoxWrites(box, lang, flag, op)
  {
    if box in ["CONS", "CONSEX", "XAPPEX"] {
      PackedWrites(box, flag, lang, op);
    } else if box in ["XAPP", "BUR"] {
      ApplicationWrites(box, flag, lang, op);
    } else {
      PlainWrites(box, flag, lang, op);
    }
  }

  lemma PlainWrites(box: string, flag: int, lang: string, op: Op)
    requires box in ["NET", "NETEX", "MUL", "MULEX", "DEV", "DEVEX", "GAME"]
    ensures op in GroupOps(box, flag, lang) <==> BoxWrites(box, lang, flag, op)
  {
    match box {
      case "NET" =>
      case "NETEX" =>
      case "MUL" =>
      case "MULEX" =>
      case "DEV" =>
      case "DEVEX" =>
      case _ =>
    }
  }

  /** After a box is toggled every flag it writes is the box's, and every other flag is as it was. */
  lemma GroupByField(s: Selection, box: string, flag: int, lang: string, p: Place)
    requires box in ["NET", "NETEX", "MUL", "MULEX", "DEV", "DEVEX", "GAME", "CONS", "CONSEX", "XAPP", "XAPPEX", "BUR"]
    requires Has(s, p)
    ensures Has(ApplyAll(s, GroupOps(box, flag, lang)), p)
    ensures FlagAt(ApplyAll(s, GroupOps(box, flag, lang)), p) ==
            if exists op :: BoxWrites(box, lang, flag, op) && Hits(s, op, p) then flag else FlagAt(s, p)
  {
    var ops := GroupOps(box, flag, lang);
    forall op ensures op in ops <==> BoxWrites(box, lang, flag, op) { GroupWrites(box, flag, lang, op); }
    assert forall op :: op in ops ==> op.flag == flag;
    WrittenAs(s, ops, p, flag);
    FlagsAfter(s, ops, p);
  }

  /** Entering the page switches off six packs of the user's language, and only those, unless it is English. */
  lemma FixWrites(lang: string, op: Op)
    ensures op in LocaleFix(lang) <==>
            lang != "en" && op.File? && op.cat == "locale-extra" && op.flag == 0
            && op.name in {"eric-i18n-" + lang, "eric4-i18n-" + lang, "hunspell-" + lang, "koffice-l10n-" + lang,
                           "mbrola-" + lang, "kde-l10n-" + lang}
  {
    if lang != "en" {
      var ops := LocaleFix(lang);
      assert |ops| == 6 && ops[0].name == "eric-i18n-" + lang && ops[1].name == "eric4-i18n-" + lang
        && ops[2].name == "hunspell-" + lang && ops[3].name == "koffice-l10n-" + lang
        && ops[4].name == "mbrola-" + lang && ops[5].name == "kde-l10n-" + lang;
    }
  }
}
