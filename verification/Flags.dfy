/** select.c and its three modes: package flags as a function on values. Every write of the three modes is an
    operation that sets the flag of the places it hits to a constant. */
module Flags {
  import opened GLists
  import opened ConfigStore

  datatype CatRow = CatRow(name: string, size: string, flag: int)
  datatype PkgRow = PkgRow(name: string, size: string, desc: string, flag: int)

  /** The categories, and for each category its package list. */
  datatype Selection = Selection(cats: seq<CatRow>, lists: seq<Entry<seq<PkgRow>>>)

  datatype Op =
    | Cat(name: string, flag: int)
    | All(cat: string, exception: Option<string>, flag: int)
    | File(cat: string, name: string, flag: int)
    | CatAt(i: nat, flag: int)
    | PkgAt(k: nat, j: nat, flag: int)
    | AllAt(k: nat, flag: int)

  /** A flag cell: of category i, or of package j of list k. */
  datatype Place = OfCat(i: nat) | OfPkg(k: nat, j: nat)

  predicate Has(s: Selection, p: Place) {
    match p
    case OfCat(i) => i < |s.cats|
    case OfPkg(k, j) => k < |s.lists| && j < |s.lists[k].data|
  }

  function FlagAt(s: Selection, p: Place): int
    requires Has(s, p)
  {
    match p
    case OfCat(i) => s.cats[i].flag
    case OfPkg(k, j) => s.lists[k].data[j].flag
  }

  predicate FirstCat(cats: seq<CatRow>, name: string, i: nat)
    requires i < |cats|
  {
    cats[i].name == name && forall j :: 0 <= j < i ==> cats[j].name != name
  }

  predicate FirstPkg(rows: seq<PkgRow>, name: string, j: nat)
    requires j < |rows|
  {
    rows[j].name == name && forall i :: 0 <= i < j ==> rows[i].name != name
  }

  /** Does the operation write this place? It depends on names only, never on flags. */
  predicate Hits(s: Selection, op: Op, p: Place)
    requires Has(s, p)
  {
    match op
    case Cat(name, _) => p.OfCat? && FirstCat(s.cats, name, p.i)
    case All(cat, exception, _) =>
      p.OfPkg? && Find(s.lists, cat) == p.k && exception != Some(s.lists[p.k].data[p.j].name)
    case File(cat, name, _) => p.OfPkg? && Find(s.lists, cat) == p.k && FirstPkg(s.lists[p.k].data, name, p.j)
    case CatAt(i, _) => p == OfCat(i)
    case PkgAt(k, j, _) => p == OfPkg(k, j)
    case AllAt(k, _) => p.OfPkg? && p.k == k
  }

  function NewFlag(s: Selection, op: Op, p: Place): int
    requires Has(s, p)
  {
    if Hits(s, op, p) then op.flag else FlagAt(s, p)
  }

  /** The selection with the flags `f`. */
  function WithFlags(s: Selection, f: Place -> int): Selection {
    Selection(
      seq(|s.cats|, i requires 0 <= i < |s.cats| => s.cats[i].(flag := f(OfCat(i)))),
      seq(|s.lists|, k requires 0 <= k < |s.lists| =>
        Entry(s.lists[k].name, RowsWith(s.lists[k].data, k, f))))
  }

  function RowsWith(rows: seq<PkgRow>, k: nat, f: Place -> int): seq<PkgRow> {
    seq(|rows|, j requires 0 <= j < |rows| => rows[j].(flag := f(OfPkg(k, j))))
  }

  function Apply(s: Selection, op: Op): Selection {
    WithFlags(s, (p: Place) => if Has(s, p) then NewFlag(s, op, p) else 0)
  }

  function ApplyAll(s: Selection, ops: seq<Op>): Selection {
    if ops == [] then s else Apply(ApplyAll(s, ops[..|ops| - 1]), ops[|ops| - 1])
  }

  /** The value the last operation that hits the place writes there. */
  function LastWrite(s: Selection, ops: seq<Op>, p: Place): Option<int>
    requires Has(s, p)
  {
    if ops == [] then None
    else if Hits(s, ops[|ops| - 1], p) then Some(ops[|ops| - 1].flag)
    else LastWrite(s, ops[..|ops| - 1], p)
  }

  // ---- laws of any sequence of operations ----

  /** Same catalogue: same categories and packages, whatever the flags. */
  predicate SameCatalogue(s: Selection, t: Selection) {
    && |s.cats| == |t.cats| && |s.lists| == |t.lists|
    && (forall i :: 0 <= i < |s.cats| ==> s.cats[i].name == t.cats[i].name && s.cats[i].size == t.cats[i].size)
    && (forall k :: 0 <= k < |s.lists| ==> SameList(s.lists[k], t.lists[k]))
  }

  predicate SameList(a: Entry<seq<PkgRow>>, b: Entry<seq<PkgRow>>) {
    && a.name == b.name && |a.data| == |b.data|
    && forall j :: 0 <= j < |a.data| ==> a.data[j].(flag := 0) == b.data[j].(flag := 0)
  }

  lemma FindSame(s: Selection, t: Selection, cat: string)
    requires SameCatalogue(s, t)
    ensures Find(s.lists, cat) == Find(t.lists, cat)
  {
    var k := Find(s.lists, cat);
    assert k < |s.lists| ==> SameList(s.lists[k], t.lists[k]);
    assert forall j :: 0 <= j < k ==> SameList(s.lists[j], t.lists[j]);
    FindIs(t.lists, cat, k);
  }

  lemma HitsSame(s: Selection, t: Selection, op: Op, p: Place)
    requires SameCatalogue(s, t) && Has(s, p)
    ensures Has(t, p) && Hits(s, op, p) == Hits(t, op, p)
  {
    if p.OfPkg? {
      assert SameList(s.lists[p.k], t.lists[p.k]);
      if op.All? || op.File? { FindSame(s, t, op.cat); }
      assert forall i :: 0 <= i <= p.j ==> s.lists[p.k].data[i].(flag := 0) == t.lists[p.k].data[i].(flag := 0);
      assert forall i :: 0 <= i <= p.j ==> s.lists[p.k].data[i].name == s.lists[p.k].data[i].(flag := 0).name;
      assert forall i :: 0 <= i <= p.j ==> t.lists[p.k].data[i].name == t.lists[p.k].data[i].(flag := 0).name;
    }
  }

  lemma ApplyFlags(s: Selection, op: Op)
    ensures SameCatalogue(s, Apply(s, op))
    ensures forall p :: Has(s, p) ==> Has(Apply(s, op), p) && FlagAt(Apply(s, op), p) == NewFlag(s, op, p)
  {
  }

  lemma SameTrans(s: Selection, t: Selection, u: Selection)
    requires SameCatalogue(s, t) && SameCatalogue(t, u)
    ensures SameCatalogue(s, u)
  {
    forall k | 0 <= k < |s.lists| ensures SameList(s.lists[k], u.lists[k]) {
      assert SameList(s.lists[k], t.lists[k]) && SameList(t.lists[k], u.lists[k]);
    }
  }

  /** After any operations the catalogue is the same, and every flag is what the last operation to hit its place
      wrote, or, when none did, what it was before. */
  lemma {:induction false} FlagsAfter(s: Selection, ops: seq<Op>, p: Place)
    requires Has(s, p)
    ensures SameCatalogue(s, ApplyAll(s, ops)) && Has(ApplyAll(s, ops), p)
    ensures FlagAt(ApplyAll(s, ops), p) == LastWrite(s, ops, p).GetOr(FlagAt(s, p))
    decreases |ops|
  {
    if ops != [] {
      var init, last := ops[..|ops| - 1], ops[|ops| - 1];
      FlagsAfter(s, init, p);
      var t := ApplyAll(s, init);
      ApplyFlags(t, last);
      SameTrans(s, t, Apply(t, last));
      HitsSame(s, t, last, p);
    }
  }

  lemma {:induction false} CatalogueKept(s: Selection, ops: seq<Op>)
    ensures SameCatalogue(s, ApplyAll(s, ops))
    decreases |ops|
  {
    if ops != [] {
      var t := ApplyAll(s, ops[..|ops| - 1]);
      CatalogueKept(s, ops[..|ops| - 1]);
      ApplyFlags(t, ops[|ops| - 1]);
      SameTrans(s, t, Apply(t, ops[|ops| - 1]));
    }
  }

  lemma {:induction false} LastWriteSame(s: Selection, t: Selection, ops: seq<Op>, p: Place)
    requires SameCatalogue(s, t) && Has(s, p)
    ensures Has(t, p) && LastWrite(s, ops, p) == LastWrite(t, ops, p)
    decreases |ops|
  {
    HitsSame(s, t, Cat("", 0), p);
    if ops != [] {
      HitsSame(s, t, ops[|ops| - 1], p);
      LastWriteSame(s, t, ops[..|ops| - 1], p);
    }
  }

  lemma EqualByFlags(s: Selection, t: Selection)
    requires SameCatalogue(s, t)
    requires forall p :: Has(s, p) && Has(t, p) ==> FlagAt(s, p) == FlagAt(t, p)
    ensures s == t
  {
    forall i | 0 <= i < |s.cats| ensures s.cats[i] == t.cats[i] {
      assert FlagAt(s, OfCat(i)) == FlagAt(t, OfCat(i));
    }
    forall k | 0 <= k < |s.lists| ensures s.lists[k] == t.lists[k] {
      assert SameList(s.lists[k], t.lists[k]);
      var a, b := s.lists[k].data, t.lists[k].data;
      forall j | 0 <= j < |a| ensures a[j] == b[j] {
        assert FlagAt(s, OfPkg(k, j)) == FlagAt(t, OfPkg(k, j));
        assert a[j] == a[j].(flag := 0).(flag := a[j].flag);
        assert b[j] == b[j].(flag := 0).(flag := b[j].flag);
      }
      assert a == b;
    }
    assert s.cats == t.cats && s.lists == t.lists;
  }

  /** After one sequence and then another: the second sequence decides where it writes, else the first. */
  lemma FlagsAfterBoth(s: Selection, first: seq<Op>, second: seq<Op>, p: Place)
    requires Has(s, p)
    ensures SameCatalogue(s, ApplyAll(ApplyAll(s, first), second)) && Has(ApplyAll(ApplyAll(s, first), second), p)
    ensures FlagAt(ApplyAll(ApplyAll(s, first), second), p) ==
            LastWrite(s, second, p).GetOr(LastWrite(s, first, p).GetOr(FlagAt(s, p)))
  {
    var mid := ApplyAll(s, first);
    FlagsAfter(s, first, p);
    LastWriteSame(s, mid, second, p);
    FlagsAfter(mid, second, p);
    SameTrans(s, mid, ApplyAll(mid, second));
  }

  /** The first sequence leaves the flag of this place as it found it, or the second overwrites it. */
  predicate NoTraceAt(s: Selection, first: seq<Op>, second: seq<Op>, p: Place)
    requires Has(s, p)
  {
    LastWrite(s, second, p).Some? || LastWrite(s, first, p).GetOr(FlagAt(s, p)) == FlagAt(s, p)
  }

  lemma SameCatalogueAfter(s: Selection, first: seq<Op>, second: seq<Op>)
    ensures SameCatalogue(ApplyAll(ApplyAll(s, first), second), ApplyAll(s, second))
    ensures forall p :: Has(ApplyAll(s, second), p) ==> Has(s, p)
  {
    var mid := ApplyAll(s, first);
    CatalogueKept(s, first);
    CatalogueKept(mid, second);
    CatalogueKept(s, second);
    SameTrans(s, mid, ApplyAll(mid, second));
    SameSym(s, ApplyAll(mid, second));
    SameTrans(ApplyAll(mid, second), s, ApplyAll(s, second));
    SameSym(s, ApplyAll(s, second));
    forall p | Has(ApplyAll(s, second), p) ensures Has(s, p) {
      HitsSame(ApplyAll(s, second), s, Cat("", 0), p);
    }
  }

  /** In a given catalogue a first sequence leaves no trace after a second one exactly when every place keeps its
      flag under the first or is overwritten by the second. */
  lemma NoTraceExactly(s: Selection, first: seq<Op>, second: seq<Op>)
    ensures ApplyAll(ApplyAll(s, first), second) == ApplyAll(s, second) <==>
            forall p :: Has(s, p) ==> NoTraceAt(s, first, second, p)
  {
    var a, b := ApplyAll(ApplyAll(s, first), second), ApplyAll(s, second);
    forall p | Has(s, p) ensures Has(a, p) && Has(b, p) && (FlagAt(a, p) == FlagAt(b, p) <==>
      NoTraceAt(s, first, second, p)) {
      FlagsAfterBoth(s, first, second, p);
      FlagsAfter(s, second, p);
    }
    if forall p :: Has(s, p) ==> NoTraceAt(s, first, second, p) {
      SameCatalogueAfter(s, first, second);
      EqualByFlags(a, b);
    }
  }

  /** Where two sequences write, the second decides; so if it writes everywhere the first does, the first leaves
      no trace. */
  lemma SecondDecides(s: Selection, first: seq<Op>, second: seq<Op>)
    requires forall p :: Has(s, p) && LastWrite(s, first, p).Some? ==> LastWrite(s, second, p).Some?
    ensures ApplyAll(ApplyAll(s, first), second) == ApplyAll(s, second)
  {
    NoTraceExactly(s, first, second);
  }

  lemma SameSym(s: Selection, t: Selection)
    requires SameCatalogue(s, t)
    ensures SameCatalogue(t, s)
  {
    forall k | 0 <= k < |s.lists| ensures SameList(t.lists[k], s.lists[k]) {
      assert SameList(s.lists[k], t.lists[k]);
    }
  }

  /** Doing any sequence twice is doing it once; so a run repeated after a refusal changes nothing. */
  lemma TwiceIsOnce(s: Selection, ops: seq<Op>)
    ensures ApplyAll(ApplyAll(s, ops), ops) == ApplyAll(s, ops)
  {
    SecondDecides(s, ops, ops);
  }

  function FlipAt(s: Selection, p: Place): Selection
    requires Has(s, p)
  {
    WithFlags(s, (q: Place) => if !Has(s, q) then 0 else if q == p then FlagAt(s, q) + 1 else FlagAt(s, q))
  }

  lemma FlipDiffers(s: Selection, p: Place)
    requires Has(s, p)
    ensures SameCatalogue(s, FlipAt(s, p)) && Has(FlipAt(s, p), p) && FlagAt(FlipAt(s, p), p) != FlagAt(s, p)
  {
  }

  /** A place has the same flag after the sequence, whatever the flags were before, exactly when some operation
      of the sequence hits it. */
  lemma DeterminedExactlyWhereWritten(s: Selection, ops: seq<Op>, p: Place)
    requires Has(s, p)
    ensures (forall t :: SameCatalogue(s, t) && Has(ApplyAll(t, ops), p) && Has(ApplyAll(s, ops), p) ==>
              FlagAt(ApplyAll(t, ops), p) == FlagAt(ApplyAll(s, ops), p))
            <==> LastWrite(s, ops, p).Some?
  {
    FlagsAfter(s, ops, p);
    if LastWrite(s, ops, p).Some? {
      forall t | SameCatalogue(s, t)
        ensures Has(ApplyAll(t, ops), p) && FlagAt(ApplyAll(t, ops), p) == FlagAt(ApplyAll(s, ops), p) {
        LastWriteSame(s, t, ops, p);
        FlagsAfter(t, ops, p);
      }
    } else {
      var t := FlipAt(s, p);
      FlipDiffers(s, p);
      LastWriteSame(s, t, ops, p);
      FlagsAfter(t, ops, p);
      assert SameCatalogue(s, t) && FlagAt(ApplyAll(t, ops), p) != FlagAt(ApplyAll(s, ops), p);
    }
  }

  lemma {:induction false} WrittenWhenHit(s: Selection, ops: seq<Op>, p: Place, op: Op)
    requires Has(s, p) && op in ops && Hits(s, op, p)
    ensures LastWrite(s, ops, p).Some?
    decreases |ops|
  {
    if !Hits(s, ops[|ops| - 1], p) {
      assert op in ops[..|ops| - 1];
      WrittenWhenHit(s, ops[..|ops| - 1], p, op);
    }
  }

  lemma {:induction false} ApplyAllAppend(s: Selection, a: seq<Op>, b: seq<Op>)
    ensures ApplyAll(s, a + b) == ApplyAll(ApplyAll(s, a), b)
    decreases |b|
  {
    if b == [] {
      assert a + b == a;
    } else {
      var init := b[..|b| - 1];
      assert (a + b)[..|a + b| - 1] == a + init;
      ApplyAllAppend(s, a, init);
    }
  }
}
