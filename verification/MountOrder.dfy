/** partdisk.c, run: the fstab the installer writes and the order in which it mounts partitions. */
module MountOrder {
  import opened GLists
  import opened CStrings
  import opened Directories

  /** struct fwife_part_info_t, without the size label. A NULL mount is None. */
  datatype PartInfo = PartInfo(dev: string, mount: Option<string>, fstype: string)

  datatype FstabLine = FstabLine(device: string, point: string, fstype: string, options: string, dump: string,
      pass: string)

  function CompareMountPoints(a: PartInfo, b: PartInfo): int {
    if a.mount.Some? && b.mount.Some? then |a.mount.value| - |b.mount.value|
    else 0
  }

  predicate Mounted(p: PartInfo) { p.mount.Some? }

  /** The test that sends a mounted record to the swap branch of mountdev. */
  predicate WrittenAsSwap(p: PartInfo) {
    p.mount == Some("swap") || p.fstype == "linux-swap"
  }

  predicate MountsPath(p: PartInfo) { Mounted(p) && !WrittenAsSwap(p) }

  function PathOf(p: PartInfo): string { p.mount.GetOr("") }

  /** What `q` stands for lies inside the directory `p` stands for. */
  predicate Above(p: string, q: string) { MountedOn(p) < MountedOn(q) }

  ghost predicate AllMounted(xs: seq<PartInfo>) {
    forall x :: x in xs ==> Mounted(x)
  }

  ghost predicate HasNesting(xs: seq<PartInfo>) {
    exists a, b :: a in xs && b in xs && MountsPath(a) && MountsPath(b) && Above(PathOf(a), PathOf(b))
  }

  /** Every directory is spelled shorter than what lies inside it. */
  ghost predicate SpelledInOrder(xs: seq<PartInfo>) {
    forall a, b :: a in xs && b in xs && MountsPath(a) && MountsPath(b) && Above(PathOf(a), PathOf(b)) ==>
      |PathOf(a)| < |PathOf(b)|
  }

  /** Nothing can go wrong with the order: nothing is nested, or nothing is left unmounted and the length of the
      texts agrees with the nesting. */
  ghost predicate SafeToSort(xs: seq<PartInfo>) {
    !HasNesting(xs) || (AllMounted(xs) && SpelledInOrder(xs))
  }

  /** No path is mounted before a directory it lies in. */
  ghost predicate ParentsFirst(xs: seq<PartInfo>) {
    forall i, j :: 0 <= i < j < |xs| && MountsPath(xs[i]) && MountsPath(xs[j]) ==> !Above(PathOf(xs[j]), PathOf(xs[i]))
  }

  function SortMounts(xs: seq<PartInfo>): seq<PartInfo> { Sort(CompareMountPoints, xs) }

  function MountLength(p: PartInfo): int { |PathOf(p)| }

  // ---- the order of the mounts ----

  /** When every record is mounted the sort is by path length and stable. */
  lemma MountedSortIsStable(xs: seq<PartInfo>)
    requires AllMounted(xs)
    ensures Ascending(MountLength, SortMounts(xs))
    ensures forall k :: Filter(Having(MountLength, k), SortMounts(xs)) == Filter(Having(MountLength, k), xs)
  {
    SortIsStable(CompareMountPoints, MountLength, xs);
  }

  lemma MountedSortParentsFirst(xs: seq<PartInfo>)
    requires AllMounted(xs) && SpelledInOrder(xs)
    ensures ParentsFirst(SortMounts(xs))
  {
    MountedSortIsStable(xs);
    var s := SortMounts(xs);
    SameMembers(xs, s);
    forall i, j | 0 <= i < j < |s| && MountsPath(s[i]) && MountsPath(s[j]) ensures !Above(PathOf(s[j]), PathOf(s[i])) {
      AscendingAt(MountLength, s, i, j);
      assert s[i] in xs && s[j] in xs;
    }
  }

  /** An unmounted record at the head of a list stays there: it compares equal to everything. */
  lemma {:induction false} UnmountedHeadStays(xs: seq<PartInfo>)
    requires xs != [] && !Mounted(xs[0])
    ensures SortMounts(xs)[0] == xs[0]
    decreases |xs|
  {
    if |xs| >= 2 {
      UnmountedHeadStays(xs[..|xs| / 2]);
    }
  }

  /** ... and a merge cannot move anything in front of it. */
  lemma {:induction false} UnmountedHeadBlocks(l: seq<PartInfo>, r: seq<PartInfo>)
    requires r != [] && !Mounted(r[0])
    ensures Merge(CompareMountPoints, l, r) == l + r
  {
    if l != [] {
      UnmountedHeadBlocks(l[1..], r);
      assert l + r == [l[0]] + (l[1..] + r);
    }
  }

  lemma HalvesStayApart(l: seq<PartInfo>, r: seq<PartInfo>)
    requires l != [] && r != [] && !Mounted(r[0])
    requires |l| == (|l| + |r|) / 2
    ensures SortMounts(l + r) == SortMounts(l) + SortMounts(r)
  {
    SortHalves(CompareMountPoints, l, r);
    UnmountedHeadStays(r);
    UnmountedHeadBlocks(SortMounts(l), SortMounts(r));
  }

  lemma TakeThree(xs: seq<PartInfo>, a: PartInfo, b: PartInfo, c: PartInfo) returns (rest: seq<PartInfo>)
    requires a in xs && b in xs && c in xs && a != b && b != c && a != c
    ensures multiset(rest) + multiset{a, b, c} == multiset(xs)
    ensures |rest| + 3 == |xs|
  {
    var rest1 := TakeOut(xs, a);
    var rest2 := TakeOut(rest1, b);
    rest := TakeOut(rest2, c);
    assert multiset(xs) == multiset(rest) + multiset{c} + multiset{b} + multiset{a};
  }

  /** An arrangement of the same records that leaves `child` in front of its parent directory `dir`:
      the child at the head of the left half, an unmounted record at the head of the right one. */
  lemma BadArrangement(xs: seq<PartInfo>, dir: PartInfo, child: PartInfo, idle: PartInfo) returns (ys: seq<PartInfo>)
    requires dir in xs && child in xs && idle in xs
    requires MountsPath(dir) && MountsPath(child) && !Mounted(idle)
    requires Above(PathOf(dir), PathOf(child))
    ensures multiset(ys) == multiset(xs)
    ensures !ParentsFirst(SortMounts(ys))
  {
    var rest := TakeThree(xs, dir, child, idle);
    var cut := |xs| / 2 - 1;
    var l, r := [child] + rest[..cut], [idle, dir] + rest[cut..];
    ys := l + r;
    Rearranged(child, idle, dir, rest, cut);
    HalvesStayApart(l, r);
    assert l[0] == child && r[1] == dir;
    SameMembers(l, SortMounts(l));
    SameMembers(r, SortMounts(r));
    InversionAcross(SortMounts(l), SortMounts(r), dir, child);
  }

  lemma Rearranged(child: PartInfo, idle: PartInfo, dir: PartInfo, rest: seq<PartInfo>, cut: nat)
    requires cut <= |rest|
    ensures multiset(([child] + rest[..cut]) + ([idle, dir] + rest[cut..]))
            == multiset(rest) + multiset{dir, child, idle}
  {
    assert rest == rest[..cut] + rest[cut..];
  }

  lemma InversionAcross(l: seq<PartInfo>, r: seq<PartInfo>, dir: PartInfo, child: PartInfo)
    requires child in l && dir in r && MountsPath(dir) && MountsPath(child) && Above(PathOf(dir), PathOf(child))
    ensures !ParentsFirst(l + r)
  {
    var i :| 0 <= i < |l| && l[i] == child;
    var j :| 0 <= j < |r| && r[j] == dir;
    assert (l + r)[i] == child && (l + r)[|l| + j] == dir;
  }

  lemma {:induction false} FirstKeptComesFirst<T>(keep: T -> bool, s: seq<T>, y: T) returns (i: nat, j: nat)
    requires y in s && keep(y)
    requires Filter(keep, s)[0] != y
    ensures i < j < |s| && s[i] == Filter(keep, s)[0] && s[j] == y
  {
    if keep(s[0]) {
      i := 0;
      j :| 0 < j < |s| && s[j] == y;
    } else {
      assert y in s[1..];
      var i', j' := FirstKeptComesFirst(keep, s[1..], y);
      i, j := i' + 1, j' + 1;
    }
  }

  lemma InversionAt(s: seq<PartInfo>, i: nat, j: nat)
    requires i < j < |s| && MountsPath(s[i]) && MountsPath(s[j]) && Above(PathOf(s[j]), PathOf(s[i]))
    ensures !ParentsFirst(s)
  {
  }

  lemma LongerComesLater(ys: seq<PartInfo>, short: PartInfo, long: PartInfo) returns (i: nat, j: nat)
    requires AllMounted(ys) && short in ys && long in ys && MountLength(short) < MountLength(long)
    ensures i < j < |SortMounts(ys)| && SortMounts(ys)[i] == short && SortMounts(ys)[j] == long
  {
    var s := SortMounts(ys);
    MountedSortIsStable(ys);
    SameMembers(ys, s);
    i :| 0 <= i < |s| && s[i] == short;
    j :| 0 <= j < |s| && s[j] == long;
    if j < i { AscendingAt(MountLength, s, j, i); }
  }

  lemma ListedFirst(xs: seq<PartInfo>, x: PartInfo) returns (ys: seq<PartInfo>)
    requires x in xs
    ensures multiset(ys) == multiset(xs) && ys != [] && ys[0] == x
    ensures forall y :: y in ys <==> y in xs
  {
    var rest := TakeOut(xs, x);
    ys := [x] + rest;
    SameMembers(xs, ys);
  }

  /** With everything mounted, an arrangement that mounts `child` before the directory `dir` it lies in: the text of
      `dir` is as long or longer, and `child` is listed first. */
  lemma LongSpellingGoesLater(xs: seq<PartInfo>, dir: PartInfo, child: PartInfo) returns (ys: seq<PartInfo>)
    requires AllMounted(xs) && dir in xs && child in xs && MountsPath(dir) && MountsPath(child)
    requires Above(PathOf(dir), PathOf(child)) && |PathOf(dir)| >= |PathOf(child)|
    ensures multiset(ys) == multiset(xs) && !ParentsFirst(SortMounts(ys))
  {
    ys := ListedFirst(xs, child);
    var i, j;
    if |PathOf(dir)| > |PathOf(child)| {
      i, j := LongerComesLater(ys, child, dir);
    } else {
      i, j := EqualLengthsKeepOrder(ys, dir);
    }
    InversionAt(SortMounts(ys), i, j);
  }

  lemma EqualLengthsKeepOrder(ys: seq<PartInfo>, later: PartInfo) returns (i: nat, j: nat)
    requires AllMounted(ys) && ys != [] && later in ys && later != ys[0] && MountLength(later) == MountLength(ys[0])
    ensures i < j < |SortMounts(ys)| && SortMounts(ys)[i] == ys[0] && SortMounts(ys)[j] == later
  {
    var has, s := Having(MountLength, MountLength(later)), SortMounts(ys);
    MountedSortIsStable(ys);
    SameMembers(ys, s);
    assert Filter(has, s) == Filter(has, ys) && Filter(has, ys)[0] == ys[0];
    i, j := FirstKeptComesFirst(has, s, later);
  }

  lemma SafeSortParentsFirst(xs: seq<PartInfo>, ys: seq<PartInfo>)
    requires SafeToSort(xs) && multiset(ys) == multiset(xs)
    ensures ParentsFirst(SortMounts(ys))
  {
    SameMembers(xs, ys);
    if AllMounted(xs) && SpelledInOrder(xs) {
      MountedSortParentsFirst(ys);
    } else {
      SameMembers(xs, SortMounts(ys));
    }
  }

  lemma UnsafeSort(xs: seq<PartInfo>) returns (ys: seq<PartInfo>)
    requires !SafeToSort(xs)
    ensures multiset(ys) == multiset(xs) && !ParentsFirst(SortMounts(ys))
  {
    if AllMounted(xs) {
      var dir, child :| dir in xs && child in xs && MountsPath(dir) && MountsPath(child)
        && Above(PathOf(dir), PathOf(child)) && |PathOf(dir)| >= |PathOf(child)|;
      ys := LongSpellingGoesLater(xs, dir, child);
    } else {
      var idle :| idle in xs && !Mounted(idle);
      var dir, child :| dir in xs && child in xs && MountsPath(dir) && MountsPath(child)
        && Above(PathOf(dir), PathOf(child));
      ys := BadArrangement(xs, dir, child, idle);
    }
  }

  /** The comparison ignores unmounted records and goes by the length of the text, so the sort is not always right.
      Exactly when is it, whatever order the records are listed in? When no mount point lies inside another, or
      when no record is left unmounted and every directory is spelled shorter than what lies inside it. */
  lemma ParentsFirstForEveryArrangement(xs: seq<PartInfo>)
    ensures (forall ys :: multiset(ys) == multiset(xs) ==> ParentsFirst(SortMounts(ys))) <==> SafeToSort(xs)
  {
    if SafeToSort(xs) {
      forall ys | multiset(ys) == multiset(xs) ensures ParentsFirst(SortMounts(ys)) {
        SafeSortParentsFirst(xs, ys);
      }
    } else {
      var ys := UnsafeSort(xs);
    }
  }

  ghost predicate PlainPaths(xs: seq<PartInfo>) {
    forall x :: x in xs && MountsPath(x) ==> Plain(PathOf(x))
  }

  /** When every mount point is spelled plainly, lengths are no concern. */
  lemma PlainForEveryArrangement(xs: seq<PartInfo>)
    requires PlainPaths(xs)
    ensures (forall ys :: multiset(ys) == multiset(xs) ==> ParentsFirst(SortMounts(ys)))
            <==> AllMounted(xs) || !HasNesting(xs)
  {
    forall a, b | a in xs && b in xs && MountsPath(a) && MountsPath(b) && Above(PathOf(a), PathOf(b))
      ensures |PathOf(a)| < |PathOf(b)|
    {
      PlainInsideIsLonger(PathOf(a), PathOf(b));
    }
    ParentsFirstForEveryArrangement(xs);
  }

  lemma UsrNames()
    ensures Tokens("/usr///", '/') == ["usr"]
  {
    assert "/usr///" == ['/'] + ("usr" + ['/'] + "//");
    TokensSkip("usr" + ['/'] + "//", '/');
    TokensOfField("usr", "//", '/');
    NoTokens("//", '/');
  }

  lemma UsrANames()
    ensures Tokens("/usr/a", '/') == ["usr", "a"]
  {
    assert "/usr/a" == ['/'] + ("usr" + ['/'] + "a");
    TokensSkip("usr" + ['/'] + "a", '/');
    TokensOfField("usr", "a", '/');
    TokensOfLast("a", '/');
  }

  lemma UsrSpellings()
    ensures Above("/usr///", "/usr/a")
  {
    UsrNames();
    UsrANames();
    WalkPlain(TARGET, ["usr"]);
    WalkPlain(TARGET, ["usr", "a"]);
    PrefixKept(TARGET, ["usr"], ["usr", "a"]);
  }

  lemma PrefixKept<T>(t: seq<T>, a: seq<T>, b: seq<T>)
    requires a < b
    ensures t + a < t + b
  {
  }

  lemma SortTwo(a: PartInfo, b: PartInfo)
    requires Mounted(a) && Mounted(b) && MountLength(b) < MountLength(a)
    ensures SortMounts([a, b]) == [b, a]
  {
    assert [a, b] == [a] + [b];
    SortHalves(CompareMountPoints, [a], [b]);
    SortOne(CompareMountPoints, a);
    SortOne(CompareMountPoints, b);
    MergeTwo(CompareMountPoints, a, b);
  }

  /** Two mounted partitions, one of them spelled with idle slashes: the sort mounts /usr/a and then, over it, the
      directory it lies in. */
  lemma SlashesHideTheChild(dir: PartInfo, child: PartInfo)
    requires dir.mount == Some("/usr///") && child.mount == Some("/usr/a") && MountsPath(dir) && MountsPath(child)
    ensures SortMounts([dir, child]) == [child, dir] && !ParentsFirst(SortMounts([dir, child]))
  {
    SortTwo(dir, child);
    UsrSpellings();
    InversionAt([child, dir], 0, 1);
  }

  ghost predicate RootFirst(xs: seq<PartInfo>) {
    forall i, j :: 0 <= i < j < |xs| && MountsPath(xs[i]) && MountsPath(xs[j]) && PathOf(xs[j]) == "/" ==>
      PathOf(xs[i]) == "/"
  }

  ghost predicate OthersAreLonger(xs: seq<PartInfo>) {
    forall x :: x in xs && MountsPath(x) ==> PathOf(x) == "/" || |PathOf(x)| >= 2
  }

  lemma RootFirstWhenOthersAreLonger(ys: seq<PartInfo>)
    requires AllMounted(ys) && OthersAreLonger(ys)
    ensures RootFirst(SortMounts(ys))
  {
    MountedSortIsStable(ys);
    var s := SortMounts(ys);
    SameMembers(ys, s);
    forall i, j | 0 <= i < j < |s| && MountsPath(s[i]) && PathOf(s[j]) == "/" ensures PathOf(s[i]) == "/" {
      AscendingAt(MountLength, s, i, j);
      assert s[i] in s;
    }
  }

  lemma EmptyMountGoesFirst(ys: seq<PartInfo>, x: PartInfo, root: PartInfo)
    requires AllMounted(ys) && root in ys && MountsPath(root) && PathOf(root) == "/"
    requires x in ys && MountsPath(x) && PathOf(x) == ""
    ensures !RootFirst(SortMounts(ys))
  {
    var s := SortMounts(ys);
    MountedSortIsStable(ys);
    SameMembers(ys, s);
    var i :| 0 <= i < |s| && s[i] == x;
    var j :| 0 <= j < |s| && s[j] == root;
    if j < i { AscendingAt(MountLength, s, j, i); }
    assert i < j && PathOf(s[j]) == "/" && PathOf(s[i]) != "/";
  }

  lemma ShortMountGoesFirst(ys: seq<PartInfo>, root: PartInfo)
    requires AllMounted(ys) && root in ys && MountsPath(root) && PathOf(root) == "/"
    requires MountsPath(ys[0]) && PathOf(ys[0]) != "/" && |PathOf(ys[0])| == 1
    ensures !RootFirst(SortMounts(ys))
  {
    var s := SortMounts(ys);
    var i, j := EqualLengthsKeepOrder(ys, root);
    assert i < j && PathOf(s[j]) == "/" && PathOf(s[i]) != "/";
  }

  lemma LongerMeansRootFirst(xs: seq<PartInfo>, ys: seq<PartInfo>)
    requires AllMounted(xs) && OthersAreLonger(xs) && multiset(ys) == multiset(xs)
    ensures RootFirst(SortMounts(ys))
  {
    SameMembers(xs, ys);
    RootFirstWhenOthersAreLonger(ys);
  }

  /** An arrangement that mounts a path of fewer than two characters before the root. */
  lemma ShortPathGoesFirst(xs: seq<PartInfo>, root: PartInfo) returns (ys: seq<PartInfo>)
    requires AllMounted(xs) && root in xs && MountsPath(root) && PathOf(root) == "/"
    requires !OthersAreLonger(xs)
    ensures multiset(ys) == multiset(xs) && !RootFirst(SortMounts(ys))
  {
    var x :| x in xs && MountsPath(x) && PathOf(x) != "/" && |PathOf(x)| < 2;
    var rest := TakeOut(xs, x);
    ys := [x] + rest;
    SameMembers(xs, ys);
    if PathOf(x) == "" {
      EmptyMountGoesFirst(ys, x, root);
    } else {
      ShortMountGoesFirst(ys, root);
    }
  }

  /** With everything mounted and a root among the paths, "/" is the first path mounted in every arrangement
      exactly when every other mount point has at least two characters: an empty entry, which
      set_mountpoint stores, or a one-letter one can be mounted before the root. */
  lemma RootFirstForEveryArrangement(xs: seq<PartInfo>, root: PartInfo)
    requires AllMounted(xs) && root in xs && MountsPath(root) && PathOf(root) == "/"
    ensures (forall ys :: multiset(ys) == multiset(xs) ==> RootFirst(SortMounts(ys))) <==> OthersAreLonger(xs)
  {
    if OthersAreLonger(xs) {
      forall ys | multiset(ys) == multiset(xs) ensures RootFirst(SortMounts(ys)) {
        LongerMeansRootFirst(xs, ys);
      }
    } else {
      var ys := ShortPathGoesFirst(xs, root);
    }
  }

  // ---- fstab ----

  const FIXED_LINES: seq<FstabLine> := [
    FstabLine("none", "/proc", "proc", "defaults", "0", "0"),
    FstabLine("none", "/sys", "sysfs", "defaults", "0", "0"),
    FstabLine("devpts", "/dev/pts", "devpts", "gid=5,mode=620", "0", "0"),
    FstabLine("usbfs", "/proc/bus/usb", "usbfs", "devgid=23,devmode=664", "0", "0"),
    FstabLine("tmpfs", "/dev/shm", "tmpfs", "defaults", "0", "0")]

  /** The line mountdev appends. `probe` is findmount: the type the kernel reports for a mounted device. */
  function LineOf(probe: string -> string): PartInfo -> FstabLine {
    (p: PartInfo) =>
      if WrittenAsSwap(p) then FstabLine(p.dev, "swap", "swap", "defaults", "0", "0")
      else FstabLine(p.dev, PathOf(p), probe(p.dev), "defaults", "1", "1")
  }

  function MountOf(p: PartInfo): (string, string) { (p.dev, PathOf(p)) }

  /** mountdev: one more fstab line and, unless the record is swap, one more mount. */
  method MountDev(info: PartInfo, isswap: bool, probe: string -> string, fstab: seq<FstabLine>,
      mounts: seq<(string, string)>)
    returns (fstab': seq<FstabLine>, mounts': seq<(string, string)>)
    requires isswap == WrittenAsSwap(info)
    ensures fstab' == fstab + [LineOf(probe)(info)]
    ensures mounts' == if isswap then mounts else mounts + [MountOf(info)]
  {
    if isswap {
      fstab' := fstab + [FstabLine(info.dev, "swap", "swap", "defaults", "0", "0")];
      mounts' := mounts;
    } else {
      mounts' := mounts + [(info.dev, info.mount.GetOr(""))];
      fstab' := fstab + [FstabLine(info.dev, info.mount.GetOr(""), probe(info.dev), "defaults", "1", "1")];
    }
  }

  ghost predicate PathsInOrder(mounts: seq<(string, string)>) {
    forall i, j :: 0 <= i < j < |mounts| ==> !Above(mounts[j].1, mounts[i].1)
  }

  lemma ConsInOrder(m: (string, string), rest: seq<(string, string)>)
    requires PathsInOrder(rest) && forall r :: r in rest ==> !Above(r.1, m.1)
    ensures PathsInOrder([m] + rest)
  {
    var all := [m] + rest;
    forall i, j | 0 <= i < j < |all| ensures !Above(all[j].1, all[i].1) {
      if i == 0 { assert rest[j - 1] in rest; }
    }
  }

  lemma HeadAboveRest(xs: seq<PartInfo>)
    requires xs != [] && ParentsFirst(xs) && MountsPath(xs[0])
    ensures forall m :: m in Map(MountOf, Filter(MountsPath, xs[1..])) ==> !Above(m.1, PathOf(xs[0]))
  {
    var kept := Filter(MountsPath, xs[1..]);
    forall m | m in Map(MountOf, kept) ensures !Above(m.1, PathOf(xs[0])) {
      var i :| 0 <= i < |kept| && MountOf(kept[i]) == m;
      assert kept[i] in kept;
      var k :| 0 <= k < |xs[1..]| && xs[1..][k] == kept[i];
      assert xs[k + 1] == kept[i];
    }
  }

  lemma {:induction false} FilterKeepsParentsFirst(xs: seq<PartInfo>)
    requires ParentsFirst(xs)
    ensures PathsInOrder(Map(MountOf, Filter(MountsPath, xs)))
  {
    if xs != [] {
      assert forall i, j :: 0 <= i < j < |xs[1..]| ==> xs[1..][i] == xs[i + 1] && xs[1..][j] == xs[j + 1];
      FilterKeepsParentsFirst(xs[1..]);
      if MountsPath(xs[0]) {
        HeadAboveRest(xs);
        MapUncons(MountOf, xs[0], Filter(MountsPath, xs[1..]));
        ConsInOrder(MountOf(xs[0]), Map(MountOf, Filter(MountsPath, xs[1..])));
      }
    }
  }

  /** Sorting only permutes: one line per mounted record, one mount per path. */
  lemma SortKeepsLinesAndMounts(xs: seq<PartInfo>, probe: string -> string)
    ensures multiset(Map(LineOf(probe), Filter(Mounted, SortMounts(xs))))
            == multiset(Map(LineOf(probe), Filter(Mounted, xs)))
    ensures multiset(Map(MountOf, Filter(MountsPath, SortMounts(xs)))) == multiset(Map(MountOf, Filter(MountsPath, xs)))
  {
    var s := SortMounts(xs);
    FilterPerm(Mounted, s, xs);
    FilterPerm(MountsPath, s, xs);
    MapPerm(LineOf(probe), Filter(Mounted, s), Filter(Mounted, xs));
    MapPerm(MountOf, Filter(MountsPath, s), Filter(MountsPath, xs));
  }

  lemma SortedMountsInOrder(xs: seq<PartInfo>)
    requires SafeToSort(xs)
    ensures PathsInOrder(Map(MountOf, Filter(MountsPath, SortMounts(xs))))
  {
    ParentsFirstForEveryArrangement(xs);
    FilterKeepsParentsFirst(SortMounts(xs));
  }

  method Gather(devices: seq<seq<PartInfo>>) returns (globallist: seq<PartInfo>)
    ensures globallist == Flatten(devices)
  {
    globallist := [];
    for i := 0 to |devices|
      invariant globallist == Flatten(devices[..i])
    {
      FlattenSnoc(devices[..i], devices[i]);
      assert devices[..i + 1] == devices[..i] + [devices[i]];
      globallist := globallist + devices[i];
    }
    assert devices[..|devices|] == devices;
  }

  lemma MapSnoc<S, T>(f: S -> T, xs: seq<S>, x: S)
    ensures Map(f, xs + [x]) == Map(f, xs) + [f(x)]
  {
  }

  lemma KeepStep<T>(keep: PartInfo -> bool, f: PartInfo -> T, done: seq<PartInfo>, info: PartInfo)
    ensures Map(f, Filter(keep, done + [info])) == Map(f, Filter(keep, done)) + (if keep(info) then [f(info)] else [])
  {
    var kept := Filter(keep, done);
    FilterSnoc(keep, done, info);
    MapSnoc(f, kept, info);
  }

  lemma MountStep(done: seq<PartInfo>, info: PartInfo, probe: string -> string)
    ensures Map(LineOf(probe), Filter(Mounted, done + [info]))
         == Map(LineOf(probe), Filter(Mounted, done)) + (if Mounted(info) then [LineOf(probe)(info)] else [])
    ensures Map(MountOf, Filter(MountsPath, done + [info]))
         == Map(MountOf, Filter(MountsPath, done)) + (if MountsPath(info) then [MountOf(info)] else [])
  {
    KeepStep(Mounted, LineOf(probe), done, info);
    KeepStep(MountsPath, MountOf, done, info);
  }

  method MountAll(globallist: seq<PartInfo>, probe: string -> string)
    returns (lines: seq<FstabLine>, mounts: seq<(string, string)>)
    ensures lines == Map(LineOf(probe), Filter(Mounted, globallist))
    ensures mounts == Map(MountOf, Filter(MountsPath, globallist))
  {
    lines, mounts := [], [];
    for i := 0 to |globallist|
      invariant lines == Map(LineOf(probe), Filter(Mounted, globallist[..i]))
      invariant mounts == Map(MountOf, Filter(MountsPath, globallist[..i]))
    {
      var info := globallist[i];
      TakeOne(globallist, i);
      MountStep(globallist[..i], info, probe);
      if info.mount.Some? {
        if info.mount.value == "swap" || info.fstype == "linux-swap" {
          lines, mounts := MountDev(info, true, probe, lines, mounts);
        } else {
          lines, mounts := MountDev(info, false, probe, lines, mounts);
        }
      }
    }
    TakeAll(globallist);
  }

  /** The lines of mounted paths; the others are swap. */
  predicate IsPathLine(l: FstabLine) { l.point != "swap" }
  predicate IsSwapLine(l: FstabLine) { l.point == "swap" }

  function DeviceOf(l: FstabLine): string { l.device }
  function DevOf(p: PartInfo): string { p.dev }

  predicate MountsSwap(p: PartInfo) { Mounted(p) && WrittenAsSwap(p) }

  /** The appended lines, field by field: a line for each mount, in order, with the device, the mount point and the
      type of what is mounted; and a swap line for each device that is swap by its mount or by its type. */
  ghost predicate LinesByField(xs: seq<PartInfo>, probe: string -> string, lines: seq<FstabLine>,
      mounts: seq<(string, string)>) {
    && |Filter(IsPathLine, lines)| == |mounts|
    && (forall i :: 0 <= i < |mounts| ==>
         var l := Filter(IsPathLine, lines)[i];
         l.device == mounts[i].0 && l.point == mounts[i].1 && l.fstype == probe(mounts[i].0)
         && l.options == "defaults" && l.dump == "1" && l.pass == "1")
    && (forall l :: l in Filter(IsSwapLine, lines) ==>
         l.fstype == "swap" && l.options == "defaults" && l.dump == "0" && l.pass == "0")
    && multiset(Map(DeviceOf, Filter(IsSwapLine, lines))) == multiset(Map(DevOf, Filter(MountsSwap, xs)))
    && (forall m :: m in mounts ==>
         exists x :: x in xs && x.dev == m.0 && x.mount == Some(m.1) && m.1 != "swap" && x.fstype != "linux-swap")
  }

  /** The five lines that do not come from a partition, field by field. */
  lemma FixedLines()
    ensures |FIXED_LINES| == 5
    ensures FIXED_LINES[0].point == "/proc" && FIXED_LINES[0].fstype == "proc" && FIXED_LINES[0].device == "none"
    ensures FIXED_LINES[1].point == "/sys" && FIXED_LINES[1].fstype == "sysfs" && FIXED_LINES[1].device == "none"
    ensures FIXED_LINES[2].point == "/dev/pts" && FIXED_LINES[2].fstype == "devpts" && FIXED_LINES[2].device == "devpts"
    ensures FIXED_LINES[3].point == "/proc/bus/usb" && FIXED_LINES[3].fstype == "usbfs"
            && FIXED_LINES[3].device == "usbfs"
    ensures FIXED_LINES[4].point == "/dev/shm" && FIXED_LINES[4].fstype == "tmpfs" && FIXED_LINES[4].device == "tmpfs"
    ensures FIXED_LINES[0].options == "defaults" && FIXED_LINES[1].options == "defaults"
            && FIXED_LINES[4].options == "defaults"
    ensures FIXED_LINES[2].options == "gid=5,mode=620" && FIXED_LINES[3].options == "devgid=23,devmode=664"
    ensures forall l :: l in FIXED_LINES ==> l.dump == "0" && l.pass == "0"
  {
  }

  lemma PathLines(sorted: seq<PartInfo>, probe: string -> string)
    ensures Filter(IsPathLine, Map(LineOf(probe), Filter(Mounted, sorted)))
            == Map(LineOf(probe), Filter(MountsPath, sorted))
  {
    FilterMap(LineOf(probe), IsPathLine, MountsPath, Filter(Mounted, sorted));
    FilterFilter(MountsPath, Mounted, MountsPath, sorted);
  }

  lemma SwapLines(sorted: seq<PartInfo>, probe: string -> string)
    ensures Filter(IsSwapLine, Map(LineOf(probe), Filter(Mounted, sorted)))
            == Map(LineOf(probe), Filter(MountsSwap, sorted))
  {
    FilterMap(LineOf(probe), IsSwapLine, MountsSwap, Filter(Mounted, sorted));
    FilterFilter(MountsSwap, Mounted, MountsSwap, sorted);
  }

  lemma SwapDevices(xs: seq<PartInfo>, sorted: seq<PartInfo>, probe: string -> string)
    requires multiset(sorted) == multiset(xs)
    ensures multiset(Map(DeviceOf, Map(LineOf(probe), Filter(MountsSwap, sorted))))
            == multiset(Map(DevOf, Filter(MountsSwap, xs)))
  {
    var kept := Filter(MountsSwap, sorted);
    assert Map(DeviceOf, Map(LineOf(probe), kept)) == Map(DevOf, kept);
    FilterPerm(MountsSwap, sorted, xs);
    MapPerm(DevOf, kept, Filter(MountsSwap, xs));
  }

  lemma MountsAreOf(xs: seq<PartInfo>, sorted: seq<PartInfo>)
    requires multiset(sorted) == multiset(xs)
    ensures forall m :: m in Map(MountOf, Filter(MountsPath, sorted)) ==>
              exists x :: x in xs && x.dev == m.0 && x.mount == Some(m.1) && m.1 != "swap" && x.fstype != "linux-swap"
  {
    SameMembers(sorted, xs);
    var kept := Filter(MountsPath, sorted);
    forall m | m in Map(MountOf, kept)
      ensures exists x :: x in xs && x.dev == m.0 && x.mount == Some(m.1) && m.1 != "swap" && x.fstype != "linux-swap"
    {
      var i :| 0 <= i < |kept| && MountOf(kept[i]) == m;
      assert kept[i] in kept && kept[i] in xs;
    }
  }

  lemma WrittenByField(xs: seq<PartInfo>, sorted: seq<PartInfo>, probe: string -> string)
    requires multiset(sorted) == multiset(xs)
    ensures LinesByField(xs, probe, Map(LineOf(probe), Filter(Mounted, sorted)),
            Map(MountOf, Filter(MountsPath, sorted)))
  {
    PathLines(sorted, probe);
    SwapLines(sorted, probe);
    SwapDevices(xs, sorted, probe);
    MountsAreOf(xs, sorted);
    var swaps := Map(LineOf(probe), Filter(MountsSwap, sorted));
    forall l | l in swaps ensures l.fstype == "swap" && l.options == "defaults" && l.dump == "0" && l.pass == "0" {
      var i :| 0 <= i < |swaps| && swaps[i] == l;
      assert Filter(MountsSwap, sorted)[i] in Filter(MountsSwap, sorted);
    }
    var paths := Filter(MountsPath, sorted);
    forall i | 0 <= i < |paths|
      ensures var l, m := LineOf(probe)(paths[i]), MountOf(paths[i]);
              l.device == m.0 && l.point == m.1 && l.fstype == probe(m.0)
              && l.options == "defaults" && l.dump == "1" && l.pass == "1"
    {
      assert paths[i] in paths;
    }
  }

  /** What run leaves behind for the gathered records `xs`: five fixed lines and one line per mounted record;
      the mounts are the path records in sorted order, each once, parents before children whenever the records
      are safe to sort. */
  ghost predicate WrittenFor(xs: seq<PartInfo>, probe: string -> string, fstab: seq<FstabLine>,
      mounts: seq<(string, string)>) {
    && |fstab| >= 5 && fstab[..5] == FIXED_LINES
    && multiset(fstab[5..]) == multiset(Map(LineOf(probe), Filter(Mounted, xs)))
    && mounts == Map(MountOf, Filter(MountsPath, SortMounts(xs)))
    && multiset(mounts) == multiset(Map(MountOf, Filter(MountsPath, xs)))
    && (SafeToSort(xs) ==> PathsInOrder(mounts))
  }

  /** partdisk.c, run: start the fstab, gather every device's partitions, sort them, mount them one by one. */
  method WriteFstab(devices: seq<seq<PartInfo>>, probe: string -> string)
    returns (fstab: seq<FstabLine>, mounts: seq<(string, string)>)
    ensures WrittenFor(Flatten(devices), probe, fstab, mounts)
    ensures LinesByField(Flatten(devices), probe, fstab[5..], mounts)
  {
    var globallist := Gather(devices);
    WrittenByField(globallist, SortMounts(globallist), probe);
    SortKeepsLinesAndMounts(globallist, probe);
    if SafeToSort(globallist) {
      SortedMountsInOrder(globallist);
    }
    globallist := Sort(CompareMountPoints, globallist);
    var lines;
    lines, mounts := MountAll(globallist, probe);
    fstab := FIXED_LINES + lines;
    assert fstab[5..] == lines;
  }
}
