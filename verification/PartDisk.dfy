/** partdisk.c, the page itself: what every button does to the partitions, as a function on values. */
module PartPage {
  import opened GLists
  import opened CStrings
  import opened Directories
  import opened ConfigStore
  import opened MountOrder

  datatype Answer = Yes | No | Dismissed

  /** How the format dialog ended; `succeeded` is whether mkfss returned 0. */
  datatype FormatChoice = CancelFormat | KeepFilesystem | MakeFilesystem(fs: string, succeeded: bool)

  /** A row of the partition view. */
  datatype Row = Row(name: string, fstype: string, mount: Option<string>)

  /** The page: every record ever made (the C heap), the per-device lists, the list on show, the root
      pointer, the view, and whether the Forward button is enabled. `P` is the identity of a record. */
  datatype Page<!P(==)> = Page(
    recs: map<P, PartInfo>,
    devices: seq<Entry<seq<P>>>,
    parts: seq<P>,
    root: Option<P>,
    view: seq<Row>,
    complete: bool)

  datatype Event<!P(==)> =
    | SetRoot(i: nat, answer: Answer, choice: FormatChoice)
    | SetSwap(i: nat, ok: bool)
    | SetMountpoint(i: nat, answer: Answer, text: Option<string>)
    | FormatPart(i: nat, choice: FormatChoice)
    | ChangeDevice(name: string)
    | RunGparted(answer: Answer, found: seq<Entry<seq<P>>>, raids: seq<P>, added: map<P, PartInfo>,
      first: Option<string>)
    | Prerun(found: seq<Entry<seq<P>>>, raids: seq<P>, added: map<P, PartInfo>, first: Option<string>)

  /** Every record the page points at exists. */
  predicate Closed<P>(s: Page<P>) {
    && (forall p | p in s.parts :: p in s.recs)
    && (forall k | 0 <= k < |s.devices| :: forall p | p in s.devices[k].data :: p in s.recs)
    && (s.root.Some? ==> s.root.value in s.recs)
  }

  function RowOf(info: PartInfo): Row { Row(info.dev, info.fstype, info.mount) }

  function Rows<P>(s: Page<P>): seq<Row>
    requires Closed(s)
  {
    seq(|s.parts|, i requires 0 <= i < |s.parts| => RowOf(s.recs[s.parts[i]]))
  }

  function Refresh<P>(s: Page<P>): (t: Page<P>)
    requires Closed(s)
    ensures Closed(t)
  {
    s.(view := Rows(s))
  }

  function WithMount<P>(s: Page<P>, p: P, mount: Option<string>): (t: Page<P>)
    requires Closed(s) && p in s.recs
    ensures Closed(t)
  {
    s.(recs := s.recs[p := s.recs[p].(mount := mount)])
  }

  function WithType<P>(s: Page<P>, p: P, fstype: string): (t: Page<P>)
    requires Closed(s) && p in s.recs
    ensures Closed(t)
  {
    s.(recs := s.recs[p := s.recs[p].(fstype := fstype)])
  }

  /** The record the search by device name ends on: the first match, or the last record when none matches. */
  function NamedPart<P>(recs: map<P, PartInfo>, parts: seq<P>, name: string): (r: Option<P>)
    requires forall p | p in parts :: p in recs
    ensures r.Some? ==> r.value in parts
  {
    if parts == [] then None
    else if recs[parts[0]].dev == name || |parts| == 1 then Some(parts[0])
    else NamedPart(recs, parts[1..], name)
  }

  function Retype<P>(s: Page<P>, name: string, fstype: string): (t: Page<P>)
    requires Closed(s)
    ensures Closed(t)
  {
    match NamedPart(s.recs, s.parts, name)
    case None => s
    case Some(p) => Refresh(WithType(s, p, fstype))
  }

  function Format<P>(s: Page<P>, name: string, choice: FormatChoice): (t: Page<P>)
    requires Closed(s)
    ensures Closed(t)
  {
    match choice
    case MakeFilesystem(fs, true) => Retype(s, name, fs)
    case _ => s
  }

  predicate Selectable<P>(s: Page<P>, i: nat) { i < |s.view| && i < |s.parts| }

  /** The old root gives up its mount point, the partition in row `i` takes it. */
  function MoveRoot<P>(s: Page<P>, i: nat): (t: Page<P>)
    requires Closed(s) && i < |s.parts|
    ensures Closed(t)
  {
    var cleared := if s.root.Some? then WithMount(s, s.root.value, None) else s;
    var p := s.parts[i];
    Refresh(WithMount(cleared, p, Some("/")).(root := Some(p), complete := true))
  }

  function AfterSetRoot<P>(s: Page<P>, i: nat, answer: Answer, choice: FormatChoice): (t: Page<P>)
    requires Closed(s)
    ensures Closed(t)
  {
    if !Selectable(s, i) then s
    else if s.root.Some? && answer == No then s
    else if choice == CancelFormat then s
    else MoveRoot(Format(s, s.view[i].name, choice), i)
  }

  function AfterSetSwap<P>(s: Page<P>, i: nat, ok: bool): (t: Page<P>)
    requires Closed(s)
    ensures Closed(t)
  {
    if !Selectable(s, i) || s.recs[s.parts[i]].mount == Some("/") || !ok then s
    else
      var f := Retype(s, s.view[i].name, "linux-swap");
      Refresh(WithMount(f, f.parts[i], Some("swap")))
  }

  function AfterSetMountpoint<P>(s: Page<P>, i: nat, answer: Answer, text: Option<string>): (t: Page<P>)
    requires Closed(s)
    ensures Closed(t)
  {
    if !Selectable(s, i) || s.view[i].mount == Some("/") then s
    else if s.view[i].mount == Some("swap") && answer == No then s
    else if text == None || text == Some("/") || text == Some("swap") then Refresh(s)
    else Refresh(WithMount(s, s.parts[i], text))
  }

  function AfterFormatPart<P>(s: Page<P>, i: nat, choice: FormatChoice): (t: Page<P>)
    requires Closed(s)
    ensures Closed(t)
  {
    if !Selectable(s, i) then s else Format(s, s.view[i].name, choice)
  }

  function AfterChangeDevice<P>(s: Page<P>, name: string): (t: Page<P>)
    requires Closed(s)
    ensures Closed(t)
  {
    Refresh(if s.devices == [] then s else s.(parts := Get(s.devices, name).GetOr([])))
  }

  /** The lists of the disks. What is still in `parts` when the first disk is listed ends up at the front of its
      list. */
  function Joined<P>(base: seq<P>, found: seq<Entry<seq<P>>>): seq<Entry<seq<P>>> {
    if found == [] then [] else [Entry(found[0].name, base + found[0].data)] + found[1..]
  }

  /** The records that survive a detection in `parts`: none when there were lists to throw away, else all. */
  function Kept<P>(s: Page<P>): seq<P> { if s.devices != [] then [] else s.parts }

  lemma JoinedCloses<P>(s: Page<P>, found: seq<Entry<seq<P>>>, raids: seq<P>, added: map<P, PartInfo>)
    requires Closed(s) && Supplies(found, raids, added)
    ensures var devices := Joined(Kept(s), found);
            forall k | 0 <= k < |devices| :: forall p | p in devices[k].data :: p in s.recs + added
  {
    var devices := Joined(Kept(s), found);
    forall k | 0 <= k < |devices| ensures forall p | p in devices[k].data :: p in s.recs + added {
      assert devices[k].data == if k == 0 then Kept(s) + found[0].data else found[k].data;
    }
  }

  /** detect_parts: the old lists are thrown away and new records made, those of the software RAIDs last; the RAID
      records stay in `parts`. The root pointer is not touched. */
  function AfterDetect<P>(s: Page<P>, found: seq<Entry<seq<P>>>, raids: seq<P>, added: map<P, PartInfo>): (t: Page<P>)
    requires Closed(s) && Supplies(found, raids, added)
    ensures Closed(t)
  {
    JoinedCloses(s, found, raids, added);
    s.(recs := s.recs + added,
       devices := Joined(Kept(s), found),
       parts := (if found == [] then Kept(s) else []) + raids,
       view := if s.devices != [] then [] else s.view)
  }

  function ShowFirst<P>(s: Page<P>, first: Option<string>): (t: Page<P>)
    requires Closed(s)
    ensures Closed(t)
  {
    if first.Some? then AfterChangeDevice(s, first.value) else s
  }

  function AfterGparted<P>(s: Page<P>, answer: Answer, found: seq<Entry<seq<P>>>, raids: seq<P>, added: map<P,
      PartInfo>,
      first: Option<string>): (t: Page<P>)
    requires Closed(s) && Supplies(found, raids, added)
    ensures Closed(t)
  {
    if answer != Yes then s
    else ShowFirst(AfterDetect(s, found, raids, added), first).(complete := false)
  }

  function AfterPrerun<P>(s: Page<P>, found: seq<Entry<seq<P>>>, raids: seq<P>, added: map<P, PartInfo>,
      first: Option<string>): (t: Page<P>)
    requires Closed(s) && Supplies(found, raids, added)
    ensures Closed(t)
  {
    if s.devices != [] then s else ShowFirst(AfterDetect(s, found, raids, added), first)
  }

  predicate Supplies<P>(found: seq<Entry<seq<P>>>, raids: seq<P>, added: map<P, PartInfo>) {
    && (forall k | 0 <= k < |found| :: forall p | p in found[k].data :: p in added)
    && (forall p | p in raids :: p in added)
  }

  /** A detection allocates: its records are new, unmounted, and each is listed once. */
  ghost predicate FreshDetection<P>(s: Page<P>, found: seq<Entry<seq<P>>>, raids: seq<P>, added: map<P, PartInfo>) {
    && Supplies(found, raids, added)
    && added.Keys !! s.recs.Keys
    && (forall p | p in added :: added[p].mount == None)
    && NoDup(OnLists(found) + raids)
  }

  /** A detection that finds a disk's list is followed by showing one. */
  ghost predicate Possible<P>(s: Page<P>, e: Event<P>) {
    match e
    case RunGparted(_, found, raids, added, first) =>
      FreshDetection(s, found, raids, added) && (found != [] ==> first.Some?)
    case Prerun(found, raids, added, first) =>
      FreshDetection(s, found, raids, added) && (found != [] ==> first.Some?)
    case _ => true
  }

  function Step<P>(s: Page<P>, e: Event<P>): (t: Page<P>)
    requires Closed(s)
    requires e.RunGparted? || e.Prerun? ==> Supplies(e.found, e.raids, e.added)
    ensures Closed(t)
  {
    match e
    case SetRoot(i, answer, choice) => AfterSetRoot(s, i, answer, choice)
    case SetSwap(i, ok) => AfterSetSwap(s, i, ok)
    case SetMountpoint(i, answer, text) => AfterSetMountpoint(s, i, answer, text)
    case FormatPart(i, choice) => AfterFormatPart(s, i, choice)
    case ChangeDevice(name) => AfterChangeDevice(s, name)
    case RunGparted(answer, found, raids, added, first) => AfterGparted(s, answer, found, raids, added, first)
    case Prerun(found, raids, added, first) => AfterPrerun(s, found, raids, added, first)
  }

  // ---- the invariant ----

  function OnLists<P>(devices: seq<Entry<seq<P>>>): seq<P> {
    Flatten(Map((e: Entry<seq<P>>) => e.data, devices))
  }

  /** The record is on some device's list: it will be considered by run. */
  predicate Live<P(==)>(s: Page<P>, p: P) {
    exists k :: 0 <= k < |s.devices| && p in s.devices[k].data
  }

  /** The record can be seen on the page: it is live, or it is on show while no disk has a list. */
  predicate Present<P(==)>(s: Page<P>, p: P) { Live(s, p) || (s.devices == [] && p in s.parts) }

  predicate IsRoot<P>(s: Page<P>, p: P) {
    p in s.recs && Present(s, p) && s.recs[p].mount == Some("/")
  }

  /** Each row of the view shows the record of the list that it stands for. */
  predicate ViewAgrees<P>(s: Page<P>)
    requires Closed(s)
  {
    |s.view| <= |s.parts| && forall i :: 0 <= i < |s.view| ==> s.view[i] == RowOf(s.recs[s.parts[i]])
  }

  /** What every event keeps:
      the list on show is present, the view agrees with it, a present partition mounted at "/" is the one the root
      pointer names, a complete page has such a partition, and no record is listed twice. */
  ghost predicate Inv<P>(s: Page<P>) {
    && Closed(s)
    && (forall p | p in s.parts :: Present(s, p))
    && ViewAgrees(s)
    && (forall p | p in s.recs :: IsRoot(s, p) ==> s.root == Some(p))
    && (s.complete ==> s.root.Some? && IsRoot(s, s.root.value))
    && NoDup(OnLists(s.devices))
    && (s.devices == [] ==> NoDup(s.parts))
  }

  lemma RetypeRecords<P>(s: Page<P>, name: string, fstype: string)
    requires Closed(s)
    ensures var t := Retype(s, name, fstype);
            t.root == s.root && t.parts == s.parts && t.devices == s.devices && t.complete == s.complete
            && t.recs.Keys == s.recs.Keys
            && forall p | p in s.recs :: t.recs[p].mount == s.recs[p].mount && t.recs[p].dev == s.recs[p].dev
  {
  }

  lemma RetypeKeeps<P>(s: Page<P>, name: string, fstype: string)
    requires Inv(s)
    ensures var t := Retype(s, name, fstype);
            Inv(t) && t.root == s.root && t.parts == s.parts && t.devices == s.devices && t.recs.Keys == s.recs.Keys
            && forall p | p in s.recs :: t.recs[p].mount == s.recs[p].mount && t.recs[p].dev == s.recs[p].dev
  {
    RetypeRecords(s, name, fstype);
    SameMountsKeep(s, Retype(s, name, fstype));
  }

  /** A page that differs only in types and shows its list keeps the invariant. */
  lemma SameMountsKeep<P>(s: Page<P>, t: Page<P>)
    requires Inv(s) && Closed(t) && ViewAgrees(t)
    requires t.root == s.root && t.parts == s.parts && t.devices == s.devices && t.complete == s.complete
    requires t.recs.Keys == s.recs.Keys && forall p | p in s.recs :: t.recs[p].mount == s.recs[p].mount
    ensures Inv(t)
  {
    assert forall p | p in s.recs :: Present(t, p) == Present(s, p);
    assert forall p | p in s.recs :: IsRoot(t, p) == IsRoot(s, p);
  }

  /** After the root has moved to row `i`, its partition is the one root on the page and the page is complete. */
  lemma MoveRootKeeps<P>(s: Page<P>, i: nat)
    requires Inv(s) && i < |s.parts|
    ensures var p, t := s.parts[i], MoveRoot(s, i);
            && Inv(t) && t.complete && t.root == Some(p)
            && forall q | q in t.recs :: IsRoot(t, q) <==> q == p
  {
    var t, p := MoveRoot(s, i), s.parts[i];
    assert t.recs.Keys == s.recs.Keys;
    assert Present(s, p);
    assert forall q | q in s.recs :: Present(t, q) == Present(s, q);
    forall q | q in t.recs && IsRoot(t, q) ensures q == p {
      assert IsRoot(s, q) ==> s.root == Some(q);
    }
    assert IsRoot(t, p);
  }

  lemma SetRootKeeps<P>(s: Page<P>, i: nat, answer: Answer, choice: FormatChoice)
    requires Inv(s)
    ensures Inv(AfterSetRoot(s, i, answer, choice))
  {
    if AfterSetRoot(s, i, answer, choice) != s {
      if choice.MakeFilesystem? { RetypeKeeps(s, s.view[i].name, choice.fs); }
      MoveRootKeeps(Format(s, s.view[i].name, choice), i);
    }
  }

  lemma OtherMountKeeps<P>(s: Page<P>, p: P, mount: Option<string>)
    requires Inv(s) && p in s.recs && s.recs[p].mount != Some("/") && mount != Some("/")
    ensures Inv(Refresh(WithMount(s, p, mount)))
  {
    var t := Refresh(WithMount(s, p, mount));
    assert forall q | q in s.recs :: Present(t, q) == Present(s, q);
    assert forall q | q in s.recs :: IsRoot(t, q) == IsRoot(s, q);
  }

  lemma SetSwapKeeps<P>(s: Page<P>, i: nat, ok: bool)
    requires Inv(s)
    ensures Inv(AfterSetSwap(s, i, ok))
  {
    if AfterSetSwap(s, i, ok) != s {
      RetypeKeeps(s, s.view[i].name, "linux-swap");
      OtherMountKeeps(Retype(s, s.view[i].name, "linux-swap"), s.parts[i], Some("swap"));
    }
  }

  /** The guard reads the view; that it protects the root partition rests on the view showing the list. */
  lemma SetMountpointKeeps<P>(s: Page<P>, i: nat, answer: Answer, text: Option<string>)
    requires Inv(s)
    ensures Inv(AfterSetMountpoint(s, i, answer, text))
  {
    if Selectable(s, i) && s.view[i].mount != Some("/") {
      RefreshKeeps(s);
      assert s.view[i] == RowOf(s.recs[s.parts[i]]);
      if text != Some("/") { OtherMountKeeps(s, s.parts[i], text); }
    }
  }

  lemma FoundAreLive<P>(s: Page<P>, name: string)
    requires Get(s.devices, name).Some?
    ensures forall p | p in Get(s.devices, name).value :: Live(s, p)
  {
    var k := Find(s.devices, name);
    assert s.devices[k].data == Get(s.devices, name).value;
  }

  lemma RefreshKeeps<P>(s: Page<P>)
    requires Inv(s)
    ensures Inv(Refresh(s))
  {
    assert forall p | p in s.recs :: Present(Refresh(s), p) == Present(s, p);
  }

  lemma ChangeDeviceKeeps<P>(s: Page<P>, name: string)
    requires Inv(s)
    ensures Inv(AfterChangeDevice(s, name))
  {
    if s.devices == [] {
      RefreshKeeps(s);
    } else {
      ShowAList(s, name);
    }
  }

  /** The part of the invariant that does not speak of the list on show. */
  ghost predicate ListsInv<P>(s: Page<P>) {
    && Closed(s)
    && (forall p | p in s.recs && Live(s, p) && s.recs[p].mount == Some("/") :: s.root == Some(p))
    && (s.complete ==> s.root.Some? && Live(s, s.root.value) && s.recs[s.root.value].mount == Some("/"))
    && NoDup(OnLists(s.devices))
  }

  lemma ShowAList<P>(s: Page<P>, name: string)
    requires ListsInv(s) && s.devices != []
    ensures Inv(AfterChangeDevice(s, name))
  {
    var t := AfterChangeDevice(s, name);
    if Get(s.devices, name).Some? { FoundAreLive(s, name); }
    assert forall p | p in s.recs :: Live(t, p) == Live(s, p);
  }

  lemma OnListsJoined<P>(base: seq<P>, found: seq<Entry<seq<P>>>)
    ensures OnLists(Joined(base, found)) == if found == [] then [] else base + OnLists(found)
  {
    var data := (e: Entry<seq<P>>) => e.data;
    if found != [] {
      var first := Entry(found[0].name, base + found[0].data);
      MapUncons(data, first, found[1..]);
      MapUncons(data, found[0], found[1..]);
      Uncons(found);
      FlattenCons(base + found[0].data, Map(data, found[1..]));
      FlattenCons(found[0].data, Map(data, found[1..]));
      Assoc(base, found[0].data, Flatten(Map(data, found[1..])));
    }
  }

  lemma JoinedNothing<P>(found: seq<Entry<seq<P>>>)
    ensures Joined([], found) == found
  {
    if found != [] {
      assert [] + found[0].data == found[0].data;
      Uncons(found);
    }
  }

  lemma NoDupAppend<T>(a: seq<T>, b: seq<T>)
    requires NoDup(a) && NoDup(b)
    requires forall x | x in a :: x !in b
    ensures NoDup(a + b)
  {
    forall i, j | 0 <= i < j < |a + b| ensures (a + b)[i] != (a + b)[j] {
      if i < |a| <= j { assert a[i] in a && b[j - |a|] in b; }
    }
  }

  lemma NoDupParts<T>(a: seq<T>, b: seq<T>)
    requires NoDup(a + b)
    ensures NoDup(a) && NoDup(b)
  {
    assert forall i :: 0 <= i < |a| ==> (a + b)[i] == a[i];
    assert forall i :: 0 <= i < |b| ==> (a + b)[|a| + i] == b[i];
  }

  lemma FoundAreAdded<P>(found: seq<Entry<seq<P>>>, raids: seq<P>, added: map<P, PartInfo>)
    requires Supplies(found, raids, added)
    ensures forall p | p in OnLists(found) :: p in added
  {
    var data := (e: Entry<seq<P>>) => e.data;
    forall p | p in OnLists(found) ensures p in added {
      var k :| 0 <= k < |found| && p in Map(data, found)[k];
      assert p in found[k].data;
    }
  }

  lemma JoinedNoDup<P>(s: Page<P>, found: seq<Entry<seq<P>>>, raids: seq<P>, added: map<P, PartInfo>)
    requires Inv(s) && FreshDetection(s, found, raids, added)
    ensures NoDup(OnLists(Joined(Kept(s), found))) && NoDup(Kept(s) + raids)
  {
    OnListsJoined(Kept(s), found);
    NoDupParts(OnLists(found), raids);
    FoundAreAdded(found, raids, added);
    NoDupAppend(Kept(s), OnLists(found));
    NoDupAppend(Kept(s), raids);
  }

  /** What a detection leaves mounted at "/": nothing, except a RAID partition that was the root already. */
  lemma DetectResets<P>(s: Page<P>, found: seq<Entry<seq<P>>>, raids: seq<P>, added: map<P, PartInfo>)
    requires Inv(s) && FreshDetection(s, found, raids, added)
    ensures var t := AfterDetect(s, found, raids, added);
            forall p | p in t.recs && t.recs[p].mount == Some("/") && (Live(t, p) || p in t.parts) ::
              s.root == Some(p) && s.devices == [] && p in s.parts
  {
    var t := AfterDetect(s, found, raids, added);
    forall p | p in t.recs && t.recs[p].mount == Some("/") && (Live(t, p) || p in t.parts)
      ensures s.root == Some(p) && s.devices == [] && p in s.parts
    {
      assert p !in added;
      if Live(t, p) {
        OnListsAreLive(t, p);
        OnListsJoined(Kept(s), found);
        FoundAreAdded(found, raids, added);
      }
      assert p in Kept(s);
      assert IsRoot(s, p);
    }
  }

  /** A complete page stays so through a detection only while no disk had a list. */
  predicate MayStayComplete<P>(s: Page<P>, complete: bool) { complete ==> s.complete && s.devices == [] }

  lemma KeptAreLive<P>(s: Page<P>, found: seq<Entry<seq<P>>>, raids: seq<P>, added: map<P, PartInfo>)
    requires Closed(s) && Supplies(found, raids, added) && found != []
    ensures forall p | p in Kept(s) :: Live(AfterDetect(s, found, raids, added), p)
  {
    var t := AfterDetect(s, found, raids, added);
    assert t.devices[0].data == Kept(s) + found[0].data;
  }

  lemma DetectedLists<P>(s: Page<P>, found: seq<Entry<seq<P>>>, raids: seq<P>, added: map<P, PartInfo>, complete: bool)
    requires Inv(s) && FreshDetection(s, found, raids, added) && MayStayComplete(s, complete) && found != []
    ensures ListsInv(AfterDetect(s, found, raids, added).(complete := complete))
  {
    var u := AfterDetect(s, found, raids, added);
    var t := u.(complete := complete);
    JoinedNoDup(s, found, raids, added);
    DetectResets(s, found, raids, added);
    KeptAreLive(s, found, raids, added);
    assert forall p | p in t.recs :: Live(t, p) == Live(u, p);
    if complete {
      assert s.root.value in Kept(s) && s.root.value !in added;
    }
  }

  lemma DetectedNothing<P>(s: Page<P>, raids: seq<P>, added: map<P, PartInfo>, complete: bool)
    requires Inv(s) && FreshDetection(s, [], raids, added) && MayStayComplete(s, complete)
    ensures Inv(AfterDetect(s, [], raids, added).(complete := complete))
  {
    var u := AfterDetect(s, [], raids, added);
    var t := u.(complete := complete);
    JoinedNoDup(s, [], raids, added);
    DetectResets(s, [], raids, added);
    forall p | p in t.recs && IsRoot(t, p) ensures t.root == Some(p) {
      assert !Live(t, p);
    }
    if complete {
      assert !Live(s, s.root.value);
      assert s.root.value in Kept(s) && s.root.value !in added;
    }
  }

  lemma DetectKeeps<P>(s: Page<P>, found: seq<Entry<seq<P>>>, raids: seq<P>, added: map<P, PartInfo>,
      first: Option<string>, complete: bool)
    requires Inv(s) && FreshDetection(s, found, raids, added) && MayStayComplete(s, complete)
    requires found != [] ==> first.Some?
    ensures Inv(ShowFirst(AfterDetect(s, found, raids, added), first).(complete := complete))
  {
    var u := AfterDetect(s, found, raids, added);
    var t := u.(complete := complete);
    if found == [] {
      DetectedNothing(s, raids, added, complete);
      if first.Some? { ChangeDeviceKeeps(t, first.value); }
    } else {
      DetectedLists(s, found, raids, added, complete);
      ShowAList(t, first.value);
    }
    assert ShowFirst(u, first).(complete := complete) == ShowFirst(t, first);
  }

  /** One event, any event: the invariant survives. */
  lemma StepKeepsInvariant<P>(s: Page<P>, e: Event<P>)
    requires Inv(s) && Possible(s, e)
    ensures Inv(Step(s, e))
  {
    match e
    case SetRoot(i, answer, choice) => SetRootKeeps(s, i, answer, choice);
    case SetSwap(i, ok) => SetSwapKeeps(s, i, ok);
    case SetMountpoint(i, answer, text) => SetMountpointKeeps(s, i, answer, text);
    case FormatPart(i, choice) =>
      if Selectable(s, i) && choice.MakeFilesystem? { RetypeKeeps(s, s.view[i].name, choice.fs); }
    case ChangeDevice(name) => ChangeDeviceKeeps(s, name);
    case RunGparted(answer, found, raids, added, first) =>
      if answer == Yes { DetectKeeps(s, found, raids, added, first, false); }
    case Prerun(found, raids, added, first) =>
      if s.devices == [] {
        DetectKeeps(s, found, raids, added, first, s.complete);
        var t := AfterPrerun(s, found, raids, added, first);
        assert t.(complete := s.complete) == t;
      }
  }

  // ---- whole runs ----

  function Start<P>(): (s: Page<P>)
    ensures Inv(s)
  {
    var s: Page<P> := Page(map[], [], [], None, [], false);
    assert Map((e: Entry<seq<P>>) => e.data, s.devices) == [];
    s
  }

  ghost predicate PossibleRun<P>(s: Page<P>, es: seq<Event<P>>)
    requires Closed(s)
    decreases |es|
  {
    es == [] || (Possible(s, es[0]) && PossibleRun(Step(s, es[0]), es[1..]))
  }

  ghost function Run<P>(s: Page<P>, es: seq<Event<P>>): (t: Page<P>)
    requires Closed(s) && PossibleRun(s, es)
    ensures Closed(t)
    decreases |es|
  {
    if es == [] then s else Run(Step(s, es[0]), es[1..])
  }

  lemma {:induction false} RunKeepsInvariant<P>(s: Page<P>, es: seq<Event<P>>)
    requires Inv(s) && PossibleRun(s, es)
    ensures Inv(Run(s, es))
    decreases |es|
  {
    if es != [] {
      StepKeepsInvariant(s, es[0]);
      RunKeepsInvariant(Step(s, es[0]), es[1..]);
    }
  }

  // ---- what run writes at the end of a run ----

  /** The partition data run gathers: every device's list, in order. */
  function DeviceInfos<P>(s: Page<P>): seq<seq<PartInfo>>
    requires Closed(s)
  {
    Map((e: Entry<seq<P>>) => InfosOf(s.recs, e.data), s.devices)
  }

  function InfosOf<P>(recs: map<P, PartInfo>, ps: seq<P>): seq<PartInfo> {
    seq(|ps|, i requires 0 <= i < |ps| => if ps[i] in recs then recs[ps[i]] else PartInfo("", None, ""))
  }

  predicate IsRootInfo(info: PartInfo) { info.mount == Some("/") }

  lemma {:induction false} InfosOfLists<P>(recs: map<P, PartInfo>, devices: seq<Entry<seq<P>>>)
    ensures Flatten(Map((e: Entry<seq<P>>) => InfosOf(recs, e.data), devices)) == InfosOf(recs, OnLists(devices))
  {
    var data := (e: Entry<seq<P>>) => e.data;
    var infos := (e: Entry<seq<P>>) => InfosOf(recs, e.data);
    if devices != [] {
      InfosOfLists(recs, devices[1..]);
      assert Map(data, devices)[1..] == Map(data, devices[1..]);
      assert Map(infos, devices)[1..] == Map(infos, devices[1..]);
      assert InfosOf(recs, devices[0].data + OnLists(devices[1..]))
          == InfosOf(recs, devices[0].data) + InfosOf(recs, OnLists(devices[1..]));
    }
  }

  lemma {:induction false} OneRootInfo<P>(recs: map<P, PartInfo>, ps: seq<P>, root: P)
    requires NoDup(ps)
    requires forall p | p in ps :: p in recs && (recs[p].mount == Some("/") <==> p == root)
    ensures Filter(IsRootInfo, InfosOf(recs, ps)) == if root in ps then [recs[root]] else []
  {
    if ps != [] {
      var t := ps[1..];
      assert InfosOf(recs, ps)[1..] == InfosOf(recs, t);
      assert InfosOf(recs, ps)[0] == recs[ps[0]];
      assert ps[0] in ps;
      OneRootInfo(recs, t, root);
      if ps[0] == root {
        assert forall i :: 0 <= i < |t| ==> t[i] == ps[i + 1];
        assert root !in t;
      }
    }
  }

  lemma {:induction false} NoRootInfo<P>(recs: map<P, PartInfo>, ps: seq<P>)
    requires forall p | p in ps :: p in recs && recs[p].mount != Some("/")
    ensures Filter(IsRootInfo, InfosOf(recs, ps)) == []
  {
    if ps != [] {
      assert InfosOf(recs, ps)[1..] == InfosOf(recs, ps[1..]);
      assert ps[0] in ps;
      NoRootInfo(recs, ps[1..]);
    }
  }

  lemma OnListsAreLive<P>(s: Page<P>, p: P)
    requires Closed(s)
    ensures p in OnLists(s.devices) <==> p in s.recs && Live(s, p)
  {
    var data := (e: Entry<seq<P>>) => e.data;
    if p in OnLists(s.devices) {
      var k :| 0 <= k < |s.devices| && p in Map(data, s.devices)[k];
      assert p in s.devices[k].data;
    }
    if p in s.recs && Live(s, p) {
      var k :| 0 <= k < |s.devices| && p in s.devices[k].data;
      assert p in Map(data, s.devices)[k];
    }
  }

  /** The root pointer names a live partition mounted at "/". */
  predicate RootIsLive<P>(s: Page<P>) {
    s.root.Some? && s.root.value in s.recs && Live(s, s.root.value) && s.recs[s.root.value].mount == Some("/")
  }

  /** The gathered records hold exactly one root when the root pointer names a live one, and none otherwise. On a
      complete page it does exactly when some disk has a list: else the root is a RAID partition. */
  lemma GatheredRoot<P>(s: Page<P>)
    requires Inv(s)
    ensures Filter(IsRootInfo, Flatten(DeviceInfos(s))) == if RootIsLive(s) then [s.recs[s.root.value]] else []
    ensures s.complete ==> (RootIsLive(s) <==> s.devices != [])
  {
    InfosOfLists(s.recs, s.devices);
    var ps := OnLists(s.devices);
    forall p | p in ps ensures p in s.recs && Live(s, p) { OnListsAreLive(s, p); }
    assert forall p | p in ps && s.recs[p].mount == Some("/") :: IsRoot(s, p);
    if RootIsLive(s) {
      OnListsAreLive(s, s.root.value);
      OneRootInfo(s.recs, ps, s.root.value);
    } else {
      NoRootInfo(s.recs, ps);
    }
  }

  /** A mount on the target directory itself, however it is spelled. */
  predicate AtRoot(m: (string, string)) { MountedOn(m.1) == TARGET }

  predicate MountsAtRoot(info: PartInfo) { MountsPath(info) && MountedOn(PathOf(info)) == TARGET }

  predicate MountsSlash(info: PartInfo) { MountsPath(info) && IsRootInfo(info) }

  /** Mounted on the target directory without being the root partition: an empty entry, slashes, "/." */
  predicate Stray(info: PartInfo) { MountsAtRoot(info) && !IsRootInfo(info) }

  lemma SlashIsTheRoot()
    ensures MountedOn("/") == TARGET && MountedOn("") == TARGET
  {
    SlashesAreTheRoot("/");
    SlashesAreTheRoot("");
  }

  lemma {:induction false} CountSplit<T>(p: T -> bool, q: T -> bool, r: T -> bool, xs: seq<T>)
    requires forall x :: x in xs ==> (p(x) <==> q(x) || r(x)) && !(q(x) && r(x))
    ensures |Filter(p, xs)| == |Filter(q, xs)| + |Filter(r, xs)|
  {
    if xs != [] {
      assert xs[0] in xs && forall x :: x in xs[1..] ==> x in xs;
      CountSplit(p, q, r, xs[1..]);
    }
  }

  lemma CountOfPerm<T(!new)>(keep: T -> bool, a: seq<T>, b: seq<T>)
    requires multiset(a) == multiset(b)
    ensures |Filter(keep, a)| == |Filter(keep, b)|
  {
    FilterPerm(keep, a, b);
    assert |multiset(Filter(keep, a))| == |Filter(keep, a)| && |multiset(Filter(keep, b))| == |Filter(keep, b)|;
  }

  /** The mounts on the target directory come from the root partition and from strays. */
  lemma RootMountsOf(xs: seq<PartInfo>)
    ensures |Filter(AtRoot, Map(MountOf, Filter(MountsPath, xs)))| == |Filter(MountsSlash, xs)| + |Filter(Stray, xs)|
  {
    FilterMap(MountOf, AtRoot, MountsAtRoot, Filter(MountsPath, xs));
    FilterFilter(MountsAtRoot, MountsPath, MountsAtRoot, xs);
    SlashIsTheRoot();
    CountSplit(MountsAtRoot, MountsSlash, Stray, xs);
  }

  /** The commands run issues for a page: one mount per path, sorted. */
  function MountsOf<P>(s: Page<P>): seq<(string, string)>
    requires Closed(s)
  {
    Map(MountOf, Filter(MountsPath, SortMounts(Flatten(DeviceInfos(s)))))
  }

  predicate RootIsSwap<P>(s: Page<P>) {
    s.root.Some? && s.root.value in s.recs && s.recs[s.root.value].fstype == "linux-swap"
  }

  lemma {:induction false} FilterSingle<T>(p: T -> bool, x: T)
    ensures Filter(p, [x]) == if p(x) then [x] else []
  {
    assert [x][1..] == [];
  }

  lemma SlashOf(all: seq<PartInfo>, roots: seq<PartInfo>)
    requires roots == Filter(IsRootInfo, all)
    ensures Filter(MountsSlash, all) == Filter(MountsPath, roots)
  {
    FilterFilter(MountsPath, IsRootInfo, MountsSlash, all);
  }

  lemma SlashCount<P>(s: Page<P>)
    requires Inv(s)
    ensures |Filter(MountsSlash, Flatten(DeviceInfos(s)))| == if RootIsLive(s) && !RootIsSwap(s) then 1 else 0
  {
    GatheredRoot(s);
    var roots := if RootIsLive(s) then [s.recs[s.root.value]] else [];
    SlashOf(Flatten(DeviceInfos(s)), roots);
    if RootIsLive(s) { FilterSingle(MountsPath, s.recs[s.root.value]); }
  }

  /** The mounts on the target directory that are due to the root partition. */
  function OfTheRoot<P>(s: Page<P>): nat { if RootIsLive(s) && !RootIsSwap(s) then 1 else 0 }

  lemma RootMountCount<P>(s: Page<P>)
    requires Inv(s)
    ensures |Filter(AtRoot, MountsOf(s))| == OfTheRoot(s) + |Filter(Stray, Flatten(DeviceInfos(s)))|
  {
    var all := Flatten(DeviceInfos(s));
    RootMountsOf(SortMounts(all));
    CountOfPerm(MountsSlash, SortMounts(all), all);
    CountOfPerm(Stray, SortMounts(all), all);
    SlashCount(s);
  }

  /** No partition of any device is a stray. */
  ghost predicate NoStray<P>(s: Page<P>)
    requires Closed(s)
  {
    forall p | p in s.recs && Live(s, p) :: !Stray(s.recs[p])
  }

  lemma StraysAreLive<P>(s: Page<P>)
    requires Closed(s)
    ensures Filter(Stray, Flatten(DeviceInfos(s))) == [] <==> NoStray(s)
  {
    InfosOfLists(s.recs, s.devices);
    var ps := OnLists(s.devices);
    var infos := InfosOf(s.recs, ps);
    if Filter(Stray, infos) == [] {
      forall p | p in s.recs && Live(s, p) ensures !Stray(s.recs[p]) {
        OnListsAreLive(s, p);
        var i :| 0 <= i < |ps| && ps[i] == p;
        assert infos[i] in infos;
      }
    } else {
      var info := Filter(Stray, infos)[0];
      assert info in infos && Stray(info);
      var i :| 0 <= i < |infos| && infos[i] == info;
      OnListsAreLive(s, ps[i]);
    }
  }

  /** What a page mounts on the target directory: its root, if that is live and not swap, and every stray. On a page
      that lets the user go on the root is live exactly when some disk has a list. So such a page, with a root that
      is not swap, mounts exactly one partition there exactly when no other live partition has a mount point that
      stands for the target directory. */
  lemma OneRootExactly<P>(s: Page<P>)
    requires Inv(s)
    ensures |Filter(AtRoot, MountsOf(s))| == OfTheRoot(s) + |Filter(Stray, Flatten(DeviceInfos(s)))|
    ensures s.complete ==> (RootIsLive(s) <==> s.devices != [])
    ensures RootIsLive(s) && !RootIsSwap(s) ==> (|Filter(AtRoot, MountsOf(s))| == 1 <==> NoStray(s))
  {
    RootMountCount(s);
    StraysAreLive(s);
    GatheredRoot(s);
  }

  /** From the start of the installer, after any sequence of events whatever. */
  lemma EveryRunMountsOneRoot<P>(es: seq<Event<P>>)
    requires PossibleRun(Start(), es)
    ensures var s := Run(Start(), es);
            && |Filter(AtRoot, MountsOf(s))| == OfTheRoot(s) + |Filter(Stray, Flatten(DeviceInfos(s)))|
            && (s.complete ==> (RootIsLive(s) <==> s.devices != []))
            && (RootIsLive(s) && !RootIsSwap(s) ==> (|Filter(AtRoot, MountsOf(s))| == 1 <==> NoStray(s)))
  {
    RunKeepsInvariant(Start(), es);
    OneRootExactly(Run(Start(), es));
  }

  /** The root's mount comes first, when every partition is mounted and no other path is shorter than two
      characters. */
  lemma RootIsMountedFirst<P>(s: Page<P>)
    requires Inv(s) && RootIsLive(s) && !RootIsSwap(s)
    requires AllMounted(Flatten(DeviceInfos(s))) && OthersAreLonger(Flatten(DeviceInfos(s)))
    ensures MountsOf(s) != [] && MountsOf(s)[0].1 == "/"
  {
    var all := Flatten(DeviceInfos(s));
    var sorted, root := SortMounts(all), s.recs[s.root.value];
    GatheredRoot(s);
    assert root in Filter(IsRootInfo, all);
    RootFirstWhenOthersAreLonger(all);
    SameMembers(all, sorted);
    var paths := Filter(MountsPath, sorted);
    assert root in sorted && MountsPath(root) && root in paths;
    if paths[0] != root {
      var i, j := FirstKeptComesFirst(MountsPath, sorted, root);
      assert PathOf(sorted[j]) == "/";
    }
    assert MountsOf(s)[0] == MountOf(paths[0]);
  }

  // ---- what each button does to the selected row ----

  /** libparted names the partitions of a device apart. */
  ghost predicate NamesApart<P>(s: Page<P>)
    requires Closed(s)
  {
    forall i, j :: 0 <= i < j < |s.parts| ==> s.recs[s.parts[i]].dev != s.recs[s.parts[j]].dev
  }

  lemma {:induction false} NamedAt<P>(recs: map<P, PartInfo>, parts: seq<P>, i: nat)
    requires i < |parts| && forall p | p in parts :: p in recs
    requires forall j :: 0 <= j < i ==> recs[parts[j]].dev != recs[parts[i]].dev
    ensures NamedPart(recs, parts, recs[parts[i]].dev) == Some(parts[i])
  {
    if i > 0 {
      assert parts[1..][i - 1] == parts[i];
      assert forall j :: 0 <= j < i - 1 ==> parts[1..][j] == parts[j + 1];
      NamedAt(recs, parts[1..], i - 1);
    }
  }

  /** The buttons search by the name shown in the row; they find the record the row stands for. */
  lemma RowNamesItsRecord<P>(s: Page<P>, i: nat)
    requires Inv(s) && NamesApart(s) && Selectable(s, i)
    ensures NamedPart(s.recs, s.parts, s.view[i].name) == Some(s.parts[i])
  {
    assert s.view[i] == RowOf(s.recs[s.parts[i]]);
    NamedAt(s.recs, s.parts, i);
  }

  function TypeAfter(info: PartInfo, choice: FormatChoice): string {
    match choice case MakeFilesystem(fs, true) => fs case _ => info.fstype
  }

  /** Formatting changes the type of the selected partition and nothing else, and only if a filesystem was made. */
  lemma FormatChangesTheRow<P>(s: Page<P>, i: nat, choice: FormatChoice)
    requires Inv(s) && NamesApart(s) && Selectable(s, i)
    ensures var p := s.parts[i];
            AfterFormatPart(s, i, choice).recs == s.recs[p := s.recs[p].(fstype := TypeAfter(s.recs[p], choice))]
  {
    RowNamesItsRecord(s, i);
  }

  /** Use as swap: the selected partition becomes swap in mount and type unless it is the root; no other record
      changes. */
  lemma SwapChangesTheRow<P>(s: Page<P>, i: nat, ok: bool)
    requires Inv(s) && NamesApart(s) && Selectable(s, i)
    ensures var p := s.parts[i];
            AfterSetSwap(s, i, ok).recs ==
            if ok && s.recs[p].mount != Some("/") then s.recs[p := PartInfo(s.recs[p].dev, Some("swap"), "linux-swap")]
              else s.recs
  {
    RowNamesItsRecord(s, i);
  }

  /** Enter a mount point: the selected partition takes the text exactly when it is not the root, a swap
      partition is given up, and the text is neither "/" nor "swap"; no other record changes. */
  lemma MountpointChangesTheRow<P>(s: Page<P>, i: nat, answer: Answer, text: string)
    requires Inv(s) && Selectable(s, i)
    ensures var p := s.parts[i];
            AfterSetMountpoint(s, i, answer, Some(text)).recs ==
            if s.recs[p].mount == Some("/") || (s.recs[p].mount == Some("swap") && answer == No)
               || text == "/" || text == "swap"
            then s.recs
            else s.recs[p := s.recs[p].(mount := Some(text))]
  {
    assert s.view[i] == RowOf(s.recs[s.parts[i]]);
  }

  lemma MoveRootRecords<P>(s: Page<P>, i: nat)
    requires Closed(s) && i < |s.parts|
    ensures MoveRoot(s, i).recs.Keys == s.recs.Keys
    ensures forall q | q in s.recs :: MoveRoot(s, i).recs[q] ==
              if q == s.parts[i] then s.recs[q].(mount := Some("/"))
              else if s.root == Some(q) then s.recs[q].(mount := None)
              else s.recs[q]
  {
  }

  lemma FormatRecords<P>(s: Page<P>, i: nat, choice: FormatChoice)
    requires Inv(s) && NamesApart(s) && Selectable(s, i)
    ensures var f, p := Format(s, s.view[i].name, choice), s.parts[i];
            f.recs == s.recs[p := s.recs[p].(fstype := TypeAfter(s.recs[p], choice))] && f.root == s.root
              && f.parts == s.parts
  {
    FormatChangesTheRow(s, i, choice);
  }

  /** Set as root: the selected partition takes "/" and the type it was formatted with, the old root loses its
      mount point, and no other record changes. */
  lemma RootChangesTheRow<P>(s: Page<P>, i: nat, answer: Answer, choice: FormatChoice)
    requires Inv(s) && NamesApart(s) && Selectable(s, i)
    requires choice != CancelFormat && !(s.root.Some? && answer == No)
    ensures var p, t := s.parts[i], AfterSetRoot(s, i, answer, choice);
            t.recs.Keys == s.recs.Keys &&
            forall q | q in s.recs :: t.recs[q] ==
              if q == p then PartInfo(s.recs[q].dev, Some("/"), TypeAfter(s.recs[q], choice))
              else if s.root == Some(q) then s.recs[q].(mount := None)
              else s.recs[q]
  {
    FormatRecords(s, i, choice);
    MoveRootRecords(Format(s, s.view[i].name, choice), i);
  }

  // ---- what each event does, field by field ----

  /** The view shows the whole list: row i has the device name, the type and the mount point of its i-th record. */
  ghost predicate ShowsList<P>(s: Page<P>)
    requires Closed(s)
  {
    && |s.view| == |s.parts|
    && forall i :: 0 <= i < |s.parts| ==>
         s.view[i].name == s.recs[s.parts[i]].dev && s.view[i].fstype == s.recs[s.parts[i]].fstype
         && s.view[i].mount == s.recs[s.parts[i]].mount
  }

  /** Choosing a device shows its own list, from end to end, and changes nothing else. */
  lemma DeviceIsShown<P>(s: Page<P>, name: string, k: nat)
    requires Closed(s) && k < |s.devices| && s.devices[k].name == name
    requires forall j :: 0 <= j < |s.devices| && j != k ==> s.devices[j].name != name
    ensures var t := Step(s, ChangeDevice(name));
            && t.parts == s.devices[k].data && ShowsList(t)
            && t.recs == s.recs && t.devices == s.devices && t.root == s.root && t.complete == s.complete
  {
    FindIs(s.devices, name, k);
  }

  /** A device without a list shows nothing, as long as some disk has one; else the list on show stays. */
  lemma NoListIsShown<P>(s: Page<P>, name: string)
    requires Closed(s) && forall j :: 0 <= j < |s.devices| ==> s.devices[j].name != name
    ensures var t := Step(s, ChangeDevice(name));
            && t.parts == (if s.devices != [] then [] else s.parts) && ShowsList(t)
            && t.recs == s.recs && t.devices == s.devices && t.root == s.root && t.complete == s.complete
  {
    FindIs(s.devices, name, |s.devices|);
  }

  /** The lists and, unless the root button did it, the root and the Forward button are as they were. */
  predicate RestLeftAlone<P>(s: Page<P>, t: Page<P>, byRoot: bool) {
    && t.parts == s.parts && t.devices == s.devices && t.recs.Keys == s.recs.Keys
    && (!byRoot ==> t.root == s.root && t.complete == s.complete)
  }

  lemma RefreshShows<P>(s: Page<P>)
    requires Closed(s)
    ensures ShowsList(Refresh(s))
  {
  }

  lemma FormatLeaves<P>(s: Page<P>, name: string, choice: FormatChoice)
    requires Closed(s)
    ensures RestLeftAlone(s, Format(s, name, choice), false)
    ensures Format(s, name, choice) == s || ShowsList(Format(s, name, choice))
  {
    if choice.MakeFilesystem? { RetypeLeaves(s, name, choice.fs); }
  }

  lemma RetypeLeaves<P>(s: Page<P>, name: string, fstype: string)
    requires Closed(s)
    ensures RestLeftAlone(s, Retype(s, name, fstype), false)
    ensures Retype(s, name, fstype) == s || ShowsList(Retype(s, name, fstype))
  {
    RetypeRecords(s, name, fstype);
    var p := NamedPart(s.recs, s.parts, name);
    if p.Some? { RefreshShows(WithType(s, p.value, fstype)); }
  }

  lemma MountLeaves<P>(s: Page<P>, p: P, mount: Option<string>)
    requires Closed(s) && p in s.recs
    ensures RestLeftAlone(s, Refresh(WithMount(s, p, mount)), false) && ShowsList(Refresh(WithMount(s, p, mount)))
  {
    RefreshShows(WithMount(s, p, mount));
  }

  lemma MoveRootLeaves<P>(s: Page<P>, i: nat)
    requires Closed(s) && i < |s.parts|
    ensures RestLeftAlone(s, MoveRoot(s, i), true) && ShowsList(MoveRoot(s, i))
  {
    MoveRootRecords(s, i);
  }

  /** The buttons leave the lists alone, and all but one of them the root and the Forward button; whatever they
      change is shown at once. */
  lemma ButtonsLeaveTheRest<P>(s: Page<P>, e: Event<P>)
    requires Inv(s) && (e.SetRoot? || e.SetSwap? || e.SetMountpoint? || e.FormatPart?)
    ensures RestLeftAlone(s, Step(s, e), e.SetRoot?)
    ensures Step(s, e) == s || ShowsList(Step(s, e))
  {
    if Step(s, e) != s {
      var name := s.view[e.i].name;
      match e
      case SetRoot(i, _, choice) =>
        FormatLeaves(s, name, choice);
        MoveRootLeaves(Format(s, name, choice), i);
      case SetSwap(i, _) =>
        RetypeLeaves(s, name, "linux-swap");
        MountLeaves(Retype(s, name, "linux-swap"), s.parts[i], Some("swap"));
      case SetMountpoint(i, _, text) =>
        RefreshShows(s);
        MountLeaves(s, s.parts[i], text);
      case FormatPart(_, choice) =>
        FormatLeaves(s, name, choice);
    }
  }

  /** Refused, cancelled and impossible requests change nothing; a dismissed or reserved entry only draws the view
      again. */
  lemma RefusalsChangeNothing<P>(s: Page<P>, i: nat, choice: FormatChoice, text: Option<string>)
    requires Inv(s)
    ensures s.root.Some? ==> Step(s, SetRoot(i, No, choice)) == s
    ensures forall answer :: Step(s, SetRoot(i, answer, CancelFormat)) == s
    ensures Step(s, SetSwap(i, false)) == s
    ensures i < |s.parts| && s.recs[s.parts[i]].mount == Some("/") ==> Step(s, SetSwap(i, true)) == s
    ensures i < |s.view| && s.view[i].mount == Some("swap") ==> Step(s, SetMountpoint(i, No, text)) == s
    ensures i < |s.view| && s.view[i].mount == Some("/") ==>
            forall answer :: Step(s, SetMountpoint(i, answer, text)) == s
    ensures text in {None, Some("/"), Some("swap")} ==>
              forall answer :: Step(s, SetMountpoint(i, answer, text)).recs == s.recs
    ensures (forall fs :: choice != MakeFilesystem(fs, true)) ==> Step(s, FormatPart(i, choice)) == s
    ensures i >= |s.view| ==>
              && (forall answer :: Step(s, SetRoot(i, answer, choice)) == s)
              && (forall answer :: Step(s, SetMountpoint(i, answer, text)) == s)
              && Step(s, SetSwap(i, true)) == s && Step(s, FormatPart(i, choice)) == s
  {
  }

  /** What a detection leaves: a list for each disk under its name, what was still on show in front of the first
      one's, the RAIDs on show; old records, root and Forward button as they were. */
  lemma DetectedByField<P>(s: Page<P>, found: seq<Entry<seq<P>>>, raids: seq<P>, added: map<P, PartInfo>)
    requires Inv(s) && FreshDetection(s, found, raids, added)
    ensures var t := AfterDetect(s, found, raids, added);
            && |t.devices| == |found|
            && (forall k :: 0 <= k < |found| ==> t.devices[k].name == found[k].name)
            && (forall k :: 1 <= k < |found| ==> t.devices[k].data == found[k].data)
            && (found != [] ==> t.devices[0].data == (if s.devices == [] then s.parts else []) + found[0].data)
            && t.parts == (if s.devices == [] && found == [] then s.parts else []) + raids
            && (forall p :: p in s.recs ==> p in t.recs && t.recs[p] == s.recs[p])
            && (forall p :: p in added ==> p in t.recs && t.recs[p] == added[p] && t.recs[p].mount == None)
            && t.root == s.root && t.complete == s.complete
  {
  }

  /** When a detection runs, and what is shown after it. */
  lemma DetectionsByAnswer<P>(s: Page<P>, found: seq<Entry<seq<P>>>, raids: seq<P>, added: map<P, PartInfo>,
      first: Option<string>)
    requires Inv(s) && FreshDetection(s, found, raids, added)
    ensures forall answer :: answer != Yes ==> Step(s, RunGparted(answer, found, raids, added, first)) == s
    ensures s.devices != [] ==> Step(s, Prerun(found, raids, added, first)) == s
    ensures first.Some? ==>
              && Step(s, RunGparted(Yes, found, raids, added, first)) ==
                   Step(AfterDetect(s, found, raids, added), ChangeDevice(first.value)).(complete := false)
              && (s.devices == [] ==>
                   Step(s, Prerun(found, raids, added, first)) ==
                   Step(AfterDetect(s, found, raids, added), ChangeDevice(first.value)))
    ensures first == None ==>
              && Step(s, RunGparted(Yes, found, raids, added, first))
                == AfterDetect(s, found, raids, added).(complete := false)
              && (s.devices == [] ==>
                Step(s, Prerun(found, raids, added, first)) == AfterDetect(s, found, raids, added))
  {
  }

  /** The search by name: the first record of that name, or the last of the list when there is none. */
  lemma {:induction false} NamedByField<P>(recs: map<P, PartInfo>, parts: seq<P>, name: string)
    requires forall p | p in parts :: p in recs
    ensures parts == [] ==> NamedPart(recs, parts, name) == None
    ensures forall i ::
              0 <= i < |parts| && recs[parts[i]].dev == name &&
              (forall j :: 0 <= j < i ==> recs[parts[j]].dev != name) ==>
              NamedPart(recs, parts, name) == Some(parts[i])
    ensures parts != [] && (forall j :: 0 <= j < |parts| ==> recs[parts[j]].dev != name) ==>
              NamedPart(recs, parts, name) == Some(parts[|parts| - 1])
  {
    if |parts| > 1 && recs[parts[0]].dev != name {
      var t := parts[1..];
      assert forall j :: 0 <= j < |t| ==> t[j] == parts[j + 1];
      NamedByField(recs, t, name);
      forall i | 0 <= i < |parts| && recs[parts[i]].dev == name
        && (forall j :: 0 <= j < i ==> recs[parts[j]].dev != name)
        ensures NamedPart(recs, parts, name) == Some(parts[i])
      {
        assert t[i - 1] == parts[i];
        assert forall j :: 0 <= j < i - 1 ==> recs[t[j]].dev == recs[parts[j + 1]].dev;
      }
    }
  }

  // ---- what goes wrong ----

  function OneDisk(info: PartInfo, root: Option<nat>, complete: bool): Page<nat> {
    Page(map[1 := info], [Entry("/dev/sda", [1])], [1], root, [RowOf(info)], complete)
  }

  /** The page is entered on a machine with one disk. */
  function DetectList(ps: seq<nat>, added: map<nat, PartInfo>): Event<nat> {
    Prerun([Entry("/dev/sda", ps)], [], added, Some("/dev/sda"))
  }

  function OneList(ps: seq<nat>, added: map<nat, PartInfo>): Page<nat>
    requires forall p :: p in ps ==> p in added
  {
    Page(added, [Entry("/dev/sda", ps)], ps, None, seq(|ps|, i requires 0 <= i < |ps| => RowOf(added[ps[i]])), false)
  }

  lemma OneListFound(ps: seq<nat>)
    ensures var found := [Entry("/dev/sda", ps)];
            Joined([], found) == found && OnLists(found) + [] == ps && Get(found, "/dev/sda") == Some(ps)
  {
    var found := [Entry("/dev/sda", ps)];
    var lists := Map((e: Entry<seq<nat>>) => e.data, found);
    JoinedNothing(found);
    assert lists == [ps] + [];
    FlattenCons(ps, []);
    assert ps + [] == ps;
    assert Find(found, "/dev/sda") == 0;
  }

  lemma DetectOneList(ps: seq<nat>, added: map<nat, PartInfo>)
    requires NoDup(ps) && (forall p :: p in ps ==> p in added) && forall p :: p in added ==> added[p].mount == None
    ensures Possible(Start(), DetectList(ps, added)) && Step(Start(), DetectList(ps, added)) == OneList(ps, added)
  {
    OneListFound(ps);
    assert map[] + added == added;
    var found := [Entry("/dev/sda", ps)];
    var d := AfterDetect(Start(), found, [], added);
    assert d == Page(added, found, [], None, [], false);
    assert Step(Start(), DetectList(ps, added)) == Refresh(d.(parts := ps));
  }

  function Detection(info: PartInfo): Event<nat> { DetectList([1], map[1 := info]) }

  lemma DetectOneDisk(info: PartInfo)
    requires info.mount == None
    ensures Possible(Start(), Detection(info)) && Step(Start(), Detection(info)) == OneDisk(info, None, false)
  {
    DetectOneList([1], map[1 := info]);
    assert OneList([1], map[1 := info]).view == [RowOf(info)];
  }

  lemma UseAsSwap(info: PartInfo)
    requires info.mount == None
    ensures Step(OneDisk(info, None, false), SetSwap(0, true))
            == OneDisk(PartInfo(info.dev, Some("swap"), "linux-swap"), None, false)
  {
    var s, t := OneDisk(info, None, false), OneDisk(PartInfo(info.dev, Some("swap"), "linux-swap"), None, false);
    var r := Retype(s, info.dev, "linux-swap");
    assert r.recs[1] == PartInfo(info.dev, None, "linux-swap");
    var u := Step(s, SetSwap(0, true));
    assert u.recs == t.recs;
    assert u.view == t.view;
  }

  lemma MakeRootAsIs(info: PartInfo)
    ensures Step(OneDisk(info, None, false), SetRoot(0, Yes, KeepFilesystem))
            == OneDisk(info.(mount := Some("/")), Some(1), true)
  {
    var s, t := OneDisk(info, None, false), OneDisk(info.(mount := Some("/")), Some(1), true);
    var u := Step(s, SetRoot(0, Yes, KeepFilesystem));
    assert u.recs == t.recs;
    assert u.view == t.view;
  }

  lemma StepFirst<P>(s: Page<P>, e: Event<P>, es: seq<Event<P>>)
    requires Closed(s) && Possible(s, e) && PossibleRun(Step(s, e), es)
    ensures PossibleRun(s, [e] + es) && Run(s, [e] + es) == Run(Step(s, e), es)
  {
    assert ([e] + es)[0] == e && ([e] + es)[1..] == es;
  }

  lemma ThreeSteps<P>(s: Page<P>, a: Event<P>, b: Event<P>, c: Event<P>, s1: Page<P>, s2: Page<P>)
    requires Closed(s) && Possible(s, a) && Step(s, a) == s1
    requires Possible(s1, b) && Step(s1, b) == s2
    requires Possible(s2, c)
    ensures PossibleRun(s, [a] + ([b] + ([c] + []))) && Run(s, [a] + ([b] + ([c] + []))) == Step(s2, c)
  {
    StepFirst(s2, c, []);
    StepFirst(s1, b, [c] + []);
    StepFirst(s, a, [b] + ([c] + []));
  }

  lemma SwapThenRoot(dev: string) returns (es: seq<Event<nat>>)
    ensures PossibleRun(Start(), es)
    ensures Run(Start(), es) == OneDisk(PartInfo(dev, Some("/"), "linux-swap"), Some(1), true)
  {
    var info, swap := PartInfo(dev, None, "ext2"), PartInfo(dev, Some("swap"), "linux-swap");
    var a, b, c := Detection(info), SetSwap(0, true), SetRoot(0, Yes, KeepFilesystem);
    DetectOneDisk(info);
    UseAsSwap(info);
    MakeRootAsIs(swap);
    es := [a] + ([b] + ([c] + []));
    ThreeSteps(Start(), a, b, c, OneDisk(info, None, false), OneDisk(swap, None, false));
  }

  /** A run that ends on a page marked complete with nothing to mount on the target directory: use a partition as
      swap, then make it the root and keep its filesystem. */
  lemma RootKeptAsSwap(dev: string) returns (es: seq<Event<nat>>)
    ensures PossibleRun(Start(), es)
    ensures Run(Start(), es).complete && |Filter(AtRoot, MountsOf(Run(Start(), es)))| == 0
  {
    es := SwapThenRoot(dev);
    var s := Run(Start(), es);
    assert RootIsSwap(s) && NoStray(s);
    RunKeepsInvariant(Start(), es);
    OneRootExactly(s);
    StraysAreLive(s);
  }

  lemma StrayAppears<P>(s: Page<P>, i: nat)
    requires Inv(s) && s.devices != [] && Selectable(s, i) && s.root != Some(s.parts[i])
    requires s.recs[s.parts[i]].fstype != "linux-swap"
    ensures var t := Step(s, SetMountpoint(i, Yes, Some("")));
            && Inv(t) && t.complete == s.complete && t.root == s.root && Live(t, s.parts[i])
            && t.recs == s.recs[s.parts[i] := s.recs[s.parts[i]].(mount := Some(""))]
  {
    var p := s.parts[i];
    SetMountpointKeeps(s, i, Yes, Some(""));
    assert Present(s, p);
    assert IsRoot(s, p) ==> s.root == Some(p);
    assert s.view[i] == RowOf(s.recs[p]);
  }

  /** On a complete page, leaving the entry empty for any other partition makes a second mount on the target
      directory, although the page still looks complete. */
  lemma EmptyEntryMountsTwice<P>(s: Page<P>, i: nat)
    requires Inv(s) && s.complete && s.devices != [] && !RootIsSwap(s)
    requires Selectable(s, i) && s.root != Some(s.parts[i])
    requires s.recs[s.parts[i]].fstype != "linux-swap"
    ensures var t := Step(s, SetMountpoint(i, Yes, Some("")));
            Inv(t) && t.complete && !RootIsSwap(t) && |Filter(AtRoot, MountsOf(t))| >= 2
  {
    var t, p := Step(s, SetMountpoint(i, Yes, Some(""))), s.parts[i];
    StrayAppears(s, i);
    SlashIsTheRoot();
    assert |"swap"| == 4;
    assert Stray(t.recs[p]);
    OneRootExactly(t);
    StraysAreLive(t);
  }

  function TwoParts(a: PartInfo, b: PartInfo, root: Option<nat>, complete: bool): Page<nat> {
    Page(map[1 := a, 2 := b], [Entry("/dev/sda", [1, 2])], [1, 2], root, [RowOf(a), RowOf(b)], complete)
  }

  function PairDetection(a: PartInfo, b: PartInfo): Event<nat> { DetectList([1, 2], map[1 := a, 2 := b]) }

  lemma DetectPair(a: PartInfo, b: PartInfo)
    requires a.mount == None && b.mount == None
    ensures Possible(Start(), PairDetection(a, b)) && Step(Start(), PairDetection(a, b)) == TwoParts(a, b, None, false)
  {
    DetectOneList([1, 2], map[1 := a, 2 := b]);
    assert OneList([1, 2], map[1 := a, 2 := b]).view == [RowOf(a), RowOf(b)];
  }

  lemma MakeFirstRoot(a: PartInfo, b: PartInfo)
    ensures Step(TwoParts(a, b, None, false), SetRoot(0, Yes, KeepFilesystem))
         == TwoParts(a.(mount := Some("/")), b, Some(1), true)
  {
    var t := TwoParts(a.(mount := Some("/")), b, Some(1), true);
    var u := Step(TwoParts(a, b, None, false), SetRoot(0, Yes, KeepFilesystem));
    assert u.recs == t.recs;
    assert u.view == t.view;
  }

  /** A run from the start that mounts two partitions on the target directory: choose a root, then leave the entry
      for another partition empty. */
  lemma TwoRoots(dev: string, other: string) returns (es: seq<Event<nat>>)
    ensures PossibleRun(Start(), es)
    ensures Run(Start(), es).complete && !RootIsSwap(Run(Start(), es))
            && |Filter(AtRoot, MountsOf(Run(Start(), es)))| >= 2
  {
    var a, b := PartInfo(dev, None, "ext2"), PartInfo(other, None, "ext2");
    var e1, e2, e3 := PairDetection(a, b), SetRoot(0, Yes, KeepFilesystem), SetMountpoint(1, Yes, Some(""));
    var s1, s2 := TwoParts(a, b, None, false), TwoParts(a.(mount := Some("/")), b, Some(1), true);
    DetectPair(a, b);
    StepKeepsInvariant(Start(), e1);
    MakeFirstRoot(a, b);
    StepKeepsInvariant(s1, e2);
    es := [e1] + ([e2] + ([e3] + []));
    ThreeSteps(Start(), e1, e2, e3, s1, s2);
    assert |"ext2"| == 4 && |"linux-swap"| == 10;
    EmptyEntryMountsTwice(s2, 1);
  }

  function OnlyRaid(info: PartInfo, root: Option<nat>, complete: bool): Page<nat> {
    Page(map[1 := info], [], [1], root, [RowOf(info)], complete)
  }

  /** The page is entered on a machine whose disk carries no partition table, with one software RAID. */
  function RaidDetection(info: PartInfo): Event<nat> { Prerun([], [1], map[1 := info], Some("/dev/sda")) }

  lemma DetectRaid(info: PartInfo)
    requires info.mount == None
    ensures Possible(Start(), RaidDetection(info)) && Step(Start(), RaidDetection(info)) == OnlyRaid(info, None, false)
  {
    var found: seq<Entry<seq<nat>>>, added := [], map[1 := info];
    assert Map((e: Entry<seq<nat>>) => e.data, found) == [];
    assert OnLists(found) + [1] == [1] && [] + [1] == [1];
    assert map[] + added == added;
    assert Step(Start(), RaidDetection(info)).view == [RowOf(info)];
  }

  lemma MakeRaidRoot(info: PartInfo)
    ensures Step(OnlyRaid(info, None, false), SetRoot(0, Yes, KeepFilesystem))
            == OnlyRaid(info.(mount := Some("/")), Some(1), true)
  {
    var t := OnlyRaid(info.(mount := Some("/")), Some(1), true);
    var u := Step(OnlyRaid(info, None, false), SetRoot(0, Yes, KeepFilesystem));
    assert u.recs == t.recs;
    assert u.view == t.view;
  }

  /** A run that ends complete and mounts nothing at all: no disk has a list, and a software RAID is chosen as root. */
  lemma RaidRootIsNotMounted(info: PartInfo) returns (es: seq<Event<nat>>)
    requires info.mount == None
    ensures PossibleRun(Start(), es)
    ensures Run(Start(), es).complete && MountsOf(Run(Start(), es)) == []
  {
    var e1, e2 := RaidDetection(info), SetRoot(0, Yes, KeepFilesystem);
    DetectRaid(info);
    MakeRaidRoot(info);
    es := [e1] + ([e2] + []);
    StepFirst(OnlyRaid(info, None, false), e2, []);
    StepFirst(Start(), e1, [e2] + []);
    var s := Run(Start(), es);
    assert s == OnlyRaid(info.(mount := Some("/")), Some(1), true);
    assert DeviceInfos(s) == [];
  }

  /** set_mountpoint spares the root partition, whatever is answered and typed, exactly when the view shows it
      mounted at "/": the record itself is not consulted. */
  lemma GuardReadsTheView<P>(s: Page<P>, i: nat)
    requires Closed(s) && Selectable(s, i) && s.recs[s.parts[i]].mount == Some("/")
    ensures (forall answer, text :: AfterSetMountpoint(s, i, answer, text).recs[s.parts[i]].mount == Some("/"))
            <==> s.view[i].mount == Some("/")
  {
    if s.view[i].mount != Some("/") {
      var t := AfterSetMountpoint(s, i, Yes, Some("/home"));
      assert t.recs[s.parts[i]].mount == Some("/home");
    }
  }

  /** The entry dialog says that leaving the mount point empty cancels. It does so exactly when the row is
      guarded or already holds the empty mount point: otherwise the empty text is stored. */
  lemma EmptyEntryCancels<P>(s: Page<P>, i: nat, answer: Answer)
    requires Inv(s) && Selectable(s, i)
    ensures AfterSetMountpoint(s, i, answer, Some("")).recs == s.recs <==>
            s.view[i].mount == Some("/") || (s.view[i].mount == Some("swap") && answer == No)
              || s.view[i].mount == Some("")
  {
    var t := AfterSetMountpoint(s, i, answer, Some(""));
    assert s.view[i] == RowOf(s.recs[s.parts[i]]);
    if s.view[i].mount == Some("") {
      assert s.recs[s.parts[i] := s.recs[s.parts[i]]] == s.recs;
    } else if t.recs != s.recs {
      assert t.recs[s.parts[i]].mount == Some("");
    }
  }
}

/** partdisk.c, the page as the C program keeps it: records on the heap, shared between the device lists,
    the list on show and the root pointer, and changed in place. */
module PartDisk {
  import opened GLists
  import opened CStrings
  import opened ConfigStore
  import opened MountOrder
  import opened PartPage

  class PartRecord {
    const dev: string
    var mount: Option<string>
    var fstype: string

    constructor (dev: string, fstype: string)
      ensures Info() == PartInfo(dev, None, fstype)
    {
      this.dev, this.mount, this.fstype := dev, None, fstype;
    }

    function Info(): PartInfo reads this { PartInfo(dev, mount, fstype) }
  }

  function Pointee(p: PartRecord?): Option<PartRecord> {
    if p == null then None else Some(p)
  }

  class DiskPage {
    var parts: seq<PartRecord>
    var devices: seq<Entry<seq<PartRecord>>>
    var root: PartRecord?
    var view: seq<Row>
    var complete: bool
    ghost var records: set<PartRecord>

    ghost function Abs(): Page<PartRecord>
      reads this, records
    {
      var infos: map<PartRecord, PartInfo> := map p: PartRecord | p in records :: p.Info();
      Page(infos, devices, parts, Pointee(root), view, complete)
    }

    ghost predicate Valid()
      reads this, records
    {
      Closed(Abs())
    }

    constructor ()
      ensures Valid() && Abs() == Start() && records == {}
    {
      parts, devices, root, view, complete, records := [], [], null, [], false, {};
    }

    /** update_treeview_list */
    method UpdateTreeview()
      requires Valid()
      modifies this`view
      ensures Valid() && Abs() == Refresh(old(Abs()))
    {
      view := [];
      for i := 0 to |parts|
        invariant |view| == i
        invariant forall k :: 0 <= k < i ==> view[k] == RowOf(parts[k].Info())
      {
        assert parts[i] in parts;
        view := view + [Row(parts[i].dev, parts[i].fstype, parts[i].mount)];
      }
      assert view == Rows(old(Abs()));
    }

    /** The search of requestformat and swapformat. */
    method FindNamed(name: string) returns (info: PartRecord?)
      requires Valid()
      ensures info == null <==> parts == []
      ensures info != null ==> NamedPart(Abs().recs, parts, name) == Some(info)
      ensures info != null ==> info in records
    {
      info := null;
      var i := 0;
      while i < |parts|
        invariant 0 <= i <= |parts|
        invariant info == null <==> i == 0
        invariant i < |parts| ==> NamedPart(Abs().recs, parts, name) == NamedPart(Abs().recs, parts[i..], name)
        invariant i == |parts| && i > 0 ==> NamedPart(Abs().recs, parts, name) == Some(info)
        invariant info != null ==> info in records
      {
        info := parts[i];
        assert info in parts && info in Abs().recs;
        assert parts[i..][0] == info && parts[i..][1..] == parts[i + 1..];
        if info.dev == name { return; }
        i := i + 1;
      }
    }

    method SetType(name: string, fstype: string)
      requires Valid()
      modifies this`view, records
      ensures Valid() && Abs() == Retype(old(Abs()), name, fstype) && records == old(records)
    {
      var info := FindNamed(name);
      if info != null {
        info.fstype := fstype;
        assert Abs().recs == WithType(old(Abs()), info, fstype).recs;
        UpdateTreeview();
      }
    }

    /** requestformat: -1 exactly when the dialog is cancelled. */
    method RequestFormat(name: string, choice: FormatChoice) returns (ret: int)
      requires Valid()
      modifies this`view, records
      ensures Valid() && Abs() == Format(old(Abs()), name, choice) && records == old(records)
      ensures ret == if choice == CancelFormat then -1 else 0
    {
      match choice {
        case CancelFormat => return -1;
        case KeepFilesystem => return 0;
        case MakeFilesystem(fs, succeeded) =>
          if succeeded { SetType(name, fs); }
          return 0;
      }
    }

    /** swapformat: mkfss always reports success for a swap area. */
    method SwapFormat(name: string, ok: bool) returns (ret: int)
      requires Valid()
      modifies this`view, records
      ensures Valid() && records == old(records)
      ensures Abs() == if ok then Retype(old(Abs()), name, "linux-swap") else old(Abs())
      ensures ret == if ok then 0 else -1
    {
      if !ok { return -1; }
      SetType(name, "linux-swap");
      ret := 0;
    }

    method SetMount(info: PartRecord, mount: Option<string>)
      requires Valid() && info in records
      modifies info`mount
      ensures Valid() && Abs() == WithMount(old(Abs()), info, mount)
    {
      info.mount := mount;
      assert Abs().recs == WithMount(old(Abs()), info, mount).recs;
    }

    /** The pointer work of set_root_part: unmount the old root, mount and remember the new one. */
    method TakeRoot(info: PartRecord)
      requires Valid() && info in records
      modifies this`root, this`complete, records
      ensures Valid()
      ensures Abs() == WithMount(if old(Abs()).root.Some? then WithMount(old(Abs()), old(Abs()).root.value, None)
              else old(Abs()), info, Some("/"))
                         .(root := Some(info), complete := true)
    {
      if root != null {
        assert root in Abs().recs;
        SetMount(root, None);
      }
      SetMount(info, Some("/"));
      ghost var mounted := Abs();
      root := info;
      complete := true;
      assert Abs().recs == mounted.recs;
    }

    /** set_root_part; `sel` is the selected row, if any. */
    method SetRootPart(sel: Option<nat>, answer: Answer, choice: FormatChoice)
      requires Valid()
      requires sel.Some? ==> Selectable(Abs(), sel.value)
      modifies this, records
      ensures Valid() && records == old(records)
      ensures Abs() == if sel.Some? then AfterSetRoot(old(Abs()), sel.value, answer, choice) else old(Abs())
    {
      if sel == None { return; }
      if root != null && answer == No { return; }
      var i := sel.value;
      var ret := RequestFormat(view[i].name, choice);
      if ret == -1 { return; }
      assert parts[i] in parts && parts[i] in Abs().recs;
      TakeRoot(parts[i]);
      UpdateTreeview();
    }

    /** set_swap_part */
    method SetSwapPart(sel: Option<nat>, ok: bool)
      requires Valid()
      requires sel.Some? ==> Selectable(Abs(), sel.value)
      modifies this, records
      ensures Valid() && records == old(records)
      ensures Abs() == if sel.Some? then AfterSetSwap(old(Abs()), sel.value, ok) else old(Abs())
    {
      if sel == None { return; }
      var i := sel.value;
      var info := parts[i];
      assert info in parts && info in Abs().recs;
      if info.mount == Some("/") { return; }
      var ret := SwapFormat(view[i].name, ok);
      if ret == -1 { return; }
      SetMount(info, Some("swap"));
      UpdateTreeview();
    }

    method StoreMount(i: nat, text: string)
      requires Valid() && Selectable(Abs(), i)
      modifies this`view, records
      ensures Valid() && records == old(records)
      ensures Abs().(view := []) == WithMount(old(Abs()), old(Abs()).parts[i], Some(text)).(view := [])
    {
      var info := parts[i];
      assert info in parts && info in Abs().recs;
      SetMount(info, Some(text));
      view := view[i := view[i].(mount := Some(text))];
    }

    /** set_mountpoint; `text` is what the entry dialog returns. */
    method SetMountpointOf(sel: Option<nat>, answer: Answer, text: Option<string>)
      requires Valid()
      requires sel.Some? ==> Selectable(Abs(), sel.value)
      modifies this`view, records
      ensures Valid() && records == old(records)
      ensures Abs() == if sel.Some? then AfterSetMountpoint(old(Abs()), sel.value, answer, text) else old(Abs())
    {
      if sel == None { return; }
      var i := sel.value;
      var oldText := view[i].mount;
      if oldText == Some("/") { return; }
      if oldText == Some("swap") && answer == No { return; }
      if text.Some? && text.value != "/" && text.value != "swap" {
        StoreMount(i, text.value);
      }
      UpdateTreeview();
    }

    /** set_format_part */
    method SetFormatPart(i: nat, choice: FormatChoice)
      requires Valid() && Selectable(Abs(), i)
      modifies this`view, records
      ensures Valid() && records == old(records)
      ensures Abs() == AfterFormatPart(old(Abs()), i, choice)
    {
      var ret := RequestFormat(view[i].name, choice);
    }

    /** change_part_list */
    method ChangePartList(name: string)
      requires Valid()
      modifies this
      ensures Valid() && records == old(records)
      ensures Abs() == AfterChangeDevice(old(Abs()), name)
    {
      if devices != [] {
        var data := DataGet(devices, name);
        parts := data.GetOr([]);
        assert Abs().recs == old(Abs().recs);
      }
      UpdateTreeview();
    }

    /** One disk: list its partitions behind what is in `parts`, and put that under the disk's path. */
    method DetectDisk(disk: Disk) returns (ghost more: map<PartRecord, PartInfo>, ghost list: seq<PartRecord>)
      requires forall j :: 0 <= j < |devices| ==> devices[j].name != disk.path
      modifies this`devices, this`parts, this`records
      ensures parts == [] && devices == old(devices) + [Entry(disk.path, old(parts) + list)]
      ensures records == old(records) + more.Keys && fresh(more.Keys)
      ensures forall p | p in more :: p.Info() == more[p] && more[p].mount == None
      ensures NoDup(list) && DescribesDisk(disk, Entry(disk.path, list), more)
    {
      list, more := ListDisk(disk);
      FindIs(devices, disk.path, |devices|);
      devices := DataPut(devices, disk.path, parts);
      parts := [];
    }

    /** One disk's partitions go to the end of `parts`. */
    method ListDisk(disk: Disk) returns (ghost list: seq<PartRecord>, ghost more: map<PartRecord, PartInfo>)
      modifies this`parts, this`records
      ensures parts == old(parts) + list && NoDup(list) && DescribesDisk(disk, Entry(disk.path, list), more)
      ensures records == old(records) + more.Keys && fresh(more.Keys)
      ensures forall p | p in more :: p.Info() == more[p] && more[p].mount == None
    {
      var listed := ListParts(disk.slots);
      list, more := listed, map p: PartRecord | p in listed :: p.Info();
      ListDescribes(disk, list, more);
      parts := parts + listed;
      records := records + more.Keys;
    }

    method DetectDisks(disks: seq<Disk>)
      returns (ghost found: seq<Entry<seq<PartRecord>>>, ghost added: map<PartRecord, PartInfo>)
      requires devices == [] && DistinctPaths(disks)
      modifies this`devices, this`parts, this`records
      ensures devices == Joined(old(parts), found) && parts == (if disks == [] then old(parts) else [])
      ensures Describes(disks, found, added) && NoDup(OnLists(found))
      ensures records == old(records) + added.Keys && fresh(added.Keys)
      ensures forall p | p in added :: p.Info() == added[p] && added[p].mount == None
    {
      found, added := [], map[];
      assert NoDup(OnLists(found)) by { assert Map((e: Entry<seq<PartRecord>>) => e.data, found) == []; }
      for k := 0 to |disks|
        invariant devices == Joined(old(parts), found) && parts == if k == 0 then old(parts) else []
        invariant records == old(records) + added.Keys && fresh(added.Keys)
        invariant forall p | p in added :: p.Info() == added[p] && added[p].mount == None
        invariant Describes(disks[..k], found, added) && NoDup(OnLists(found))
      {
        JoinedNames(disks[..k], old(parts), found, added);
        ghost var more, list := DetectDisk(disks[k]);
        DescribesMore(disks, k, found, added, list, more);
        JoinedSnoc(old(parts), found, Entry(disks[k].path, list));
        found, added := found + [Entry(disks[k].path, list)], added + more;
      }
      TakeAll(disks);
    }

    /** detect_raids: one more record for each software RAID. */
    method DetectRaids(raids: seq<Part>) returns (ghost list: seq<PartRecord>, ghost more: map<PartRecord, PartInfo>)
      modifies this`parts, this`records
      ensures parts == old(parts) + list && NoDup(list)
      ensures InfosOf(more, list) == Map(InfoOf, raids) && forall p :: p in more <==> p in list
      ensures records == old(records) + more.Keys && fresh(more.Keys)
      ensures forall p | p in more :: p.Info() == more[p] && more[p].mount == None
    {
      var listed: seq<PartRecord> := [];
      for i := 0 to |raids|
        invariant Records(listed, raids[..i])
        invariant forall p :: p in listed ==> fresh(p)
        invariant parts == old(parts) && records == old(records)
      {
        ghost var before := listed;
        TakeOne(raids, i);
        listed := PartDetails(listed, raids[i], raids[..i]);
        StillFresh(before, listed);
      }
      TakeAll(raids);
      list, more := listed, map p: PartRecord | p in listed :: p.Info();
      RecordsDescribe(list, raids, more);
      parts := parts + listed;
      records := records + more.Keys;
    }

    /** The disks, then the RAIDs. */
    method DetectAll(disks: seq<Disk>, raids: seq<Part>)
      returns (ghost found: seq<Entry<seq<PartRecord>>>, ghost extra: seq<PartRecord>, ghost added: map<PartRecord,
        PartInfo>)
      requires devices == [] && DistinctPaths(disks)
      modifies this`devices, this`parts, this`records
      ensures devices == Joined(old(parts), found) && parts == (if found == [] then old(parts) else []) + extra
      ensures records == old(records) + added.Keys && fresh(added.Keys)
      ensures forall p | p in added :: p.Info() == added[p] && added[p].mount == None
      ensures Supplies(found, extra, added) && NoDup(OnLists(found) + extra)
      ensures Describes(disks, found, added) && InfosOf(added, extra) == Map(InfoOf, raids)
    {
      ghost var listed, more;
      found, listed := DetectDisks(disks);
      extra, more := DetectRaids(raids);
      DescribedAreAdded(disks, found, listed);
      NoDupAppend(OnLists(found), extra);
      DescribesWith(disks, found, listed, more);
      InfosWith(extra, listed, more);
      added := listed + more;
    }

    /** detect_parts: drop the old lists, make a record for every partition of every writable disk that carries a
        partition table, and then for every software RAID. */
    method DetectParts(disks: seq<Disk>, raids: seq<Part>)
      returns (ghost found: seq<Entry<seq<PartRecord>>>, ghost extra: seq<PartRecord>, ghost added: map<PartRecord,
        PartInfo>)
      requires Valid() && DistinctPaths(disks)
      modifies this
      ensures Valid() && FreshDetection(old(Abs()), found, extra, added)
      ensures records == old(records) + added.Keys && fresh(added.Keys)
      ensures Abs() == AfterDetect(old(Abs()), found, extra, added)
      ensures Describes(disks, found, added) && InfosOf(added, extra) == Map(InfoOf, raids)
    {
      ghost var before := Abs();
      if devices != [] {
        devices, parts, view := [], [], [];
      }
      found, extra, added := DetectAll(disks, raids);
      assert Abs().recs == before.recs + added;
    }

    /** run_gparted; `first` is the first row of the device list. */
    method RunGpartedTool(answer: Answer, disks: seq<Disk>, raids: seq<Part>, first: Option<string>)
      returns (ghost found: seq<Entry<seq<PartRecord>>>, ghost extra: seq<PartRecord>, ghost added: map<PartRecord,
        PartInfo>)
      requires Valid() && DistinctPaths(disks)
      modifies this
      ensures Valid() && FreshDetection(old(Abs()), found, extra, added)
      ensures answer == Yes ==> Describes(disks, found, added) && InfosOf(added, extra) == Map(InfoOf, raids)
      ensures Abs() == AfterGparted(old(Abs()), answer, found, extra, added, first)
    {
      found, extra, added := [], [], map[];
      NothingFound(old(Abs()));
      if answer == Yes {
        found, extra, added := DetectParts(disks, raids);
        ShowFirstDevice(first);
        SetIncomplete();
      }
    }

    /** set_page_incompleted */
    method SetIncomplete()
      requires Valid()
      modifies this`complete
      ensures Valid() && Abs() == old(Abs()).(complete := false)
    {
      complete := false;
      assert Abs().recs == old(Abs()).recs;
    }

    /** Select the first row of the device list, if there is one. */
    method ShowFirstDevice(first: Option<string>)
      requires Valid()
      modifies this
      ensures Valid() && records == old(records)
      ensures Abs() == ShowFirst(old(Abs()), first)
    {
      if first.Some? { ChangePartList(first.value); }
    }

    /** prerun: detect until some disk has a list, then show the first device if that changes the selection. */
    method PagePrerun(disks: seq<Disk>, raids: seq<Part>, first: Option<string>)
      returns (ghost found: seq<Entry<seq<PartRecord>>>, ghost extra: seq<PartRecord>, ghost added: map<PartRecord,
        PartInfo>)
      requires Valid() && DistinctPaths(disks)
      modifies this
      ensures Valid() && FreshDetection(old(Abs()), found, extra, added)
      ensures old(devices) == [] ==> Describes(disks, found, added) && InfosOf(added, extra) == Map(InfoOf, raids)
      ensures Abs() == AfterPrerun(old(Abs()), found, extra, added, first)
    {
      found, extra, added := [], [], map[];
      NothingFound(old(Abs()));
      if devices == [] {
        found, extra, added := DetectParts(disks, raids);
        ShowFirstDevice(first);
      }
    }

    method InfoLists() returns (lists: seq<seq<PartInfo>>)
      requires Valid()
      ensures lists == DeviceInfos(Abs())
    {
      lists := [];
      for i := 0 to |devices|
        invariant |lists| == i
        invariant forall k :: 0 <= k < i ==> lists[k] == InfosOf(Abs().recs, devices[k].data)
      {
        assert forall p | p in devices[i].data :: p in Abs().recs;
        var infos := Snapshot(devices[i].data);
        lists := lists + [infos];
      }
    }

    /** run: fstab and mounts from the records as they stand. */
    method RunPage(probe: string -> string) returns (fstab: seq<FstabLine>, mounts: seq<(string, string)>)
      requires Valid()
      ensures WrittenFor(Flatten(DeviceInfos(Abs())), probe, fstab, mounts)
      ensures LinesByField(Flatten(DeviceInfos(Abs())), probe, fstab[5..], mounts)
      ensures mounts == MountsOf(Abs())
    {
      var lists := InfoLists();
      fstab, mounts := WriteFstab(lists, probe);
    }

    method Snapshot(partition: seq<PartRecord>) returns (infos: seq<PartInfo>)
      requires forall p | p in partition :: p in records
      ensures infos == InfosOf(Abs().recs, partition)
    {
      infos := [];
      for i := 0 to |partition|
        invariant |infos| == i
        invariant forall k :: 0 <= k < i ==> infos[k] == InfosOf(Abs().recs, partition)[k]
      {
        assert partition[i] in partition;
        infos := infos + [PartInfo(partition[i].dev, partition[i].mount, partition[i].fstype)];
      }
    }
  }

  lemma NothingFound<P>(s: Page<P>)
    ensures FreshDetection(s, [], [], map[])
  {
    assert Map((e: Entry<seq<P>>) => e.data, []) == [];
    assert OnLists<P>([]) + [] == [];
  }

  lemma JoinedSnoc<P>(base: seq<P>, found: seq<Entry<seq<P>>>, e: Entry<seq<P>>)
    ensures Joined(base, found + [e])
            == Joined(base, found) + [Entry(e.name, (if found == [] then base else []) + e.data)]
  {
    assert [] + e.data == e.data;
    if found != [] { AppendTail(found, [e]); }
  }

  lemma JoinedNames(disks: seq<Disk>, base: seq<PartRecord>, found: seq<Entry<seq<PartRecord>>>, added: map<PartRecord,
      PartInfo>)
    requires Describes(disks, found, added)
    ensures |Joined(base, found)| == |disks|
    ensures forall j :: 0 <= j < |disks| ==> Joined(base, found)[j].name == disks[j].path
  {
    assert forall j :: 0 <= j < |found| ==> Joined(base, found)[j].name == found[j].name;
    assert forall j :: 0 <= j < |disks| ==> DescribesDisk(disks[j], found[j], added);
  }

  lemma RecordsDescribe(list: seq<PartRecord>, ps: seq<Part>, more: map<PartRecord, PartInfo>)
    requires Records(list, ps) && (forall p :: p in more <==> p in list) && forall p | p in more :: more[p] == p.Info()
    ensures InfosOf(more, list) == Map(InfoOf, ps) && forall p | p in more :: more[p].mount == None
  {
    forall p | p in more ensures more[p].mount == None {
      var i :| 0 <= i < |list| && list[i] == p;
      assert list[i].Info() == InfoOf(ps[i]);
    }
    assert forall i :: 0 <= i < |list| ==> list[i] in list;
  }

  lemma InfosWith(list: seq<PartRecord>, added: map<PartRecord, PartInfo>, more: map<PartRecord, PartInfo>)
    requires forall p | p in list :: p in more
    ensures InfosOf(added + more, list) == InfosOf(more, list)
  {
    assert forall i :: 0 <= i < |list| ==> list[i] in list;
  }

  lemma DescribesWith(disks: seq<Disk>, found: seq<Entry<seq<PartRecord>>>, added: map<PartRecord, PartInfo>,
      more: map<PartRecord, PartInfo>)
    requires Describes(disks, found, added) && added.Keys !! more.Keys
    ensures Describes(disks, found, added + more)
  {
    forall k | 0 <= k < |disks| ensures DescribesDisk(disks[k], found[k], added + more) {
      assert DescribesDisk(disks[k], found[k], added);
      assert InfosOf(added + more, found[k].data) == InfosOf(added, found[k].data) by {
        assert forall i :: 0 <= i < |found[k].data| ==> found[k].data[i] in found[k].data;
      }
    }
  }

  /** A partition as libparted lists it; `probed` is the filesystem found on it. */
  datatype Part = Part(num: int, raid: bool, path: string, probed: Option<string>)

  /** An entry of the partition table: an extended partition holds a list of its own. */
  datatype Slot = Plain(part: Part) | Extended(part: Part, inside: seq<Part>)

  /** A writable disk: its path and its partition table. */
  datatype Disk = Disk(path: string, slots: seq<Slot>)

  /** Free space and metadata have no positive number, and members of a software RAID are not offered. */
  predicate Usable(p: Part) { p.num > 0 && !p.raid }

  function UsableIn(slot: Slot): seq<Part> {
    match slot
    case Plain(part) => if Usable(part) then [part] else []
    case Extended(_, inside) => Filter(Usable, inside)
  }

  /** The partitions listparts goes through: the usable ones, an extended partition replaced by what it holds. */
  function PartsOf(slots: seq<Slot>): seq<Part> { Flatten(Map(UsableIn, slots)) }

  lemma PartsExactly(slots: seq<Slot>, p: Part)
    ensures p in PartsOf(slots) <==>
            Usable(p) && exists k ::
              0 <= k < |slots| && (slots[k] == Plain(p) || (slots[k].Extended? && p in slots[k].inside))
  {
    if p in PartsOf(slots) {
      var k :| 0 <= k < |slots| && p in Map(UsableIn, slots)[k];
      assert slots[k] == Plain(p) || (slots[k].Extended? && p in slots[k].inside);
    }
    if k :| 0 <= k < |slots| && Usable(p) && (slots[k] == Plain(p) || (slots[k].Extended? && p in slots[k].inside)) {
      assert p in Map(UsableIn, slots)[k];
    }
  }

  /** partdetails drops the suffix of a software RAID device. */
  function DeviceName(path: string): string {
    var k := Occurrence(path, "p-1");
    if k <= |path| then path[..k] else path
  }

  ghost predicate DistinctPaths(disks: seq<Disk>) {
    forall i, j :: 0 <= i < j < |disks| ==> disks[i].path != disks[j].path
  }

  function InfoOf(part: Part): PartInfo { PartInfo(DeviceName(part.path), None, part.probed.GetOr("unknown")) }

  /** The lists hold one unmounted record per partition, disk by disk, in order. */
  ghost predicate Describes(disks: seq<Disk>, found: seq<Entry<seq<PartRecord>>>, added: map<PartRecord, PartInfo>) {
    && |found| == |disks|
    && forall k :: 0 <= k < |disks| ==> DescribesDisk(disks[k], found[k], added)
  }

  ghost predicate DescribesDisk(disk: Disk, e: Entry<seq<PartRecord>>, added: map<PartRecord, PartInfo>) {
    && e.name == disk.path
    && (forall p | p in e.data :: p in added)
    && InfosOf(added, e.data) == Map(InfoOf, PartsOf(disk.slots))
  }

  lemma ListDescribes(disk: Disk, list: seq<PartRecord>, more: map<PartRecord, PartInfo>)
    requires Records(list, PartsOf(disk.slots))
    requires forall p :: p in more <==> p in list
    requires forall p | p in more :: more[p] == p.Info()
    ensures forall p | p in more :: more[p].mount == None
    ensures DescribesDisk(disk, Entry(disk.path, list), more)
  {
    RecordsDescribe(list, PartsOf(disk.slots), more);
  }

  lemma DescribedAreAdded(disks: seq<Disk>, found: seq<Entry<seq<PartRecord>>>, added: map<PartRecord, PartInfo>)
    requires Describes(disks, found, added)
    ensures Supplies(found, [], added)
    ensures forall p | p in OnLists(found) :: p in added
  {
    forall k | 0 <= k < |found| ensures forall p | p in found[k].data :: p in added {
      assert DescribesDisk(disks[k], found[k], added);
    }
    FoundAreAdded(found, [], added);
  }

  lemma DescribesSnoc(disks: seq<Disk>, found: seq<Entry<seq<PartRecord>>>, added: map<PartRecord, PartInfo>,
                      disk: Disk, list: seq<PartRecord>, more: map<PartRecord, PartInfo>)
    requires Describes(disks, found, added)
    requires added.Keys !! more.Keys
    requires DescribesDisk(disk, Entry(disk.path, list), more)
    ensures Describes(disks + [disk], found + [Entry(disk.path, list)], added + more)
  {
    var found', added' := found + [Entry(disk.path, list)], added + more;
    forall k | 0 <= k < |disks| + 1 ensures DescribesDisk((disks + [disk])[k], found'[k], added') {
      if k < |disks| {
        assert DescribesDisk(disks[k], found[k], added);
        assert InfosOf(added', found[k].data) == InfosOf(added, found[k].data) by {
          assert forall i :: 0 <= i < |found[k].data| ==> found[k].data[i] in found[k].data;
        }
      } else {
        assert InfosOf(added', list) == InfosOf(more, list) by {
          assert forall i :: 0 <= i < |list| ==> list[i] in list;
        }
      }
    }
  }

  lemma DescribesMore(disks: seq<Disk>, k: nat, found: seq<Entry<seq<PartRecord>>>, added: map<PartRecord, PartInfo>,
                      list: seq<PartRecord>, more: map<PartRecord, PartInfo>)
    requires k < |disks| && Describes(disks[..k], found, added) && NoDup(OnLists(found))
    requires added.Keys !! more.Keys && NoDup(list)
    requires DescribesDisk(disks[k], Entry(disks[k].path, list), more)
    ensures Describes(disks[..k + 1], found + [Entry(disks[k].path, list)], added + more)
    ensures NoDup(OnLists(found + [Entry(disks[k].path, list)]))
  {
    DescribedAreAdded(disks[..k], found, added);
    OnListsSnoc(found, Entry(disks[k].path, list));
    NoDupAppend(OnLists(found), list);
    DescribesSnoc(disks[..k], found, added, disks[k], list, more);
    assert disks[..k + 1] == disks[..k] + [disks[k]];
  }

  lemma OnListsSnoc<P>(devices: seq<Entry<seq<P>>>, e: Entry<seq<P>>)
    ensures OnLists(devices + [e]) == OnLists(devices) + e.data
  {
    var data := (e: Entry<seq<P>>) => e.data;
    assert Map(data, devices + [e]) == Map(data, devices) + [e.data];
    FlattenSnoc(Map(data, devices), e.data);
  }

  /** New records that describe these partitions, one each, in order. */
  ghost predicate Records(list: seq<PartRecord>, ps: seq<Part>)
    reads list
  {
    NoDup(list) && |list| == |ps| && forall i :: 0 <= i < |ps| ==> list[i].Info() == InfoOf(ps[i])
  }

  /** partdetails: one more unmounted record. */
  method PartDetails(list: seq<PartRecord>, part: Part, ghost ps: seq<Part>) returns (list': seq<PartRecord>)
    requires Records(list, ps)
    ensures |list'| == |list| + 1 && list'[..|list|] == list && fresh(list'[|list|])
    ensures Records(list', ps + [part])
  {
    var info := new PartRecord(DeviceName(part.path), part.probed.GetOr("unknown"));
    assert info !in list;
    list' := list + [info];
  }

  lemma StillFresh(list: seq<PartRecord>, list': seq<PartRecord>)
    requires |list'| == |list| + 1 && list'[..|list|] == list
    ensures forall p :: p in list' ==> p in list || p == list'[|list|]
  {
  }

  /** The loop of listparts over an extended partition. */
  method ListInside(list: seq<PartRecord>, inside: seq<Part>, ghost ps: seq<Part>) returns (list': seq<PartRecord>)
    requires Records(list, ps)
    ensures Records(list', ps + Filter(Usable, inside))
    ensures forall p :: p in list' ==> p in list || fresh(p)
  {
    list' := list;
    assert ps + Filter(Usable, inside[..0]) == ps;
    for i := 0 to |inside|
      invariant Records(list', ps + Filter(Usable, inside[..i]))
      invariant forall p :: p in list' ==> p in list || fresh(p)
    {
      TakeOne(inside, i);
      FilterSnoc(Usable, inside[..i], inside[i]);
      if inside[i].num > 0 && !inside[i].raid {
        ghost var before := list';
        Assoc(ps, Filter(Usable, inside[..i]), [inside[i]]);
        list' := PartDetails(list', inside[i], ps + Filter(Usable, inside[..i]));
        StillFresh(before, list');
      }
    }
    TakeAll(inside);
  }

  lemma PartsSnoc(slots: seq<Slot>, i: nat)
    requires i < |slots|
    ensures PartsOf(slots[..i + 1]) == PartsOf(slots[..i]) + UsableIn(slots[i])
  {
    TakeOne(slots, i);
    MapAppend(UsableIn, slots[..i], [slots[i]]);
    assert Map(UsableIn, [slots[i]]) == [UsableIn(slots[i])];
    FlattenSnoc(Map(UsableIn, slots[..i]), UsableIn(slots[i]));
  }

  /** One entry of the partition table. */
  method ListSlot(list: seq<PartRecord>, slot: Slot, ghost ps: seq<Part>) returns (list': seq<PartRecord>)
    requires Records(list, ps)
    ensures Records(list', ps + UsableIn(slot))
    ensures forall p :: p in list' ==> p in list || fresh(p)
  {
    match slot {
      case Plain(part) =>
        if part.num > 0 && !part.raid {
          list' := PartDetails(list, part, ps);
          StillFresh(list, list');
        } else {
          assert ps + [] == ps;
          list' := list;
        }
      case Extended(part, inside) =>
        list' := ListInside(list, inside, ps);
    }
  }

  /** partdetails' device name: all of the path, or what stands before the first "p-1". */
  lemma DeviceNameIs(path: string)
    ensures (forall k :: 0 <= k <= |path| ==> !("p-1" <= path[k..])) ==> DeviceName(path) == path
    ensures forall k :: 0 <= k <= |path| && "p-1" <= path[k..] && (forall j :: 0 <= j < k ==> !("p-1" <= path[j..])) ==>
              DeviceName(path) == path[..k]
  {
  }

  /** The order of the table is the order of the list. */
  lemma PartsInOrder(slots: seq<Slot>, more: seq<Slot>, part: Part, inside: seq<Part>, last: Part)
    ensures PartsOf(slots + more) == PartsOf(slots) + PartsOf(more)
    ensures PartsOf([Plain(part)]) == if part.num > 0 && !part.raid then [part] else []
    ensures PartsOf([Extended(part, inside + [last])]) ==
            PartsOf([Extended(part, inside)]) + (if last.num > 0 && !last.raid then [last] else [])
  {
    MapAppend(UsableIn, slots, more);
    FlattenAppend(Map(UsableIn, slots), Map(UsableIn, more));
    OneSlot(Plain(part));
    OneSlot(Extended(part, inside));
    OneSlot(Extended(part, inside + [last]));
    FilterSnoc(Usable, inside, last);
  }

  lemma OneSlot(slot: Slot)
    ensures PartsOf([slot]) == UsableIn(slot)
  {
    assert Map(UsableIn, [slot]) == [UsableIn(slot)] + [];
    FlattenCons(UsableIn(slot), []);
    assert UsableIn(slot) + [] == UsableIn(slot);
  }

  /** listparts: one new unmounted record per usable partition of the disk, in order. */
  method ListParts(slots: seq<Slot>) returns (list: seq<PartRecord>)
    ensures Records(list, PartsOf(slots))
    ensures forall i :: 0 <= i < |list| ==>
              list[i].dev == DeviceName(PartsOf(slots)[i].path) && list[i].mount == None
              && list[i].fstype == PartsOf(slots)[i].probed.GetOr("unknown")
    ensures forall p :: p in list ==> fresh(p)
  {
    list := [];
    for i := 0 to |slots|
      invariant Records(list, PartsOf(slots[..i]))
      invariant forall p :: p in list ==> fresh(p)
    {
      PartsSnoc(slots, i);
      list := ListSlot(list, slots[i], PartsOf(slots[..i]));
    }
    TakeAll(slots);
    forall i | 0 <= i < |list|
      ensures list[i].dev == DeviceName(PartsOf(slots)[i].path) && list[i].mount == None
              && list[i].fstype == PartsOf(slots)[i].probed.GetOr("unknown")
    {
      assert list[i].Info() == InfoOf(PartsOf(slots)[i]);
    }
  }
}
