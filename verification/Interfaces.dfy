/** netconf.c: the list of configured interfaces, deleted from inside the loop that walks it. */
module Interfaces {
  import opened GLists

  const IF_NAMESIZE: nat := 16

  /** snprintf into the name field. */
  function Stored(iface: string): string { if |iface| < IF_NAMESIZE then iface else iface[..IF_NAMESIZE - 1] }

  function Without(names: seq<string>, name: string): seq<string> {
    if names == [] then []
    else if names[0] == name then names[1..]
    else [names[0]] + Without(names[1..], name)
  }

  /** add_interface: reconfiguring removes the old entry; a cancelled type dialog adds nothing, nor does "lo". */
  function AfterAdd(names: seq<string>, iface: string, again: bool, nettype: Option<string>): seq<string> {
    if iface in names && !again then names
    else
      var rest := Without(names, iface);
      if nettype == None || nettype == Some("lo") then rest else rest + [Stored(iface)]
  }

  /** del_interface: after a removal the index moves on, past the element that took the removed one's place. */
  function AfterDel(names: seq<string>, name: string): seq<string> {
    if names == [] then []
    else if names[0] != name then [names[0]] + AfterDel(names[1..], name)
    else if |names| == 1 then []
    else [names[1]] + AfterDel(names[2..], name)
  }

  function Others(name: string): string -> bool { n => n != name }

  ghost predicate Adjacent(names: seq<string>, name: string) {
    exists i :: 0 <= i < |names| - 1 && names[i] == name && names[i + 1] == name
  }

  lemma AdjacentLater(names: seq<string>, name: string, k: nat)
    requires k <= |names| && Adjacent(names[k..], name)
    ensures Adjacent(names, name)
  {
    var i :| 0 <= i < |names[k..]| - 1 && names[k..][i] == name && names[k..][i + 1] == name;
    assert names[k + i] == name && names[k + i + 1] == name;
  }

  /** The skipping loop deletes every match exactly when no two matches stand side by side. */
  lemma {:induction false} DelLeavesNone(names: seq<string>, name: string)
    ensures name !in AfterDel(names, name) <==> !Adjacent(names, name)
    decreases |names|
  {
    if names != [] {
      if names[0] != name {
        DelLeavesNone(names[1..], name);
        if Adjacent(names[1..], name) { AdjacentLater(names, name, 1); }
        if Adjacent(names, name) {
          var i :| 0 <= i < |names| - 1 && names[i] == name && names[i + 1] == name;
          assert names[1..][i - 1] == name && names[1..][i] == name;
        }
      } else if |names| > 1 {
        DelLeavesNone(names[2..], name);
        if Adjacent(names[2..], name) { AdjacentLater(names, name, 2); }
        if Adjacent(names, name) && names[1] != name {
          var i :| 0 <= i < |names| - 1 && names[i] == name && names[i + 1] == name;
          assert names[2..][i - 2] == name && names[2..][i - 1] == name;
        }
      }
    }
  }

  /** ... and then it deletes nothing else. */
  lemma {:induction false} DelIsFilter(names: seq<string>, name: string)
    requires !Adjacent(names, name)
    ensures AfterDel(names, name) == Filter(Others(name), names)
    decreases |names|
  {
    if names != [] {
      if names[0] != name {
        if Adjacent(names[1..], name) { AdjacentLater(names, name, 1); }
        DelIsFilter(names[1..], name);
      } else if |names| > 1 {
        if Adjacent(names[2..], name) { AdjacentLater(names, name, 2); }
        DelIsFilter(names[2..], name);
        assert names[1] != name;
        assert names[1..][1..] == names[2..];
      } else {
        assert names[1..] == [];
      }
    }
  }

  lemma {:induction false} WithoutNoDup(names: seq<string>, name: string)
    requires NoDup(names)
    ensures NoDup(Without(names, name)) && name !in Without(names, name)
    ensures forall n :: n in Without(names, name) <==> n in names && n != name
  {
    if names != [] {
      assert forall i :: 0 <= i < |names[1..]| ==> names[1..][i] == names[i + 1];
      WithoutNoDup(names[1..], name);
      if names[0] == name {
        assert name !in names[1..];
      } else {
        var rest := Without(names[1..], name);
        forall j | 0 <= j < |rest| ensures rest[j] != names[0] {
          assert rest[j] in rest && rest[j] in names[1..];
        }
      }
    }
  }

  /** Adding keeps the names distinct exactly when nothing is added, or the name fits its field, or its cut form
      is not on the list yet. */
  lemma AddKeepsDistinct(names: seq<string>, iface: string, again: bool, nettype: Option<string>)
    requires NoDup(names)
    ensures NoDup(AfterAdd(names, iface, again, nettype)) <==>
            (iface in names && !again) || nettype == None || nettype == Some("lo") || |iface| < IF_NAMESIZE
              || Stored(iface) !in names
  {
    WithoutNoDup(names, iface);
    var rest := Without(names, iface);
    if !(iface in names && !again) && nettype != None && nettype != Some("lo") {
      var after := rest + [Stored(iface)];
      if Stored(iface) in rest {
        var i :| 0 <= i < |rest| && rest[i] == Stored(iface);
        assert after[i] == after[|rest|];
      } else {
        assert forall i :: 0 <= i < |rest| ==> rest[i] in rest;
      }
    }
  }

  lemma {:induction false} WithoutIsFilter(names: seq<string>, name: string)
    requires NoDup(names)
    ensures Without(names, name) == Filter(Others(name), names)
  {
    if names != [] {
      assert forall i :: 0 <= i < |names[1..]| ==> names[1..][i] == names[i + 1];
      if names[0] == name {
        assert forall n :: n in names[1..] ==> n != name;
        FilterAll(Others(name), names[1..]);
      } else {
        WithoutIsFilter(names[1..], name);
      }
    }
  }

  /** Configuring an interface puts it last and keeps the others in order, whether or not it was on the list;
      deleting it afterwards gives the list without it. */
  lemma AddThenDel(names: seq<string>, iface: string, again: bool, nettype: string)
    requires NoDup(names) && |iface| < IF_NAMESIZE && nettype != "lo"
    requires iface in names ==> again
    ensures AfterAdd(names, iface, again, Some(nettype)) == Filter(Others(iface), names) + [iface]
    ensures AfterDel(AfterAdd(names, iface, again, Some(nettype)), iface) == Filter(Others(iface), names)
  {
    var rest := Filter(Others(iface), names);
    WithoutIsFilter(names, iface);
    AddKeepsDistinct(names, iface, again, Some(nettype));
    DelOfDistinct(rest + [iface], iface);
    FilterSnoc(Others(iface), rest, iface);
    FilterAll(Others(iface), rest);
  }

  /** The name field holds fifteen characters: shorter names, as the kernel gives them, are stored as they are. */
  lemma StoredByLength(iface: string)
    ensures |iface| <= 15 ==> Stored(iface) == iface
    ensures |iface| > 15 ==> Stored(iface) == iface[..15]
  {
  }

  /** Adding, answer by answer: declining to configure again leaves the list; cancelling the type dialog, or choosing
      the loopback type, drops the entry there was and adds none. */
  lemma AddByAnswer(names: seq<string>, iface: string, nettype: Option<string>)
    requires NoDup(names)
    ensures iface in names ==> AfterAdd(names, iface, false, nettype) == names
    ensures AfterAdd(names, iface, true, None) == Filter(Others(iface), names)
    ensures AfterAdd(names, iface, true, Some("lo")) == Filter(Others(iface), names)
    ensures nettype.Some? && nettype.value != "lo" ==>
              AfterAdd(names, iface, true, nettype) == Filter(Others(iface), names) + [Stored(iface)]
    ensures iface !in names ==> AfterAdd(names, iface, false, nettype) == AfterAdd(names, iface, true, nettype)
  {
    WithoutIsFilter(names, iface);
  }

  lemma {:induction false} NoDupFilter(names: seq<string>, keep: string -> bool)
    requires NoDup(names)
    ensures NoDup(Filter(keep, names))
  {
    if names != [] {
      assert forall i :: 0 <= i < |names[1..]| ==> names[1..][i] == names[i + 1];
      NoDupFilter(names[1..], keep);
      var rest := Filter(keep, names[1..]);
      forall j | 0 <= j < |rest| ensures rest[j] != names[0] {
        assert rest[j] in rest && rest[j] in names[1..];
      }
    }
  }

  datatype Event = Add(iface: string, again: bool, nettype: Option<string>) | Del(name: string)

  function After(names: seq<string>, e: Event): seq<string> {
    match e
    case Add(iface, again, nettype) => AfterAdd(names, iface, again, nettype)
    case Del(name) => AfterDel(names, name)
  }

  function AfterAll(names: seq<string>, es: seq<Event>): seq<string>
    decreases |es|
  {
    if es == [] then names else AfterAll(After(names, es[0]), es[1..])
  }

  lemma DelOfDistinct(names: seq<string>, name: string)
    requires NoDup(names)
    ensures AfterDel(names, name) == Filter(Others(name), names) && NoDup(AfterDel(names, name))
            && name !in AfterDel(names, name)
  {
    DelIsFilter(names, name);
    NoDupFilter(names, Others(name));
  }

  /** Kernel names fit the field, so in every session of adds and deletes the names stay distinct, and each
      delete removes its interface and no other. */
  lemma {:induction false} SessionKeepsDistinct(names: seq<string>, es: seq<Event>)
    requires NoDup(names)
    requires forall e :: e in es && e.Add? ==> |e.iface| < IF_NAMESIZE
    ensures NoDup(AfterAll(names, es))
    ensures forall name :: AfterDel(AfterAll(names, es), name) == Filter(Others(name), AfterAll(names, es))
    decreases |es|
  {
    if es == [] {
      forall name ensures AfterDel(names, name) == Filter(Others(name), names) { DelOfDistinct(names, name); }
    } else {
      match es[0] {
        case Add(iface, again, nettype) =>
          assert es[0] in es;
          AddKeepsDistinct(names, iface, again, nettype);
        case Del(name) => DelOfDistinct(names, name);
      }
      SessionKeepsDistinct(After(names, es[0]), es[1..]);
    }
  }

  class NetPage {
    var interfaceslist: seq<string>

    constructor ()
      ensures interfaceslist == []
    {
      interfaceslist := [];
    }

    /** add_interface; `again` is the answer when the interface is already configured. */
    method AddInterface(iface: string, again: bool, nettype: Option<string>) returns (ret: int)
      modifies this
      ensures interfaceslist == AfterAdd(old(interfaceslist), iface, again, nettype)
      ensures ret == if (iface in old(interfaceslist) && !again) || nettype == None then -1 else 0
    {
      var i := 0;
      ghost var names := interfaceslist;
      while i < |interfaceslist|
        invariant 0 <= i <= |names| && interfaceslist == names && iface !in names[..i]
      {
        if interfaceslist[i] == iface {
          if !again { return -1; }
          WithoutAt(names, iface, i);
          interfaceslist := interfaceslist[..i] + interfaceslist[i + 1..];
          break;
        }
        i := i + 1;
      }
      if i == |names| {
        assert names[..i] == names;
        WithoutAbsent(names, iface);
      }
      if nettype == None { return -1; }
      if nettype != Some("lo") { interfaceslist := interfaceslist + [Stored(iface)]; }
      ret := 0;
    }

    /** del_interface */
    method DelInterface(nameif: string)
      modifies this
      ensures interfaceslist == AfterDel(old(interfaceslist), nameif)
    {
      var i := 0;
      while i < |interfaceslist|
        invariant 0 <= i <= |interfaceslist| + 1
        invariant i <= |interfaceslist| ==>
                interfaceslist[..i] + AfterDel(interfaceslist[i..], nameif) == AfterDel(old(interfaceslist), nameif)
        invariant i == |interfaceslist| + 1 ==> interfaceslist == AfterDel(old(interfaceslist), nameif)
        decreases |interfaceslist| + 1 - i
      {
        ghost var before := interfaceslist;
        if interfaceslist[i] == nameif {
          interfaceslist := interfaceslist[..i] + interfaceslist[i + 1..];
          DelHere(before, interfaceslist, i, nameif);
        } else {
          KeepHere(before, i, nameif);
        }
        i := i + 1;
      }
      assert i == |interfaceslist| ==> interfaceslist[..i] == interfaceslist && interfaceslist[i..] == [];
    }
  }

  lemma KeepHere(names: seq<string>, i: nat, name: string)
    requires i < |names| && names[i] != name
    ensures names[..i] + AfterDel(names[i..], name) == names[..i + 1] + AfterDel(names[i + 1..], name)
  {
    TakeOne(names, i);
    Uncons(names[i..]);
    assert names[i..][1..] == names[i + 1..];
    Assoc(names[..i], [names[i]], AfterDel(names[i + 1..], name));
  }

  lemma DelHere(before: seq<string>, after: seq<string>, i: nat, name: string)
    requires i < |before| && before[i] == name && after == before[..i] + before[i + 1..]
    ensures i < |after| ==> after[..i + 1] + AfterDel(after[i + 1..], name) == before[..i] + AfterDel(before[i..], name)
    ensures i == |after| ==> after == before[..i] + AfterDel(before[i..], name)
  {
    if i < |after| {
      assert before[i..][1] == before[i + 1] == after[i];
      assert before[i..][2..] == before[i + 2..] == after[i + 1..];
      assert after[..i + 1] == before[..i] + [after[i]];
    } else {
      assert |before[i..]| == 1;
    }
  }

  lemma {:induction false} WithoutAt(names: seq<string>, name: string, i: nat)
    requires i < |names| && names[i] == name && name !in names[..i]
    ensures Without(names, name) == names[..i] + names[i + 1..]
  {
    if i > 0 {
      assert names[0] in names[..i];
      assert names[1..][..i - 1] == names[1..i];
      assert forall x :: x in names[1..i] ==> x in names[..i];
      WithoutAt(names[1..], name, i - 1);
    }
  }

  lemma {:induction false} WithoutAbsent(names: seq<string>, name: string)
    requires name !in names
    ensures Without(names, name) == names
  {
    if names != [] {
      assert names[0] in names;
      WithoutAbsent(names[1..], name);
    }
  }
}
