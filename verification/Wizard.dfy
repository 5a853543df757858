/** fwife.c: the plugin table, its order, and the re-entrant next/previous machine. */
module Plugins {
  import opened GLists
  import opened ConfigStore

  /** A plugin as the controller sees it: its place in the order, whether it has a prerun, the configuration
      keys its callbacks cannot do without, and the keys a successful run leaves behind. */
  datatype Plugin = Plugin(name: string, priority: int, hasPrerun: bool, needs: set<string>, leaves: set<string>)

  const TABLE: seq<Plugin> := [
    Plugin("greet", 10, false, {}, {"pacconf"}),
    Plugin("layout", 15, false, {}, {"keymap", "xlayout", "xvariant"}),
    Plugin("configsource", 20, true, {"pacconf"}, {}),
    Plugin("formatdisk", 35, true, {"lang.sh", "keymap"}, {"fstab"}),
    Plugin("select", 45, true, {"pacconf"}, {"compsizepkg", "packages"}),
    Plugin("install", 50, true, {"packages"}, {}),
    Plugin("grubconfig", 52, false, {}, {}),
    Plugin("rootconf", 54, false, {}, {}),
    Plugin("usersconf", 55, false, {}, {}),
    Plugin("timeconfig", 60, true, {}, {}),
    Plugin("netconf", 65, true, {}, {}),
    Plugin("configuration", 95, true, {"xlayout", "xvariant"}, {}),
    Plugin("Completed", 100, false, {}, {})]

  function SortPlugins(a: Plugin, b: Plugin): int { a.priority - b.priority }

  function PriorityOf(p: Plugin): int { p.priority }

  lemma {:induction false} IncreasingAscends(ps: seq<Plugin>)
    requires forall i, j :: 0 <= i < j < |ps| ==> ps[i].priority < ps[j].priority
    ensures Ascending(PriorityOf, ps) && NoDup(ps)
    ensures forall x, y :: x in ps && y in ps && PriorityOf(x) == PriorityOf(y) ==> x == y
  {
    if ps != [] {
      assert forall i :: 0 <= i < |ps[1..]| ==> ps[1..][i] == ps[i + 1];
      IncreasingAscends(ps[1..]);
    }
  }

  lemma TableIncreases()
    ensures forall i, j :: 0 <= i < j < |TABLE| ==> TABLE[i].priority < TABLE[j].priority
  {
    assert forall i :: 0 <= i < |TABLE| - 1 ==> TABLE[i].priority < TABLE[i + 1].priority;
  }

  /** Whatever order the directory is read in, the wizard has the same pages in the same order. */
  lemma WizardOrderIsFixed(loaded: seq<Plugin>)
    requires multiset(loaded) == multiset(TABLE)
    ensures Sort(SortPlugins, loaded) == TABLE
  {
    TableIncreases();
    IncreasingAscends(TABLE);
    SortIgnoresArrivalOrder(SortPlugins, PriorityOf, TABLE, loaded);
    SortIsStable(SortPlugins, PriorityOf, TABLE);
    AscendingUnique(PriorityOf, Sort(SortPlugins, TABLE), TABLE);
  }

  /** The pages of the wizard, by name. */
  predicate Pages(ps: seq<Plugin>) {
    && |ps| == 13
    && ps[0].name == "greet" && ps[1].name == "layout" && ps[2].name == "configsource" && ps[3].name == "formatdisk"
    && ps[4].name == "select" && ps[5].name == "install" && ps[6].name == "grubconfig" && ps[7].name == "rootconf"
    && ps[8].name == "usersconf" && ps[9].name == "timeconfig" && ps[10].name == "netconf"
    && ps[11].name == "configuration" && ps[12].name == "Completed"
  }

  /** What the callbacks of a page read from the shared list, and what its run leaves there: the mirror page
      and the selection need the package configuration the first page names, the installation needs the selected
      packages, the last page but one the keyboard's layout. */
  predicate PageKeys(ps: seq<Plugin>)
    requires Pages(ps)
  {
    && ps[0].needs == ps[1].needs == {} && ps[2].needs == {"pacconf"} && ps[3].needs == {"lang.sh", "keymap"}
    && ps[4].needs == {"pacconf"} && ps[5].needs == {"packages"} && ps[11].needs == {"xlayout", "xvariant"}
    && ps[0].leaves == {"pacconf"} && ps[1].leaves == {"keymap", "xlayout", "xvariant"} && ps[3].leaves == {"fstab"}
    && ps[4].leaves == {"compsizepkg", "packages"}
    && (forall i :: 6 <= i < 13 ==> ps[i].leaves == {} && (i != 11 ==> ps[i].needs == {}))
    && (forall i :: 0 <= i < 13 ==> (ps[i].hasPrerun <==> i in {2, 3, 4, 5, 9, 10, 11}))
  }

  lemma TablePages()
    ensures Pages(TABLE) && PageKeys(TABLE)
  {
  }

  lemma WizardPages(loaded: seq<Plugin>)
    requires multiset(loaded) == multiset(TABLE)
    ensures Pages(Sort(SortPlugins, loaded)) && PageKeys(Sort(SortPlugins, loaded))
  {
    TablePages();
    WizardOrderIsFixed(loaded);
  }

  /** Every key a plugin needs is there from the start or written by an earlier plugin. */
  ghost predicate Provided(ps: seq<Plugin>, initial: set<string>) {
    forall i, key :: 0 <= i < |ps| && key in ps[i].needs ==>
      key in initial || exists j :: 0 <= j < i && key in ps[j].leaves
  }

  lemma TableProvides(initial: set<string>)
    ensures Provided(TABLE, initial) <==> "lang.sh" in initial
  {
    if "lang.sh" in initial {
      forall i, key | 0 <= i < |TABLE| && key in TABLE[i].needs
        ensures key in initial || exists j :: 0 <= j < i && key in TABLE[j].leaves
      {
        assert "pacconf" in TABLE[0].leaves;
        assert "keymap" in TABLE[1].leaves && "xlayout" in TABLE[1].leaves && "xvariant" in TABLE[1].leaves;
        assert "packages" in TABLE[4].leaves;
      }
    } else {
      assert "lang.sh" in TABLE[3].needs;
      assert forall j :: 0 <= j < 3 ==> "lang.sh" !in TABLE[j].leaves;
    }
  }
}

module Wizard {
  import opened GLists
  import opened ConfigStore
  import opened Plugins

  type Config = seq<Entry<int>>

  /** A callback into plugin `i`. */
  datatype Callback = RunOf(i: nat) | PrerunOf(i: nat)

  /** What a callback does: its return value, whether it calls skip_to_next_plugin, what it stores. */
  datatype Reply = Reply(ret: int, skips: bool, puts: seq<(string, int)>)

  /** The plugins, the user and the machine together: the reply to the callback made at a given time. */
  type World = (nat, Callback) -> Reply

  datatype Happening = Called(cb: Callback, config: Config) | Succeeded(i: nat) | Exited

  datatype State = State(active: nat, page: nat, exited: bool, config: Config, trace: seq<Happening>)

  function PutAll(config: Config, puts: seq<(string, int)>): Config
    decreases |puts|
  {
    if puts == [] then config else PutAll(Put(config, puts[0].0, puts[0].1), puts[1..])
  }

  function Answered(s: State, cb: Callback, reply: Reply): State {
    s.(config := PutAll(s.config, reply.puts), trace := s.trace + [Called(cb, s.config)])
  }

  function Quit(s: State): State { s.(exited := true, trace := s.trace + [Exited]) }

  /** plugin_next, with the recursion through prerun and skip_to_next_plugin. */
  function NextPlugin(ps: seq<Plugin>, world: World, s: State): (r: (State, int))
    requires s.active + 1 < |ps|
    decreases |ps| - s.active, 0
  {
    var cb := RunOf(s.active);
    var reply := world(|s.trace|, cb);
    var after := Answered(s.(page := s.active), cb, reply);
    if reply.ret == -1 then (Quit(after), -1)
    else if reply.ret == 1 then (after, -1)
    else Enter(ps, world,
      after.(active := s.active + 1, page := s.active + 1, trace := after.trace + [Succeeded(s.active)]))
  }

  /** The prerun half of plugin_next and plugin_previous. A prerun that skips calls plugin_next while it is
      the active plugin, ignores the result, and returns 0. */
  function Enter(ps: seq<Plugin>, world: World, s: State): (r: (State, int))
    requires s.active < |ps|
    decreases |ps| - s.active, 1
  {
    if !ps[s.active].hasPrerun then (s, 0)
    else
      var cb := PrerunOf(s.active);
      var reply := world(|s.trace|, cb);
      var after := Answered(s, cb, reply);
      if reply.skips && s.active + 1 < |ps| then (NextPlugin(ps, world, after).0, 0)
      else if reply.ret == -1 then (Quit(after), -1)
      else (after, 0)
  }

  function PreviousPlugin(ps: seq<Plugin>, world: World, s: State): (r: (State, int))
    requires 0 < s.active < |ps|
  {
    Enter(ps, world, s.(active := s.active - 1, page := s.active - 1))
  }

  /** close_install: the active plugin runs once more, whatever it returns, and the installer ends. */
  function Closed(world: World, s: State): State {
    var cb := RunOf(s.active);
    Quit(Answered(s, cb, world(|s.trace|, cb)))
  }

  /** A click. GTK's own Forward handler has already moved the page to `shown` when plugin_next runs. Forward and
      Back are absent on the last and the first page, and nothing is clicked after the exit. `sure` is the answer to
      the question asked before a cancellation. */
  datatype Click = Forward(shown: nat) | Back | Close | Cancel(sure: bool)

  function Clicked(ps: seq<Plugin>, world: World, s: State, c: Click): State
    requires s.active < |ps|
  {
    if s.exited then s
    else match c
      case Forward(shown) => if s.active + 1 < |ps| then NextPlugin(ps, world, s.(page := shown)).0 else s
      case Back => if s.active > 0 then PreviousPlugin(ps, world, s).0 else s
      case Close => Closed(world, s)
      case Cancel(sure) => if sure then Quit(s) else s
  }

  // ---- what a trace must look like ----

  /** A plugin keeps its word: a successful run stores its keys, and the last plugin never skips. */
  ghost predicate Honest(ps: seq<Plugin>, world: World) {
    && (forall t: nat, i: nat {:trigger world(t, RunOf(i))} ::
         i < |ps| && world(t, RunOf(i)).ret != -1 && world(t, RunOf(i)).ret != 1 ==>
         forall key :: key in ps[i].leaves ==>
           exists k :: 0 <= k < |world(t, RunOf(i)).puts| && world(t, RunOf(i)).puts[k].0 == key)
    && (forall t: nat, i: nat {:trigger world(t, PrerunOf(i))} :: i < |ps| && world(t, PrerunOf(i)).skips ==>
      i + 1 < |ps|)
  }

  ghost predicate Before(trace: seq<Happening>, t: nat, i: nat)
    requires t <= |trace|
  {
    exists u :: 0 <= u < t && trace[u] == Succeeded(i)
  }

  /** Plugin `i` is called only after every earlier plugin's run has succeeded, and with the keys it needs. */
  ghost predicate InOrder(ps: seq<Plugin>, trace: seq<Happening>) {
    forall t :: 0 <= t < |trace| ==> CalledInOrder(ps, trace, t)
  }

  ghost predicate CalledInOrder(ps: seq<Plugin>, trace: seq<Happening>, t: nat)
    requires t < |trace|
  {
    match trace[t]
    case Called(cb, config) =>
      cb.i < |ps| && ps[cb.i].needs <= Names(config) && forall j :: 0 <= j < cb.i ==> Before(trace, t, j)
    case _ => true
  }

  /** Nothing happens after the exit. */
  ghost predicate ExitIsLast(trace: seq<Happening>, exited: bool) {
    forall t :: 0 <= t < |trace| ==> (trace[t].Exited? <==> exited && t == |trace| - 1)
  }

  ghost predicate Inv(ps: seq<Plugin>, initial: set<string>, s: State) {
    && s.active < |ps|
    && (s.exited ==> s.trace != [])
    && ExitIsLast(s.trace, s.exited)
    && InOrder(ps, s.trace)
    && (forall j :: 0 <= j < s.active ==> Before(s.trace, |s.trace|, j))
    && initial <= Names(s.config) && UniqueNames(s.config)
    && (forall u :: 0 <= u < |s.trace| && s.trace[u].Succeeded? ==>
         s.trace[u].i < |ps| && ps[s.trace[u].i].leaves <= Names(s.config))
  }

  lemma {:induction false} PutAllKeeps(config: Config, puts: seq<(string, int)>)
    ensures Names(config) <= Names(PutAll(config, puts))
    ensures forall k :: 0 <= k < |puts| ==> puts[k].0 in Names(PutAll(config, puts))
    ensures UniqueNames(config) ==> UniqueNames(PutAll(config, puts))
    decreases |puts|
  {
    if puts != [] {
      PutGet(config, puts[0].0, puts[0].1);
      PutAllKeeps(Put(config, puts[0].0, puts[0].1), puts[1..]);
      assert forall k :: 1 <= k < |puts| ==> puts[k] == puts[1..][k - 1];
    }
  }

  lemma BeforeGrows(trace: seq<Happening>, more: seq<Happening>, t: nat, i: nat)
    requires t <= |trace|
    ensures Before(trace, t, i) <==> Before(trace + more, t, i)
  {
    if Before(trace, t, i) {
      var u :| 0 <= u < t && trace[u] == Succeeded(i);
      assert (trace + more)[u] == Succeeded(i);
    }
    if Before(trace + more, t, i) {
      var u :| 0 <= u < t && (trace + more)[u] == Succeeded(i);
      assert trace[u] == Succeeded(i);
    }
  }

  /** The keys a plugin needs are in the configuration once every earlier plugin has succeeded. */
  lemma KeysAreThere(ps: seq<Plugin>, initial: set<string>, s: State)
    requires Inv(ps, initial, s) && Provided(ps, initial)
    ensures ps[s.active].needs <= Names(s.config)
  {
    forall key | key in ps[s.active].needs ensures key in Names(s.config) {
      if key !in initial {
        var j :| 0 <= j < s.active && key in ps[j].leaves;
        assert Before(s.trace, |s.trace|, j);
        var u :| 0 <= u < |s.trace| && s.trace[u] == Succeeded(j);
      }
    }
  }

  lemma InOrderGrows(ps: seq<Plugin>, trace: seq<Happening>, h: Happening)
    requires InOrder(ps, trace)
    requires h.Called? ==> h.cb.i < |ps| && ps[h.cb.i].needs <= Names(h.config) && forall j :: 0 <= j < h.cb.i ==>
            Before(trace, |trace|, j)
    ensures InOrder(ps, trace + [h])
  {
    var trace' := trace + [h];
    forall t | 0 <= t < |trace'| ensures CalledInOrder(ps, trace', t) {
      if trace'[t].Called? {
        assert t < |trace| ==> trace[t] == trace'[t] && CalledInOrder(ps, trace, t);
        forall j | 0 <= j < trace'[t].cb.i ensures Before(trace', t, j) {
          assert Before(trace, t, j);
          BeforeGrows(trace, [h], t, j);
        }
      }
    }
  }

  lemma AnsweredKeeps(ps: seq<Plugin>, initial: set<string>, s: State, cb: Callback, reply: Reply)
    requires Inv(ps, initial, s) && Provided(ps, initial) && !s.exited && cb.i == s.active
    ensures Inv(ps, initial, Answered(s, cb, reply))
  {
    KeysAreThere(ps, initial, s);
    PutAllKeeps(s.config, reply.puts);
    var a := Answered(s, cb, reply);
    var more := [Called(cb, s.config)];
    assert a.trace == s.trace + more;
    InOrderGrows(ps, s.trace, Called(cb, s.config));
    forall j | 0 <= j < a.active ensures Before(a.trace, |a.trace|, j) {
      BeforeGrows(s.trace, more, |s.trace|, j);
    }
  }

  lemma QuitKeeps(ps: seq<Plugin>, initial: set<string>, s: State)
    requires Inv(ps, initial, s) && !s.exited
    ensures Inv(ps, initial, Quit(s))
  {
    var q := Quit(s);
    InOrderGrows(ps, s.trace, Exited);
    assert forall t :: 0 <= t < |s.trace| ==> q.trace[t] == s.trace[t];
    forall j | 0 <= j < q.active ensures Before(q.trace, |q.trace|, j) {
      BeforeGrows(s.trace, [Exited], |s.trace|, j);
    }
  }

  lemma AdvanceKeeps(ps: seq<Plugin>, initial: set<string>, s: State, page: nat)
    requires Inv(ps, initial, s) && !s.exited && s.active + 1 < |ps|
    requires ps[s.active].leaves <= Names(s.config)
    ensures Inv(ps, initial, s.(active := s.active + 1, page := page, trace := s.trace + [Succeeded(s.active)]))
  {
    var a := s.(active := s.active + 1, page := page, trace := s.trace + [Succeeded(s.active)]);
    InOrderGrows(ps, s.trace, Succeeded(s.active));
    assert forall t :: 0 <= t < |s.trace| ==> a.trace[t] == s.trace[t];
    forall j | 0 <= j < a.active ensures Before(a.trace, |a.trace|, j) {
      if j < s.active {
        BeforeGrows(s.trace, [Succeeded(s.active)], |s.trace|, j);
      } else {
        assert a.trace[|s.trace|] == Succeeded(j);
      }
    }
  }

  lemma {:induction false} NextKeeps(ps: seq<Plugin>, initial: set<string>, world: World, s: State)
    requires Honest(ps, world) && Provided(ps, initial)
    requires Inv(ps, initial, s) && !s.exited && s.active + 1 < |ps|
    ensures Inv(ps, initial, NextPlugin(ps, world, s).0)
    ensures NextPlugin(ps, world, s).0.page == NextPlugin(ps, world, s).0.active
    decreases |ps| - s.active, 0
  {
    var cb := RunOf(s.active);
    var reply := world(|s.trace|, cb);
    var shown := s.(page := s.active);
    AnsweredKeeps(ps, initial, shown, cb, reply);
    var after := Answered(shown, cb, reply);
    if reply.ret == -1 {
      QuitKeeps(ps, initial, after);
    } else if reply.ret != 1 {
      PutAllKeeps(s.config, reply.puts);
      assert ps[s.active].leaves <= Names(after.config);
      AdvanceKeeps(ps, initial, after, s.active + 1);
      EnterKeeps(ps, initial, world,
        after.(active := s.active + 1, page := s.active + 1, trace := after.trace + [Succeeded(s.active)]));
    }
  }

  lemma {:induction false} EnterKeeps(ps: seq<Plugin>, initial: set<string>, world: World, s: State)
    requires Honest(ps, world) && Provided(ps, initial)
    requires Inv(ps, initial, s) && !s.exited && s.page == s.active
    ensures Inv(ps, initial, Enter(ps, world, s).0)
    ensures Enter(ps, world, s).0.page == Enter(ps, world, s).0.active
    decreases |ps| - s.active, 1
  {
    if ps[s.active].hasPrerun {
      var cb := PrerunOf(s.active);
      var reply := world(|s.trace|, cb);
      AnsweredKeeps(ps, initial, s, cb, reply);
      var after := Answered(s, cb, reply);
      if reply.skips && s.active + 1 < |ps| {
        NextKeeps(ps, initial, world, after);
      } else if reply.ret == -1 {
        QuitKeeps(ps, initial, after);
      }
    }
  }

  /** One click: the invariant survives and the page shown is the active plugin's. */
  lemma ClickKeeps(ps: seq<Plugin>, initial: set<string>, world: World, s: State, c: Click)
    requires Honest(ps, world) && Provided(ps, initial)
    requires Inv(ps, initial, s) && s.page == s.active
    ensures Inv(ps, initial, Clicked(ps, world, s, c))
    ensures Clicked(ps, world, s, c).page == Clicked(ps, world, s, c).active
  {
    if !s.exited {
      match c
      case Forward(shown) =>
        if s.active + 1 < |ps| { NextKeeps(ps, initial, world, s.(page := shown)); }
      case Back =>
        if s.active > 0 { EnterKeeps(ps, initial, world, s.(active := s.active - 1, page := s.active - 1)); }
      case Close =>
        var cb := RunOf(s.active);
        var reply := world(|s.trace|, cb);
        AnsweredKeeps(ps, initial, s, cb, reply);
        QuitKeeps(ps, initial, Answered(s, cb, reply));
      case Cancel(sure) =>
        if sure { QuitKeeps(ps, initial, s); }
    }
  }

  ghost function Session(ps: seq<Plugin>, world: World, s: State, clicks: seq<Click>): State
    requires s.active < |ps|
    decreases |clicks|
  {
    if clicks == [] then s
    else
      var t := Clicked(ps, world, s, clicks[0]);
      if t.active < |ps| then Session(ps, world, t, clicks[1..]) else t
  }

  lemma {:induction false} SessionKeeps(ps: seq<Plugin>, initial: set<string>, world: World, s: State,
      clicks: seq<Click>)
    requires Honest(ps, world) && Provided(ps, initial)
    requires Inv(ps, initial, s) && s.page == s.active
    ensures Inv(ps, initial, Session(ps, world, s, clicks))
    ensures Session(ps, world, s, clicks).page == Session(ps, world, s, clicks).active
    decreases |clicks|
  {
    if clicks != [] {
      ClickKeeps(ps, initial, world, s, clicks[0]);
      SessionKeeps(ps, initial, world, Clicked(ps, world, s, clicks[0]), clicks[1..]);
    }
  }

  // ---- how far one click goes ----

  function Range(a: nat, b: nat): seq<nat>
    requires a <= b
  {
    seq(b - a, k requires 0 <= k < b - a => a + k)
  }

  /** The plugins whose run succeeded, in order of time. */
  function Successes(trace: seq<Happening>): seq<nat> {
    if trace == [] then []
    else
      var last := trace[|trace| - 1];
      Successes(trace[..|trace| - 1]) + (if last.Succeeded? then [last.i] else [])
  }

  /** The plugins whose prerun was called, in order of time. */
  function Entered(trace: seq<Happening>): seq<nat> {
    if trace == [] then []
    else
      var last := trace[|trace| - 1];
      Entered(trace[..|trace| - 1]) + (if last.Called? && last.cb.PrerunOf? then [last.cb.i] else [])
  }

  function Enters(ps: seq<Plugin>): nat -> bool { (i: nat) => i < |ps| && ps[i].hasPrerun }

  lemma OneHappening(trace: seq<Happening>, h: Happening)
    ensures Successes(trace + [h]) == Successes(trace) + (if h.Succeeded? then [h.i] else [])
    ensures Entered(trace + [h]) == Entered(trace) + (if h.Called? && h.cb.PrerunOf? then [h.cb.i] else [])
  {
    Unsnoc(trace, h);
  }

  lemma RangeFirst(a: nat, b: nat)
    requires a < b
    ensures Range(a, b) == [a] + Range(a + 1, b)
  {
  }

  /** The plugins with a prerun among those from `a` up to but not including `b`. */
  function EntersIn(ps: seq<Plugin>, a: nat, b: nat): seq<nat>
    requires a <= b
  {
    Filter(Enters(ps), Range(a, b))
  }

  lemma EntersFirst(ps: seq<Plugin>, a: nat, b: nat)
    requires a < b
    ensures EntersIn(ps, a, b) == (if Enters(ps)(a) then [a] else []) + EntersIn(ps, a + 1, b)
  {
    RangeFirst(a, b);
    assert Range(a, b)[1..] == Range(a + 1, b);
  }

  /** From `s` to `t` each plugin passed was run successfully once, and each plugin from `first` on up to the one
      now active was entered once if it has a prerun, both in wizard order, and nothing else succeeded or was
      entered. */
  ghost predicate Advanced(ps: seq<Plugin>, s: State, t: State, first: nat) {
    && s.active <= t.active && first <= t.active + 1
    && Successes(t.trace) == Successes(s.trace) + Range(s.active, t.active)
    && Entered(t.trace) == Entered(s.trace) + EntersIn(ps, first, t.active + 1)
  }

  lemma NowhereYet(ps: seq<Plugin>, s: State, t: State)
    requires t.active == s.active && Successes(t.trace) == Successes(s.trace) && Entered(t.trace) == Entered(s.trace)
    ensures Advanced(ps, s, t, s.active + 1)
  {
    assert Range(s.active, s.active) == [] && Range(s.active + 1, s.active + 1) == [];
  }

  lemma Chain(first: seq<nat>, mid: seq<nat>, last: seq<nat>, x: nat, later: seq<nat>, all: seq<nat>)
    requires mid == first + [x] && last == mid + later && all == [x] + later
    ensures last == first + all
  {
    Assoc(first, [x], later);
  }

  lemma EnteredFirst(ps: seq<Plugin>, a: nat, b: nat, entered: seq<nat>, mid: seq<nat>, last: seq<nat>)
    requires a <= b && Enters(ps)(a)
    requires mid == entered + [a] && last == mid + EntersIn(ps, a + 1, b + 1)
    ensures last == entered + EntersIn(ps, a, b + 1)
  {
    EntersFirst(ps, a, b + 1);
    Chain(entered, mid, last, a, EntersIn(ps, a + 1, b + 1), EntersIn(ps, a, b + 1));
  }

  /** A step that enters the active plugin and then advances from it. */
  lemma EnteredThen(ps: seq<Plugin>, s: State, mid: State, t: State)
    requires mid.active == s.active && Enters(ps)(s.active)
    requires Successes(mid.trace) == Successes(s.trace) && Entered(mid.trace) == Entered(s.trace) + [s.active]
    requires Advanced(ps, mid, t, mid.active + 1)
    ensures Advanced(ps, s, t, s.active)
  {
    EnteredFirst(ps, s.active, t.active, Entered(s.trace), Entered(mid.trace), Entered(t.trace));
  }

  /** A step that passes the active plugin and then enters the next. */
  lemma PassedThen(ps: seq<Plugin>, s: State, mid: State, t: State)
    requires mid.active == s.active + 1
    requires Successes(mid.trace) == Successes(s.trace) + [s.active] && Entered(mid.trace) == Entered(s.trace)
    requires Advanced(ps, mid, t, mid.active)
    ensures Advanced(ps, s, t, s.active + 1)
  {
    RangeFirst(s.active, t.active);
    Chain(Successes(s.trace), Successes(mid.trace), Successes(t.trace), s.active, Range(s.active + 1, t.active),
      Range(s.active, t.active));
  }

  lemma {:induction false} NextAdvances(ps: seq<Plugin>, world: World, s: State)
    requires s.active + 1 < |ps|
    ensures Advanced(ps, s, NextPlugin(ps, world, s).0, s.active + 1)
    decreases |ps| - s.active, 0
  {
    var t := NextPlugin(ps, world, s).0;
    var cb := RunOf(s.active);
    var reply := world(|s.trace|, cb);
    var after := Answered(s.(page := s.active), cb, reply);
    OneHappening(s.trace, Called(cb, s.config));
    if reply.ret == -1 {
      OneHappening(after.trace, Exited);
      NowhereYet(ps, s, t);
    } else if reply.ret == 1 {
      NowhereYet(ps, s, t);
    } else {
      var mid := after.(active := s.active + 1, page := s.active + 1, trace := after.trace + [Succeeded(s.active)]);
      OneHappening(after.trace, Succeeded(s.active));
      EnterAdvances(ps, world, mid);
      PassedThen(ps, s, mid, t);
    }
  }

  /** However deep the skips of preruns nest. */
  lemma {:induction false} EnterAdvances(ps: seq<Plugin>, world: World, s: State)
    requires s.active < |ps|
    ensures Advanced(ps, s, Enter(ps, world, s).0, s.active)
    decreases |ps| - s.active, 1
  {
    var t := Enter(ps, world, s).0;
    if !ps[s.active].hasPrerun {
      NowhereYet(ps, s, t);
      EntersFirst(ps, s.active, s.active + 1);
    } else {
      var cb := PrerunOf(s.active);
      var reply := world(|s.trace|, cb);
      var after := Answered(s, cb, reply);
      OneHappening(s.trace, Called(cb, s.config));
      if reply.skips && s.active + 1 < |ps| {
        NextAdvances(ps, world, after);
      } else {
        if reply.ret == -1 { OneHappening(after.trace, Exited); }
        NowhereYet(ps, after, t);
      }
      EnteredThen(ps, s, after, t);
    }
  }

  // ---- one click, reply by reply ----

  /** Back: from the page below on, the same count. The page below is entered, and when it does not skip itself the
      wizard ends on it. */
  lemma BackGoesDown(ps: seq<Plugin>, world: World, s: State)
    requires 0 < s.active < |ps|
    ensures var t := PreviousPlugin(ps, world, s).0;
            && s.active - 1 <= t.active
            && Successes(t.trace) == Successes(s.trace) + Range(s.active - 1, t.active)
            && Entered(t.trace) == Entered(s.trace) + EntersIn(ps, s.active - 1, t.active + 1)
  {
    EnterAdvances(ps, world, s.(active := s.active - 1, page := s.active - 1));
  }

  lemma BackWithoutPrerun(ps: seq<Plugin>, world: World, s: State)
    requires 0 < s.active < |ps| && !ps[s.active - 1].hasPrerun
    ensures var (t, ret) := PreviousPlugin(ps, world, s);
            && ret == 0 && t.active == t.page == s.active - 1
            && t.trace == s.trace && t.config == s.config && t.exited == s.exited
  {
  }

  lemma BackWithPrerun(ps: seq<Plugin>, world: World, s: State)
    requires 0 < s.active < |ps| && ps[s.active - 1].hasPrerun && !world(|s.trace|, PrerunOf(s.active - 1)).skips
    ensures var (t, ret) := PreviousPlugin(ps, world, s);
            var failed := world(|s.trace|, PrerunOf(s.active - 1)).ret == -1;
            && t.active == t.page == s.active - 1
            && t.trace == s.trace + [Called(PrerunOf(s.active - 1), s.config)] + (if failed then [Exited] else [])
            && (failed ==> t.exited && ret == -1) && (!failed ==> t.exited == s.exited && ret == 0)
  {
  }

  /** Forward, when the page's own run does not let the user go on: -1 ends the installer, 1 stays. */
  lemma ForwardRefused(ps: seq<Plugin>, world: World, s: State)
    requires s.active + 1 < |ps| && world(|s.trace|, RunOf(s.active)).ret in {-1, 1}
    ensures var (t, ret) := NextPlugin(ps, world, s);
            var failed := world(|s.trace|, RunOf(s.active)).ret == -1;
            && ret == -1 && t.active == t.page == s.active
            && t.trace == s.trace + [Called(RunOf(s.active), s.config)] + (if failed then [Exited] else [])
            && (failed ==> t.exited) && (!failed ==> t.exited == s.exited)
  {
  }

  /** Forward, when it does: the page is passed; the next one is entered and, unless it skips itself, shown. */
  lemma ForwardAccepted(ps: seq<Plugin>, world: World, s: State)
    requires s.active + 1 < |ps| && world(|s.trace|, RunOf(s.active)).ret !in {-1, 1}
    requires !ps[s.active + 1].hasPrerun
    ensures var (t, ret) := NextPlugin(ps, world, s);
            && ret == 0 && t.active == t.page == s.active + 1 && t.exited == s.exited
            && t.trace == s.trace + [Called(RunOf(s.active), s.config)] + [Succeeded(s.active)]
  {
  }

  lemma ForwardEnters(ps: seq<Plugin>, world: World, s: State)
    requires s.active + 1 < |ps| && world(|s.trace|, RunOf(s.active)).ret !in {-1, 1}
    requires ps[s.active + 1].hasPrerun && !world(|s.trace| + 2, PrerunOf(s.active + 1)).skips
    ensures var (t, ret) := NextPlugin(ps, world, s);
            var config := PutAll(s.config, world(|s.trace|, RunOf(s.active)).puts);
            var failed := world(|s.trace| + 2, PrerunOf(s.active + 1)).ret == -1;
            && t.active == t.page == s.active + 1
            && t.trace == s.trace + [Called(RunOf(s.active), s.config)] + [Succeeded(s.active)]
                          + [Called(PrerunOf(s.active + 1), config)] + (if failed then [Exited] else [])
            && (failed ==> t.exited && ret == -1) && (!failed ==> t.exited == s.exited && ret == 0)
  {
  }

  /** A page that skips itself is run at once, as if the user had clicked, and the result of that is ignored. */
  lemma ForwardSkips(ps: seq<Plugin>, world: World, s: State)
    requires s.active + 2 < |ps| && world(|s.trace|, RunOf(s.active)).ret !in {-1, 1}
    requires ps[s.active + 1].hasPrerun && world(|s.trace| + 2, PrerunOf(s.active + 1)).skips
    ensures var (t, ret) := NextPlugin(ps, world, s);
            && ret == 0
            && exists mid: State ::
                 && mid.active == s.active + 1 && mid.exited == s.exited && |mid.trace| == |s.trace| + 3
                 && mid.trace[..|s.trace| + 2] == s.trace + [Called(RunOf(s.active), s.config)] + [Succeeded(s.active)]
                 && mid.trace[|s.trace| + 2].Called? && mid.trace[|s.trace| + 2].cb == PrerunOf(s.active + 1)
                 && t == NextPlugin(ps, world, mid).0
  {
    var first := Answered(s.(page := s.active), RunOf(s.active), world(|s.trace|, RunOf(s.active)));
    var passed := first.(active := s.active + 1, page := s.active + 1, trace := first.trace + [Succeeded(s.active)]);
    var cb := PrerunOf(s.active + 1);
    var mid := Answered(passed, cb, world(|passed.trace|, cb));
    assert mid.trace[..|s.trace| + 2] == s.trace + [Called(RunOf(s.active), s.config)] + [Succeeded(s.active)];
    assert NextPlugin(ps, world, s).0 == NextPlugin(ps, world, mid).0;
  }

  /** The other clicks, and clicks that find their button absent. */
  lemma OtherClicks(ps: seq<Plugin>, world: World, s: State, sure: bool, shown: nat)
    requires s.active < |ps| && !s.exited
    ensures var t := Clicked(ps, world, s, Close);
            && t.exited && t.active == s.active && t.page == s.page
            && t.trace == s.trace + [Called(RunOf(s.active), s.config)] + [Exited]
    ensures var t := Clicked(ps, world, s, Cancel(true));
            t.exited && t.active == s.active && t.page == s.page && t.config == s.config
              && t.trace == s.trace + [Exited]
    ensures Clicked(ps, world, s, Cancel(false)) == s
    ensures s.active == 0 ==> Clicked(ps, world, s, Back) == s
    ensures s.active > 0 ==> Clicked(ps, world, s, Back) == PreviousPlugin(ps, world, s).0
    ensures s.active + 1 == |ps| ==> Clicked(ps, world, s, Forward(shown)) == s
    ensures s.active + 1 < |ps| ==> Clicked(ps, world, s, Forward(shown)) == NextPlugin(ps, world, s.(page := shown)).0
  {
  }

  lemma NothingAfterTheExit(ps: seq<Plugin>, world: World, s: State, c: Click)
    requires s.active < |ps| && s.exited
    ensures Clicked(ps, world, s, c) == s
  {
  }

  /** What a callback stores last under a key is what the key reads back; other keys are as before. */
  lemma {:induction false} PutAllReads(config: Config, puts: seq<(string, int)>, key: string)
    ensures Get(PutAll(config, puts), key) ==
            if LastPut(puts, key).Some? then LastPut(puts, key) else Get(config, key)
    decreases |puts|
  {
    if puts != [] {
      PutGet(config, puts[0].0, puts[0].1);
      PutAllReads(Put(config, puts[0].0, puts[0].1), puts[1..], key);
    }
  }

  function LastPut(puts: seq<(string, int)>, key: string): Option<int> {
    if puts == [] then None
    else
      var later := LastPut(puts[1..], key);
      if later.Some? then later else if puts[0].0 == key then Some(puts[0].1) else None
  }

  /** The whole installer: the plugins loaded in any order, the configuration asklang leaves (it stored
      lang.sh), any clicks, any replies of honest plugins. The page shown is always the active plugin's; no
      plugin is called before every earlier one has succeeded, nor without the keys it needs; nothing is
      called after an exit. */
  lemma EveryCallbackFindsItsKeys(loaded: seq<Plugin>, world: World, config: Config, clicks: seq<Click>)
    requires multiset(loaded) == multiset(TABLE) && Honest(TABLE, world)
    requires "lang.sh" in Names(config) && UniqueNames(config)
    ensures var ps := Sort(SortPlugins, loaded);
            |ps| == |TABLE| &&
            var end := Session(ps, world, State(0, 0, false, config, []), clicks);
            end.page == end.active && InOrder(TABLE, end.trace) && ExitIsLast(end.trace, end.exited)
              && UniqueNames(end.config)
  {
    WizardOrderIsFixed(loaded);
    TableProvides({"lang.sh"});
    SessionKeeps(TABLE, {"lang.sh"}, world, State(0, 0, false, config, []), clicks);
  }

  /** The controller as fwife.c keeps it: the active plugin, the page of the assistant, the shared list. */
  class Controller {
    const plugins: seq<Plugin>
    var active: nat
    var page: nat
    var exited: bool
    var config: Config
    ghost var trace: seq<Happening>

    ghost function Abs(): State reads this { State(active, page, exited, config, trace) }

    ghost predicate Valid() reads this { active < |plugins| }

    constructor (loaded: seq<Plugin>, config: Config)
      requires loaded != []
      ensures plugins == Sort(SortPlugins, loaded)
      ensures Valid() && Abs() == State(0, 0, false, config, [])
    {
      plugins := Sort(SortPlugins, loaded);
      active, page, exited, trace := 0, 0, false, [];
      this.config := config;
    }

    method Call(cb: Callback, time: nat, world: World) returns (reply: Reply)
      requires time == |trace|
      modifies this`config, this`trace
      ensures reply == world(time, cb) && Abs() == Answered(old(Abs()), cb, reply)
    {
      reply := world(time, cb);
      ghost var before := config;
      for k := 0 to |reply.puts|
        invariant PutAll(config, reply.puts[k..]) == PutAll(before, reply.puts)
        invariant trace == old(trace)
      {
        assert reply.puts[k..][0] == reply.puts[k] && reply.puts[k..][1..] == reply.puts[k + 1..];
        config := DataPut(config, reply.puts[k].0, reply.puts[k].1);
      }
      trace := trace + [Called(cb, before)];
    }

    method FwifeExit()
      modifies this`exited, this`trace
      ensures Abs() == Quit(old(Abs()))
    {
      exited := true;
      trace := trace + [Exited];
    }

    /** plugin_next; `clock` counts what has happened so far. */
    method PluginNext(world: World, clock: nat) returns (ret: int, clock': nat)
      requires Valid() && active + 1 < |plugins| && clock == |trace|
      modifies this
      ensures Valid() && clock' == |trace|
      ensures (Abs(), ret) == NextPlugin(plugins, world, old(Abs()))
      decreases |plugins| - active, 0, 0
    {
      var pluginNumber := active + 1;
      page := pluginNumber - 1;
      var reply := Call(RunOf(active), clock, world);
      if reply.ret == -1 {
        FwifeExit();
        return -1, clock + 2;
      } else if reply.ret == 1 {
        return -1, clock + 1;
      }
      page := pluginNumber;
      trace := trace + [Succeeded(active)];
      active := pluginNumber;
      ret, clock' := CallPrerun(world, clock + 2);
    }

    method CallPrerun(world: World, clock: nat) returns (ret: int, clock': nat)
      requires Valid() && clock == |trace|
      modifies this
      ensures Valid() && clock' == |trace|
      ensures (Abs(), ret) == Enter(plugins, world, old(Abs()))
      decreases |plugins| - active, 1, 0
    {
      if !plugins[active].hasPrerun { return 0, clock; }
      var reply := Call(PrerunOf(active), clock, world);
      if reply.skips && active + 1 < |plugins| {
        ret, clock' := SkipToNextPlugin(world, clock + 1);
        return 0, clock';
      }
      if reply.ret == -1 {
        FwifeExit();
        return -1, clock + 2;
      }
      return 0, clock + 1;
    }

    method SkipToNextPlugin(world: World, clock: nat) returns (ret: int, clock': nat)
      requires Valid() && active + 1 < |plugins| && clock == |trace|
      modifies this
      ensures Valid() && clock' == |trace|
      ensures (Abs(), ret) == NextPlugin(plugins, world, old(Abs()))
      decreases |plugins| - active, 0, 1
    {
      ret, clock' := PluginNext(world, clock);
    }

    /** close_install */
    method CloseInstall(world: World, clock: nat) returns (clock': nat)
      requires Valid() && clock == |trace|
      modifies this
      ensures Valid() && clock' == |trace|
      ensures Abs() == Closed(world, old(Abs()))
    {
      var reply := Call(RunOf(active), clock, world);
      FwifeExit();
      clock' := clock + 2;
    }

    /** cancel_install; `sure` is the answer to the question. */
    method CancelInstall(sure: bool)
      requires Valid()
      modifies this
      ensures Valid() && Abs() == if sure then Quit(old(Abs())) else old(Abs())
    {
      if sure { FwifeExit(); }
    }

    /** plugin_previous */
    method PluginPrevious(world: World, clock: nat) returns (ret: int, clock': nat)
      requires Valid() && active > 0 && clock == |trace|
      modifies this
      ensures Valid() && clock' == |trace|
      ensures (Abs(), ret) == PreviousPlugin(plugins, world, old(Abs()))
    {
      var pluginNumber := active - 1;
      active := pluginNumber;
      page := pluginNumber;
      ret, clock' := CallPrerun(world, clock);
    }
  }
}
