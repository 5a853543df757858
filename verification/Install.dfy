/** install.c: one package transaction, and the walk over several discs. */
module Install {
  import opened GLists
  import opened PackageNames

  // ---- the library's protocol ----

  datatype Call =
    | Initialize(ok: bool) | ParseConfig(ok: bool) | Register(ok: bool)
    | TransInit(ok: bool) | AddTarget(name: string, ok: bool) | Prepare(ok: bool) | GetInfo(ok: bool) | Commit(ok: bool)
    | TransRelease | Release

  datatype Phase = Released | Ready | Open(asked: seq<string>, accepted: seq<string>, prepared: bool)

  /** The library: its phase and the target lists committed so far. */
  datatype Library = Library(phase: Phase, committed: seq<seq<string>>)

  /** The library after a call, or None when the call is out of turn. A transaction is prepared only once it
      has been asked for every one of `names`, in order; it is inspected and committed only once prepared. */
  function After(names: seq<string>, lib: Library, c: Call): Option<Library> {
    match lib.phase
    case Released =>
      if c.Initialize? then Some(if c.ok then lib.(phase := Ready) else lib) else None
    case Ready =>
      if c.ParseConfig? || c.Register? then Some(lib)
      else if c.TransInit? then Some(if c.ok then lib.(phase := Open([], [], false)) else lib)
      else if c.Release? then Some(lib.(phase := Released))
      else None
    case Open(asked, accepted, prepared) =>
      if c.TransRelease? then Some(lib.(phase := Ready))
      else if c.AddTarget? && !prepared then
        Some(lib.(phase := Open(asked + [c.name], if c.ok then accepted + [c.name] else accepted, false)))
      else if c.Prepare? && !prepared && asked == names then Some(lib.(phase := Open(asked, accepted, c.ok)))
      else if c.GetInfo? && prepared then Some(lib)
      else if c.Commit? && prepared then Some(if c.ok then lib.(committed := lib.committed + [accepted]) else lib)
      else None
  }

  function Play(names: seq<string>, lib: Library, calls: seq<Call>): Option<Library> {
    if calls == [] then Some(lib)
    else
      var before := Play(names, lib, calls[..|calls| - 1]);
      if before == None then None else After(names, before.value, calls[|calls| - 1])
  }

  // ---- what a list of calls means, read off the calls alone ----

  /** The names asked for, and those accepted, since the last transaction was opened. */
  function AskedSince(calls: seq<Call>): seq<string> {
    if calls == [] then []
    else
      var init, last := calls[..|calls| - 1], calls[|calls| - 1];
      if last == TransInit(true) then []
      else if last.AddTarget? then AskedSince(init) + [last.name]
      else AskedSince(init)
  }

  function AcceptedSince(calls: seq<Call>): seq<string> {
    if calls == [] then []
    else
      var init, last := calls[..|calls| - 1], calls[|calls| - 1];
      if last == TransInit(true) then []
      else if last.AddTarget? && last.ok then AcceptedSince(init) + [last.name]
      else AcceptedSince(init)
  }

  /** Has the transaction been prepared since it was opened? */
  predicate PreparedSince(calls: seq<Call>) {
    calls != [] &&
    var init, last := calls[..|calls| - 1], calls[|calls| - 1];
    last == Prepare(true) || (last != TransInit(true) && PreparedSince(init))
  }

  /** The lists of targets committed, in order of time. */
  function CommittedLists(calls: seq<Call>): seq<seq<string>> {
    if calls == [] then []
    else
      var init, last := calls[..|calls| - 1], calls[|calls| - 1];
      CommittedLists(init) + (if last == Commit(true) then [AcceptedSince(init)] else [])
  }

  function Is(c: Call): Call -> bool { (d: Call) => d == c }

  function Count(calls: seq<Call>, c: Call): nat { |Filter(Is(c), calls)| }

  /** What was initialised was released, and what was opened was closed. */
  predicate Balanced(calls: seq<Call>) {
    Count(calls, Initialize(true)) == Count(calls, Release)
      && Count(calls, TransInit(true)) == Count(calls, TransRelease)
  }

  /** The state of the library agrees with the calls made. */
  ghost predicate Agrees(lib: Library, calls: seq<Call>) {
    && lib.committed == CommittedLists(calls)
    && Count(calls, Initialize(true)) == Count(calls, Release) + (if lib.phase.Released? then 0 else 1)
    && Count(calls, TransInit(true)) == Count(calls, TransRelease) + (if lib.phase.Open? then 1 else 0)
    && (lib.phase.Open? ==>
         lib.phase.asked == AskedSince(calls) && lib.phase.accepted == AcceptedSince(calls)
         && (lib.phase.prepared <==> PreparedSince(calls)))
  }

  lemma CountSnoc(calls: seq<Call>, c: Call, d: Call)
    ensures Count(calls + [c], d) == Count(calls, d) + (if c == d then 1 else 0)
  {
    FilterSnoc(Is(d), calls, c);
  }

  lemma AgreesOn(names: seq<string>, lib: Library, calls: seq<Call>, c: Call)
    requires Agrees(lib, calls) && After(names, lib, c).Some?
    ensures Agrees(After(names, lib, c).value, calls + [c])
  {
    Unsnoc(calls, c);
    CountSnoc(calls, c, Initialize(true));
    CountSnoc(calls, c, Release);
    CountSnoc(calls, c, TransInit(true));
    CountSnoc(calls, c, TransRelease);
  }

  lemma PlayNext(names: seq<string>, init: seq<Call>, last: Call)
    requires Play(names, IDLE, init).Some? ==> Agrees(Play(names, IDLE, init).value, init)
    ensures var calls := init + [last];
            Play(names, IDLE, calls).Some? ==> Agrees(Play(names, IDLE, calls).value, calls)
  {
    Unsnoc(init, last);
    if Play(names, IDLE, init + [last]).Some? { AgreesOn(names, Play(names, IDLE, init).value, init, last); }
  }

  /** Calls in turn mean what they say: the lists committed are the targets accepted since the transaction was
      opened, and openings and closings match. */
  lemma {:induction false} PlayMeans(names: seq<string>, calls: seq<Call>)
    ensures Play(names, IDLE, calls).Some? ==> Agrees(Play(names, IDLE, calls).value, calls)
    decreases |calls|
  {
    if calls != [] {
      var init, last := calls[..|calls| - 1], calls[|calls| - 1];
      PlayMeans(names, init);
      PlayNext(names, init, last);
      assert calls == init + [last];
    }
  }

  lemma {:induction false} PlayPrefix(names: seq<string>, calls: seq<Call>, i: nat)
    requires i <= |calls| && Play(names, IDLE, calls).Some?
    ensures Play(names, IDLE, calls[..i]).Some?
    decreases |calls|
  {
    if i < |calls| {
      PlayPrefix(names, calls[..|calls| - 1], i);
      assert calls[..|calls| - 1][..i] == calls[..i];
    } else {
      TakeAll(calls);
    }
  }

  lemma CommitReady(names: seq<string>, init: seq<Call>, c: Call)
    requires (c.Commit? || c.GetInfo?) && Play(names, IDLE, init + [c]).Some?
    ensures AskedSince(init) == names && PreparedSince(init)
  {
    Unsnoc(init, c);
    PreparedAsked(names, init);
    PlayMeans(names, init);
  }

  /** Nothing is inspected or committed but a prepared transaction that was asked for every name, in order. */
  lemma CommitsArePrepared(names: seq<string>, calls: seq<Call>, i: nat)
    requires i < |calls| && (calls[i].Commit? || calls[i].GetInfo?) && Play(names, IDLE, calls).Some?
    ensures AskedSince(calls[..i]) == names && PreparedSince(calls[..i])
  {
    PlayPrefix(names, calls, i + 1);
    TakeOne(calls, i);
    CommitReady(names, calls[..i], calls[i]);
  }

  lemma AskOpen(names: seq<string>, init: seq<Call>, c: Call)
    requires c.AddTarget? && Play(names, IDLE, init + [c]).Some?
    ensures !PreparedSince(init)
  {
    Unsnoc(init, c);
    PlayMeans(names, init);
  }

  /** No target is added to a transaction that has been prepared. */
  lemma TargetsBeforePrepare(names: seq<string>, calls: seq<Call>, i: nat)
    requires i < |calls| && calls[i].AddTarget? && Play(names, IDLE, calls).Some?
    ensures !PreparedSince(calls[..i])
  {
    PlayPrefix(names, calls, i + 1);
    TakeOne(calls, i);
    AskOpen(names, calls[..i], calls[i]);
  }

  lemma {:induction false} PreparedAsked(names: seq<string>, calls: seq<Call>)
    ensures Play(names, IDLE, calls).Some? && Play(names, IDLE, calls).value.phase.Open?
              && Play(names, IDLE, calls).value.phase.prepared ==>
            Play(names, IDLE, calls).value.phase.asked == names
    decreases |calls|
  {
    if calls != [] { PreparedAsked(names, calls[..|calls| - 1]); }
  }

  // ---- what the library and the user answer ----

  datatype InitReply = Locked | InitFails | InitSucceeds
  datatype CommitReply = Committed | DiskFull | Corrupted(again: bool) | RetrieveFailed | OtherFailure

  /** One pass from the retry label: the replies of trans_init, addtarget, prepare, getinfo and commit. */
  datatype Attempt = Attempt(init: InitReply, refused: set<string>, prepared: bool, listed: bool, commit: CommitReply)

  datatype Startup = Startup(initialized: bool, parsed: bool, registered: bool)

  predicate Retries(a: Attempt) {
    a.init.Locked? || (a.init.InitSucceeds? && a.prepared && a.listed && a.commit == Corrupted(true))
  }

  predicate Wins(a: Attempt) {
    a.init.InitSucceeds? && a.prepared && a.listed && a.commit.Committed?
  }

  /** The attempt at which the retrying stops. */
  function Deciding(attempts: seq<Attempt>): Option<Attempt> {
    if attempts == [] then None
    else if Retries(attempts[0]) then Deciding(attempts[1..])
    else Some(attempts[0])
  }

  predicate Succeeds(start: Startup, attempts: seq<Attempt>) {
    && start.initialized && start.parsed && start.registered
    && Deciding(attempts).Some? && Wins(Deciding(attempts).value)
  }

  function Accepts(a: Attempt): string -> bool { name => name !in a.refused }

  const IDLE: Library := Library(Released, [])

  /** The state a complete session leaves: the library released, and on success exactly one committed list,
      the targets the deciding attempt did not refuse. */
  function EndOf(names: seq<string>, start: Startup, attempts: seq<Attempt>): Library {
    if names != [] && Succeeds(start, attempts) then
      Library(Released, [Filter(Accepts(Deciding(attempts).value), names)])
    else IDLE
  }

  /** Make one call; only a call in turn can be made. */
  method Perform(ghost names: seq<string>, calls: seq<Call>, ghost lib: Library, c: Call)
    returns (calls': seq<Call>, ghost lib': Library)
    requires Play(names, IDLE, calls) == Some(lib)
    requires After(names, lib, c).Some?
    ensures calls' == calls + [c] && lib' == After(names, lib, c).value
    ensures Play(names, IDLE, calls') == Some(lib')
    ensures calls <= calls'
  {
    calls' := calls + [c];
    lib' := After(names, lib, c).value;
    assert calls'[..|calls|] == calls;
  }

  lemma AskNext(names: seq<string>, a: Attempt, asked: seq<string>, name: string, lib: Library)
    requires lib == Library(Open(asked, Filter(Accepts(a), asked), false), [])
    ensures After(names, lib, AddTarget(name, name !in a.refused))
         == Some(Library(Open(asked + [name], Filter(Accepts(a), asked + [name]), false), []))
  {
    FilterSnoc(Accepts(a), asked, name);
  }

  /** The target loop of install_pkgs. */
  method AddTargets(pkgs: seq<string>, a: Attempt, calls: seq<Call>, ghost lib: Library)
    returns (calls': seq<Call>, ghost lib': Library)
    requires Play(Map(DropVersion, pkgs), IDLE, calls) == Some(lib)
    requires lib == Library(Open([], [], false), [])
    ensures Play(Map(DropVersion, pkgs), IDLE, calls') == Some(lib')
    ensures lib' == Library(Open(Map(DropVersion, pkgs), Filter(Accepts(a), Map(DropVersion, pkgs)), false), [])
    ensures calls <= calls'
  {
    ghost var names := Map(DropVersion, pkgs);
    calls', lib' := calls, lib;
    for i := 0 to |pkgs|
      invariant Play(names, IDLE, calls') == Some(lib')
      invariant lib' == Library(Open(names[..i], Filter(Accepts(a), names[..i]), false), [])
      invariant calls <= calls'
    {
      var ptr := DropVersionInPlace(pkgs[i]);
      AskNext(names, a, names[..i], names[i], lib');
      TakeOne(names, i);
      calls', lib' := Perform(names, calls', lib', AddTarget(ptr, ptr !in a.refused));
    }
    TakeAll(names);
  }

  datatype Verdict = Retry | Failed | Done

  function VerdictOn(a: Attempt): Verdict {
    if Retries(a) then Retry else if Wins(a) then Done else Failed
  }

  /** Prepare, inspect, commit and release a transaction that has all its targets. */
  method Finish(ghost names: seq<string>, ghost accepted: seq<string>, a: Attempt, calls: seq<Call>, ghost lib: Library)
    returns (verdict: Verdict, calls': seq<Call>, ghost lib': Library)
    requires a.init.InitSucceeds?
    requires Play(names, IDLE, calls) == Some(lib) && lib == Library(Open(names, accepted, false), [])
    ensures Play(names, IDLE, calls') == Some(lib') && verdict == VerdictOn(a)
    ensures lib' == Library(Ready, if Wins(a) then [accepted] else [])
    ensures calls <= calls'
  {
    calls', lib' := Perform(names, calls, lib, Prepare(a.prepared));
    if !a.prepared {
      calls', lib' := Perform(names, calls', lib', TransRelease);
      return Failed, calls', lib';
    }
    calls', lib' := Perform(names, calls', lib', GetInfo(a.listed));
    if !a.listed {
      calls', lib' := Perform(names, calls', lib', TransRelease);
      return Failed, calls', lib';
    }
    calls', lib' := Perform(names, calls', lib', Commit(a.commit.Committed?));
    calls', lib' := Perform(names, calls', lib', TransRelease);
    verdict := if a.commit.Committed? then Done else if a.commit == Corrupted(true) then Retry else Failed;
  }

  /** One pass from the retry label, transaction opened and closed again. */
  method TryOnce(pkgs: seq<string>, a: Attempt, calls: seq<Call>, ghost lib: Library)
    returns (verdict: Verdict, calls': seq<Call>, ghost lib': Library)
    requires Play(Map(DropVersion, pkgs), IDLE, calls) == Some(lib) && lib == Library(Ready, [])
    ensures Play(Map(DropVersion, pkgs), IDLE, calls') == Some(lib') && verdict == VerdictOn(a)
    ensures lib' == Library(Ready, if Wins(a) then [Filter(Accepts(a), Map(DropVersion, pkgs))] else [])
    ensures calls <= calls'
  {
    ghost var names := Map(DropVersion, pkgs);
    calls', lib' := Perform(names, calls, lib, TransInit(a.init.InitSucceeds?));
    if a.init.Locked? { return Retry, calls', lib'; }
    if a.init.InitFails? { return Failed, calls', lib'; }
    calls', lib' := AddTargets(pkgs, a, calls', lib');
    verdict, calls', lib' := Finish(names, Filter(Accepts(a), names), a, calls', lib');
  }

  /** The calls of one install_pkgs: all in turn, ending as EndOf says. */
  predicate CompleteSession(pkgs: seq<string>, start: Startup, attempts: seq<Attempt>, calls: seq<Call>) {
    Play(Map(DropVersion, pkgs), IDLE, calls) == Some(EndOf(Map(DropVersion, pkgs), start, attempts))
  }

  /** The first calls of a session on packages: the library is started, then the configuration is read, then the
      database registered, each only after the one before it succeeded. */
  predicate StartsUp(start: Startup, calls: seq<Call>) {
    && calls != [] && calls[0] == Initialize(start.initialized)
    && (start.initialized ==> |calls| > 1 && calls[1] == ParseConfig(start.parsed))
    && (start.initialized && start.parsed ==> |calls| > 2 && calls[2] == Register(start.registered))
  }

  /** install_pkgs. `attempts` scripts the passes from the retry label; when it runs out the transaction cannot
      be initialised. Whatever the replies, every call is in turn, everything opened is closed again, and the
      library ends released. It returns 0 exactly when there is nothing to install or a pass commits, and then that
      pass has committed, once, the targets the library did not refuse. */
  method InstallPkgs(pkgs: seq<string>, start: Startup, attempts: seq<Attempt>) returns (ret: int, calls: seq<Call>)
    ensures ret == if pkgs == [] || Succeeds(start, attempts) then 0 else -1
    ensures CompleteSession(pkgs, start, attempts, calls)
    ensures pkgs != [] ==>
              (ret == 0 <==>
                && start.initialized && start.parsed && start.registered
                && exists k :: 0 <= k < |attempts|
                     && attempts[k].init.InitSucceeds? && attempts[k].prepared && attempts[k].listed
                     && attempts[k].commit.Committed?
                     && forall j :: 0 <= j < k ==>
                          attempts[j].init.Locked?
                          || (attempts[j].init.InitSucceeds? && attempts[j].prepared && attempts[j].listed
                              && attempts[j].commit == Corrupted(true)))
    ensures Balanced(calls)
    ensures pkgs == [] ==> calls == []
    ensures pkgs != [] ==> StartsUp(start, calls)
    ensures |CommittedLists(calls)| == if ret == 0 && pkgs != [] then 1 else 0
  {
    ret, calls := RunSession(pkgs, start, attempts);
    SucceedsExactly(start, attempts);
    PlayMeans(Map(DropVersion, pkgs), calls);
  }

  lemma StartsOn(start: Startup, before: seq<Call>, calls: seq<Call>)
    requires StartsUp(start, before) && before <= calls
    ensures StartsUp(start, calls)
  {
  }

  /** Start the library, read its configuration, register the database; on a failure release what was started. */
  method StartLibrary(ghost names: seq<string>, start: Startup)
    returns (ok: bool, calls: seq<Call>, ghost lib: Library)
    ensures Play(names, IDLE, calls) == Some(lib) && StartsUp(start, calls)
    ensures ok == (start.initialized && start.parsed && start.registered)
    ensures lib == if ok then Library(Ready, []) else IDLE
  {
    calls, lib := Perform(names, [], IDLE, Initialize(start.initialized));
    ghost var first := calls;
    if !start.initialized { return false, calls, lib; }
    calls, lib := Perform(names, calls, lib, ParseConfig(start.parsed));
    ghost var second := calls;
    if !start.parsed {
      calls, lib := Perform(names, calls, lib, Release);
      StartedOn(start, first, second, calls);
      return false, calls, lib;
    }
    calls, lib := Perform(names, calls, lib, Register(start.registered));
    StartedOn(start, first, second, calls);
    if !start.registered {
      ghost var third := calls;
      calls, lib := Perform(names, calls, lib, Release);
      StartsOn(start, third, calls);
    }
    ok := start.registered;
  }

  lemma StartedOn(start: Startup, first: seq<Call>, second: seq<Call>, calls: seq<Call>)
    requires start.initialized && first == [Initialize(true)] && second == first + [ParseConfig(start.parsed)]
    requires if start.parsed then calls == second + [Register(start.registered)] else calls == second + [Release]
    ensures StartsUp(start, calls)
  {
  }

  /** The body of install_pkgs. */
  method RunSession(pkgs: seq<string>, start: Startup, attempts: seq<Attempt>) returns (ret: int, calls: seq<Call>)
    ensures ret == if pkgs == [] || Succeeds(start, attempts) then 0 else -1
    ensures CompleteSession(pkgs, start, attempts, calls)
    ensures if pkgs == [] then calls == [] else StartsUp(start, calls)
  {
    ghost var names, lib := Map(DropVersion, pkgs), IDLE;
    calls := [];
    if pkgs == [] { return 0, calls; }
    var ok;
    ok, calls, lib := StartLibrary(names, start);
    if !ok { return -1, calls; }
    ghost var started := calls;
    var verdict, k := Retry, 0;
    while verdict == Retry && k < |attempts|
      invariant 0 <= k <= |attempts|
      invariant Play(names, IDLE, calls) == Some(lib) && started <= calls
      invariant verdict == Retry ==> Deciding(attempts) == Deciding(attempts[k..]) && lib == Library(Ready, [])
      invariant verdict != Retry ==> Deciding(attempts).Some? && (verdict == Done <==> Wins(Deciding(attempts).value))
      invariant verdict != Retry ==>
        lib == Library(Ready, if verdict == Done then [Filter(Accepts(Deciding(attempts).value), names)] else [])
      decreases |attempts| - k
    {
      assert attempts[k..][0] == attempts[k] && attempts[k..][1..] == attempts[k + 1..];
      verdict, calls, lib := TryOnce(pkgs, attempts[k], calls, lib);
      k := k + 1;
    }
    if verdict == Retry {
      calls, lib := Perform(names, calls, lib, TransInit(false));
    }
    calls, lib := Perform(names, calls, lib, Release);
    StartsOn(start, started, calls);
    ret := if verdict == Done then 0 else -1;
  }

  // ---- what the replies decide ----

  /** A session on packages succeeds exactly when the library starts and some pass initialises, prepares, lists and
      commits after passes that each found the database locked, or failed to commit over corrupted packages that the
      user wants to download again. */
  lemma SucceedsExactly(start: Startup, attempts: seq<Attempt>)
    ensures Succeeds(start, attempts) <==>
            && start.initialized && start.parsed && start.registered
            && exists k :: 0 <= k < |attempts|
                 && attempts[k].init.InitSucceeds? && attempts[k].prepared && attempts[k].listed
                 && attempts[k].commit.Committed?
                 && forall j :: 0 <= j < k ==>
                      attempts[j].init.Locked?
                      || (attempts[j].init.InitSucceeds? && attempts[j].prepared && attempts[j].listed
                          && attempts[j].commit == Corrupted(true))
  {
    DecidingIsFirst(attempts);
  }

  /** The deciding attempt is the first that neither finds the database locked nor is to be repeated. */
  lemma {:induction false} DecidingIsFirst(attempts: seq<Attempt>)
    ensures forall k ::
              0 <= k < |attempts| && !Retries(attempts[k]) && (forall j :: 0 <= j < k ==> Retries(attempts[j])) ==>
              Deciding(attempts) == Some(attempts[k])
    ensures Deciding(attempts).Some? ==>
              exists k :: 0 <= k < |attempts| && attempts[k] == Deciding(attempts).value && !Retries(attempts[k])
                && forall j :: 0 <= j < k ==> Retries(attempts[j])
  {
    if attempts != [] && Retries(attempts[0]) {
      var t := attempts[1..];
      DecidingIsFirst(t);
      forall k | 0 <= k < |attempts| && !Retries(attempts[k]) && (forall j :: 0 <= j < k ==> Retries(attempts[j]))
        ensures Deciding(attempts) == Some(attempts[k])
      {
        assert t[k - 1] == attempts[k];
        assert forall j :: 0 <= j < k - 1 ==> t[j] == attempts[j + 1];
      }
      if Deciding(attempts).Some? {
        var k :| 0 <= k < |t| && t[k] == Deciding(attempts).value && !Retries(t[k]) && forall j :: 0 <= j < k ==>
          Retries(t[j]);
        assert attempts[k + 1] == t[k];
        assert forall j :: 0 < j < k + 1 ==> attempts[j] == t[j - 1];
      }
    } else if attempts != [] {
      assert attempts[0] == attempts[0];
    }
  }

  /** Any other reply of a pass ends the session without success, and nothing is committed. */
  lemma FailsOn(names: seq<string>, start: Startup, attempts: seq<Attempt>, k: nat)
    requires k < |attempts|
    requires forall j :: 0 <= j < k ==>
               attempts[j].init.Locked?
               || (attempts[j].init.InitSucceeds? && attempts[j].prepared && attempts[j].listed
                   && attempts[j].commit == Corrupted(true))
    requires attempts[k].init.InitFails?
             || (attempts[k].init.InitSucceeds? &&
                 (!attempts[k].prepared || !attempts[k].listed
                  || attempts[k].commit in {DiskFull, Corrupted(false), RetrieveFailed, OtherFailure}))
    ensures !Succeeds(start, attempts) && EndOf(names, start, attempts) == Library(Released, [])
  {
    DecidingIsFirst(attempts);
  }

  lemma {:induction false} FilterKeepsAll<T>(keep: T -> bool, xs: seq<T>)
    ensures Filter(keep, xs) == xs <==> forall x :: x in xs ==> keep(x)
  {
    if forall x :: x in xs ==> keep(x) { FilterAll(keep, xs); }
  }

  /** A refused target is only logged, so a session that returns 0 has committed every target exactly when the
      deciding attempt refused none. */
  lemma CommitsEverything(names: seq<string>, start: Startup, attempts: seq<Attempt>)
    requires names != [] && Succeeds(start, attempts)
    ensures EndOf(names, start, attempts).committed == [names] <==>
            forall n :: n in names ==> n !in Deciding(attempts).value.refused
  {
    var a := Deciding(attempts).value;
    FilterKeepsAll(Accepts(a), names);
    assert EndOf(names, start, attempts).committed[0] == Filter(Accepts(a), names);
  }

  // ---- several discs ----

  /** g_list_strremove: drop the first string equal to `str`; when there is none, NULL, the whole list lost. */
  function StrRemove(list: seq<string>, str: string): seq<string> {
    if str !in list then []
    else if list[0] == str then list[1..]
    else [list[0]] + StrRemove(list[1..], str)
  }

  /** The helper, by cases: without the string the whole list is lost, otherwise its first occurrence goes. */
  lemma {:induction false} StrRemoveIs(before: seq<string>, str: string, after: seq<string>)
    requires str !in before
    ensures StrRemove(before + ([str] + after), str) == before + after
    ensures StrRemove(before, str) == []
  {
    if before == [] {
      assert before + ([str] + after) == [str] + after && before + after == after;
      assert ([str] + after)[1..] == after;
    } else {
      assert before[0] in before && forall x :: x in before[1..] ==> x in before;
      StrRemoveIs(before[1..], str, after);
      AppendTail(before, [str] + after);
      Uncons(before);
      Assoc([before[0]], before[1..], after);
      assert str in before + ([str] + after);
      assert str in before[1..] + ([str] + after);
    }
  }

  method GListStrRemove(list: seq<string>, str: string) returns (list': seq<string>)
    ensures list' == StrRemove(list, str)
  {
    for i := 0 to |list|
      invariant str !in list[..i]
    {
      if list[i] == str {
        RemoveAt(list, str, i);
        return list[..i] + list[i + 1..];
      }
    }
    assert list[..|list|] == list;
    list' := [];
  }

  lemma RemoveAt(list: seq<string>, str: string, i: nat)
    requires i < |list| && list[i] == str && str !in list[..i]
    ensures StrRemove(list, str) == list[..i] + list[i + 1..]
  {
    StrRemoveIs(list[..i], str, list[i + 1..]);
    assert list == list[..i] + ([str] + list[i + 1..]);
  }

  /** Removing the first kept element takes it out of the kept sublist and leaves the others alone. */
  lemma {:induction false} RemoveFirstKept(keep: string -> bool, other: string -> bool, list: seq<string>, str: string)
    requires forall x :: other(x) <==> !keep(x)
    requires Filter(keep, list) != [] && Filter(keep, list)[0] == str
    ensures str in list
    ensures Filter(keep, StrRemove(list, str)) == Filter(keep, list)[1..]
    ensures Filter(other, StrRemove(list, str)) == Filter(other, list)
  {
    assert str in Filter(keep, list);
    if keep(list[0]) {
      assert Filter(keep, list)[0] == list[0];
    } else {
      assert Filter(keep, list) == Filter(keep, list[1..]);
      assert list[0] != str;
      RemoveFirstKept(keep, other, list[1..], str);
      var rest := StrRemove(list[1..], str);
      assert StrRemove(list, str) == [list[0]] + rest;
      assert ([list[0]] + rest)[1..] == rest;
    }
  }

  /** A disc the user inserts, and how the library behaves while it is in. */
  datatype Disc = Disc(content: set<string>, start: Startup, attempts: seq<Attempt>)

  function OnDisc(d: Disc): string -> bool { p => p in d.content }
  function OffDisc(d: Disc): string -> bool { p => p !in d.content }

  /** Not on any of these discs. */
  function OffAll(discs: seq<Disc>): string -> bool {
    p => forall e :: 0 <= e < |discs| ==> p !in discs[e].content
  }

  /** On the last of these discs and on none before it. */
  function FirstOnLast(discs: seq<Disc>): string -> bool
    requires discs != []
  {
    p => p in discs[|discs| - 1].content && OffAll(discs[..|discs| - 1])(p)
  }

  /** Look at the disc: the packages it holds, in list order. */
  method Useful(pkgs: seq<string>, disc: Disc) returns (list: seq<string>)
    ensures list == Filter(OnDisc(disc), pkgs)
  {
    list := [];
    for i := 0 to |pkgs|
      invariant list == Filter(OnDisc(disc), pkgs[..i])
    {
      FilterSnoc(OnDisc(disc), pkgs[..i], pkgs[i]);
      TakeOne(pkgs, i);
      if pkgs[i] in disc.content { list := list + [pkgs[i]]; }
    }
    TakeAll(pkgs);
  }

  /** Take them off the list: the helper always finds what it is asked to remove, so the list is never lost. */
  method RemoveUseful(pkgs: seq<string>, disc: Disc, list: seq<string>) returns (left: seq<string>)
    requires list == Filter(OnDisc(disc), pkgs)
    ensures left == Filter(OffDisc(disc), pkgs)
    ensures multiset(left) + multiset(list) == multiset(pkgs)
  {
    var on, off := OnDisc(disc), OffDisc(disc);
    left := pkgs;
    for i := 0 to |list|
      invariant Filter(on, left) == list[i..]
      invariant Filter(off, left) == Filter(off, pkgs)
    {
      RemoveFirstKept(on, off, left, list[i]);
      assert list[i] in left;
      left := GListStrRemove(left, list[i]);
    }
    forall x | x in left ensures off(x) {
      assert !on(x) || x in Filter(on, left);
    }
    FilterAll(off, left);
    FilterSplit(on, off, pkgs);
  }

  lemma NextDisc(pkgs: seq<string>, discs: seq<Disc>, d: nat)
    requires d < |discs|
    ensures Filter(OnDisc(discs[d]), Filter(OffAll(discs[..d]), pkgs)) == Filter(FirstOnLast(discs[..d + 1]), pkgs)
    ensures Filter(OffDisc(discs[d]), Filter(OffAll(discs[..d]), pkgs)) == Filter(OffAll(discs[..d + 1]), pkgs)
  {
    var now, next := discs[..d], discs[..d + 1];
    TakeOne(discs, d);
    Unsnoc(now, discs[d]);
    FilterFilter(OnDisc(discs[d]), OffAll(now), FirstOnLast(next), pkgs);
    forall p ensures OffAll(next)(p) <==> OffDisc(discs[d])(p) && OffAll(now)(p) {
      assert forall e :: 0 <= e < d ==> next[e] == now[e];
    }
    FilterFilter(OffDisc(discs[d]), OffAll(now), OffAll(next), pkgs);
  }

  predicate Covered(pkgs: seq<string>, discs: seq<Disc>) {
    forall p :: p in pkgs ==> !OffAll(discs)(p)
  }

  lemma NothingLeftMeansCovered(pkgs: seq<string>, discs: seq<Disc>)
    ensures Filter(OffAll(discs), pkgs) == [] <==> Covered(pkgs, discs)
  {
    var left := Filter(OffAll(discs), pkgs);
    if left != [] { assert left[0] in left; }
  }

  /** The packages disc `d` is asked to install: those it is the first inserted disc to hold, in list order. */
  function Batch(pkgs: seq<string>, discs: seq<Disc>, d: nat): seq<string>
    requires d < |discs|
  {
    Filter(FirstOnLast(discs[..d + 1]), pkgs)
  }

  /** A batch, by membership: what its disc holds of the list and no disc inserted before it. */
  lemma BatchExactly(pkgs: seq<string>, discs: seq<Disc>, d: nat, p: string)
    requires d < |discs|
    ensures p in Batch(pkgs, discs, d) <==>
            p in pkgs && p in discs[d].content && forall e :: 0 <= e < d ==> p !in discs[e].content
  {
    var ds := discs[..d + 1];
    assert ds[d] == discs[d] && ds[..d] == discs[..d];
  }

  /** What is left after `m` discs, by membership, and how often. */
  lemma LeftExactly(pkgs: seq<string>, discs: seq<Disc>, m: nat, p: string)
    requires m <= |discs|
    ensures multiset(Filter(OffAll(discs[..m]), pkgs))[p] ==
            if forall e :: 0 <= e < m ==> p !in discs[e].content then multiset(pkgs)[p] else 0
  {
    FilterCounts(OffAll(discs[..m]), pkgs, p);
  }

  predicate Installs(pkgs: seq<string>, discs: seq<Disc>, d: nat)
    requires d < |discs|
  {
    Batch(pkgs, discs, d) == [] || Succeeds(discs[d].start, discs[d].attempts)
  }

  function Total(batches: seq<seq<string>>): multiset<string> {
    if batches == [] then multiset{} else Total(batches[..|batches| - 1]) + multiset(batches[|batches| - 1])
  }

  ghost predicate BatchesOf(pkgs: seq<string>, discs: seq<Disc>, batches: seq<seq<string>>) {
    && |batches| <= |discs|
    && forall d :: 0 <= d < |batches| ==> batches[d] == Batch(pkgs, discs, d)
  }

  lemma BatchesSnoc(pkgs: seq<string>, discs: seq<Disc>, batches: seq<seq<string>>)
    requires BatchesOf(pkgs, discs, batches) && |batches| < |discs|
    ensures BatchesOf(pkgs, discs, batches + [Batch(pkgs, discs, |batches|)])
  {
  }

  /** What the walk has achieved after `|batches|` discs: each disc's batch, the packages left, none lost. */
  ghost predicate WalkedTo(pkgs: seq<string>, discs: seq<Disc>, batches: seq<seq<string>>, left: seq<string>) {
    && BatchesOf(pkgs, discs, batches)
    && left == Filter(OffAll(discs[..|batches|]), pkgs)
    && Total(batches) + multiset(left) == multiset(pkgs)
  }

  ghost predicate AllComplete(discs: seq<Disc>, batches: seq<seq<string>>, sessions: seq<seq<Call>>) {
    && |batches| == |sessions| <= |discs|
    && forall d :: 0 <= d < |batches| ==> CompleteSession(batches[d], discs[d].start, discs[d].attempts, sessions[d])
  }

  lemma WalkOn(pkgs: seq<string>, discs: seq<Disc>, batches: seq<seq<string>>, left: seq<string>, list: seq<string>,
      left': seq<string>)
    requires WalkedTo(pkgs, discs, batches, left) && |batches| < |discs|
    requires list == Filter(OnDisc(discs[|batches|]), left) && left' == Filter(OffDisc(discs[|batches|]), left)
    requires multiset(left') + multiset(list) == multiset(left)
    ensures WalkedTo(pkgs, discs, batches + [list], left')
    ensures list == Batch(pkgs, discs, |batches|)
  {
    NextDisc(pkgs, discs, |batches|);
    BatchesSnoc(pkgs, discs, batches);
    TotalSnoc(batches, list);
    Regroup(Total(batches), multiset(list), multiset(left'), multiset(left), multiset(pkgs));
  }

  lemma TotalSnoc(batches: seq<seq<string>>, list: seq<string>)
    ensures Total(batches + [list]) == Total(batches) + multiset(list)
  {
    Unsnoc(batches, list);
  }

  lemma Regroup(done: multiset<string>, list: multiset<string>, left': multiset<string>, left: multiset<string>,
      all: multiset<string>)
    requires left' + list == left && done + left == all
    ensures (done + list) + left' == all
  {
  }

  /** One disc: find what it holds, take that off the list, install it. */
  method OneDisc(pkgs: seq<string>, disc: Disc)
      returns (ret: int, list: seq<string>, left: seq<string>, calls: seq<Call>)
    ensures list == Filter(OnDisc(disc), pkgs) && left == Filter(OffDisc(disc), pkgs)
    ensures multiset(left) + multiset(list) == multiset(pkgs)
    ensures CompleteSession(list, disc.start, disc.attempts, calls)
    ensures ret == if list == [] || Succeeds(disc.start, disc.attempts) then 0 else -1
  {
    list := Useful(pkgs, disc);
    left := RemoveUseful(pkgs, disc, list);
    ret, calls := InstallPkgs(list, disc.start, disc.attempts);
  }

  lemma CompleteOn(discs: seq<Disc>, batches: seq<seq<string>>, sessions: seq<seq<Call>>, list: seq<string>,
      calls: seq<Call>)
    requires AllComplete(discs, batches, sessions) && |batches| < |discs|
    requires CompleteSession(list, discs[|batches|].start, discs[|batches|].attempts, calls)
    ensures AllComplete(discs, batches + [list], sessions + [calls])
  {
    var b, s, n := batches + [list], sessions + [calls], |batches|;
    forall d | 0 <= d < n + 1 ensures CompleteSession(b[d], discs[d].start, discs[d].attempts, s[d]) {
      if d < n {
        assert b[d] == batches[d] && s[d] == sessions[d];
      } else {
        assert b[d] == list && s[d] == calls;
      }
    }
  }

  predicate FirstInstall(pkgs: seq<string>, discs: seq<Disc>, m: nat)
    requires m <= |discs|
  {
    forall d :: 0 <= d < m ==> Installs(pkgs, discs, d)
  }

  lemma InstallOn(pkgs: seq<string>, discs: seq<Disc>, m: nat, list: seq<string>, ret: int)
    requires m < |discs| && list == Batch(pkgs, discs, m) && FirstInstall(pkgs, discs, m)
    requires ret == if list == [] || Succeeds(discs[m].start, discs[m].attempts) then 0 else -1
    ensures ret == -1 <==> !Installs(pkgs, discs, m)
    ensures ret == 0 ==> FirstInstall(pkgs, discs, m + 1)
  {
  }

  /** When the walk stops, because the list is empty or the discs are, nothing is left exactly when the
      inserted discs together hold every package. */
  lemma EndOfWalk(pkgs: seq<string>, discs: seq<Disc>, batches: seq<seq<string>>, left: seq<string>)
    requires WalkedTo(pkgs, discs, batches, left)
    requires left == [] || |batches| == |discs|
    ensures left == [] <==> Covered(pkgs, discs)
  {
    NothingLeftMeansCovered(pkgs, discs[..|batches|]);
    if left == [] {
      CoveredEarly(pkgs, discs, |batches|);
    } else {
      assert discs[..|batches|] == discs;
    }
  }

  lemma CoveredEarly(pkgs: seq<string>, discs: seq<Disc>, m: nat)
    requires m <= |discs| && Covered(pkgs, discs[..m])
    ensures Covered(pkgs, discs)
  {
    forall p | p in pkgs ensures !OffAll(discs)(p) {
      var e :| 0 <= e < m && p in discs[..m][e].content;
      assert p in discs[e].content;
    }
  }

  ghost predicate Walking(pkgs: seq<string>, discs: seq<Disc>, batches: seq<seq<string>>, left: seq<string>,
      sessions: seq<seq<Call>>) {
    WalkedTo(pkgs, discs, batches, left) && AllComplete(discs, batches, sessions)
  }

  /** After `m` discs: every batch installed, or the last one failed and all before it installed. */
  predicate StoppedWith(pkgs: seq<string>, discs: seq<Disc>, m: nat, ret: int)
    requires m <= |discs|
  {
    if ret == 0 then FirstInstall(pkgs, discs, m)
    else ret == -1 && m > 0 && FirstInstall(pkgs, discs, m - 1) && !Installs(pkgs, discs, m - 1)
  }

  /** The last of `m` discs was not inserted in vain: those before it do not hold everything. */
  predicate Needed(pkgs: seq<string>, discs: seq<Disc>, m: nat)
    requires m <= |discs|
  {
    m > 0 ==> !Covered(pkgs, discs[..m - 1])
  }

  lemma StepOfWalk(pkgs: seq<string>, discs: seq<Disc>, batches: seq<seq<string>>, left: seq<string>,
      sessions: seq<seq<Call>>,
                   ret: int, list: seq<string>, left': seq<string>, calls: seq<Call>)
    requires Walking(pkgs, discs, batches, left, sessions) && |batches| < |discs|
            && FirstInstall(pkgs, discs, |batches|)
    requires var disc := discs[|batches|];
             && list == Filter(OnDisc(disc), left) && left' == Filter(OffDisc(disc), left)
             && multiset(left') + multiset(list) == multiset(left)
             && CompleteSession(list, disc.start, disc.attempts, calls)
             && ret == if list == [] || Succeeds(disc.start, disc.attempts) then 0 else -1
    ensures Walking(pkgs, discs, batches + [list], left', sessions + [calls])
    ensures StoppedWith(pkgs, discs, |batches| + 1, ret)
    ensures left != [] ==> Needed(pkgs, discs, |batches| + 1)
  {
    NothingLeftMeansCovered(pkgs, discs[..|batches|]);
    WalkOn(pkgs, discs, batches, left, list, left');
    CompleteOn(discs, batches, sessions, list, calls);
    InstallOn(pkgs, discs, |batches|, list, ret);
  }

  lemma WalkStarts(pkgs: seq<string>, discs: seq<Disc>)
    ensures Walking(pkgs, discs, [], pkgs, [])
  {
    FilterAll(OffAll(discs[..0]), pkgs);
  }

  // ---- what the library has installed at the end ----

  /** What the library commits during one session. */
  function CommittedBy(calls: seq<Call>): seq<string> { Flatten(CommittedLists(calls)) }

  /** ... and during all sessions, disc after disc. */
  function Installed(batches: seq<seq<string>>, sessions: seq<seq<Call>>): seq<string>
    requires |batches| == |sessions|
  {
    if batches == [] then []
    else
      var n := |batches| - 1;
      Installed(batches[..n], sessions[..n]) + CommittedBy(sessions[n])
  }

  /** No name of the batch is refused by the attempt that decides the session. */
  predicate NoneRefused(batch: seq<string>, attempts: seq<Attempt>) {
    Deciding(attempts).Some? ==> forall n :: n in Map(DropVersion, batch) ==> n !in Deciding(attempts).value.refused
  }

  /** The whole batch is committed. */
  predicate Whole(batch: seq<string>, disc: Disc) {
    batch == [] || (Succeeds(disc.start, disc.attempts) && NoneRefused(batch, disc.attempts))
  }

  lemma FlattenOne<T>(xs: seq<T>)
    ensures Flatten([xs]) == xs
  {
    var one := [xs];
    assert Flatten(one[1..]) == [];
  }

  /** A complete session commits names of its batch only; all of them exactly when it succeeds and none is refused. */
  lemma SessionCommits(batch: seq<string>, disc: Disc, calls: seq<Call>)
    requires CompleteSession(batch, disc.start, disc.attempts, calls)
    ensures |CommittedBy(calls)| <= |batch|
    ensures |CommittedBy(calls)| == |batch| <==> Whole(batch, disc)
    ensures Whole(batch, disc) ==> CommittedBy(calls) == Map(DropVersion, batch)
  {
    var names := Map(DropVersion, batch);
    PlayMeans(names, calls);
    if batch != [] && Succeeds(disc.start, disc.attempts) {
      var keep := Accepts(Deciding(disc.attempts).value);
      var kept := Filter(keep, names);
      FlattenOne(kept);
      FilterKeepsAll(keep, names);
      FilterShorter(keep, names);
    }
  }

  lemma {:induction false} FilterShorter<T>(keep: T -> bool, xs: seq<T>)
    ensures |Filter(keep, xs)| == |xs| ==> Filter(keep, xs) == xs
  {
    if xs != [] {
      FilterShorter(keep, xs[1..]);
      Uncons(xs);
    }
  }

  ghost predicate AllWhole(discs: seq<Disc>, batches: seq<seq<string>>)
    requires |batches| <= |discs|
  {
    forall d :: 0 <= d < |batches| ==> Whole(batches[d], discs[d])
  }

  function Joined(batches: seq<seq<string>>): seq<string> {
    if batches == [] then [] else Joined(batches[..|batches| - 1]) + batches[|batches| - 1]
  }

  lemma {:induction false} JoinedTotal(batches: seq<seq<string>>)
    ensures multiset(Joined(batches)) == Total(batches)
  {
    if batches != [] { JoinedTotal(batches[..|batches| - 1]); }
  }

  lemma AllWholeLast(discs: seq<Disc>, batches: seq<seq<string>>)
    requires 0 < |batches| <= |discs|
    ensures AllWhole(discs, batches) <==>
            AllWhole(discs, batches[..|batches| - 1]) && Whole(batches[|batches| - 1], discs[|batches| - 1])
  {
    var n := |batches| - 1;
    assert forall d :: 0 <= d < n ==> batches[..n][d] == batches[d];
  }

  lemma AllCompleteInit(discs: seq<Disc>, batches: seq<seq<string>>, sessions: seq<seq<Call>>)
    requires AllComplete(discs, batches, sessions) && batches != []
    ensures AllComplete(discs, batches[..|batches| - 1], sessions[..|batches| - 1])
  {
  }

  lemma MapJoin(a: seq<string>, b: seq<string>)
    ensures Map(DropVersion, a + b) == Map(DropVersion, a) + Map(DropVersion, b)
  {
  }

  lemma {:induction false} InstalledOfBatches(discs: seq<Disc>, batches: seq<seq<string>>, sessions: seq<seq<Call>>)
    requires AllComplete(discs, batches, sessions)
    ensures |Installed(batches, sessions)| <= |Joined(batches)|
    ensures |Installed(batches, sessions)| == |Joined(batches)| <==> AllWhole(discs, batches)
    ensures AllWhole(discs, batches) ==> Installed(batches, sessions) == Map(DropVersion, Joined(batches))
    decreases |batches|
  {
    if batches != [] {
      var n := |batches| - 1;
      AllCompleteInit(discs, batches, sessions);
      InstalledOfBatches(discs, batches[..n], sessions[..n]);
      AllWholeLast(discs, batches);
      SessionCommits(batches[n], discs[n], sessions[n]);
      MapJoin(Joined(batches[..n]), batches[n]);
    }
  }

  /** Every package of the list has been committed, each as often as it is listed, exactly when the walk has left
      nothing over and every batch was committed whole. */
  lemma InstalledEverything(pkgs: seq<string>, discs: seq<Disc>, batches: seq<seq<string>>, left: seq<string>,
      sessions: seq<seq<Call>>)
    requires Walking(pkgs, discs, batches, left, sessions)
    ensures multiset(Installed(batches, sessions)) == multiset(Map(DropVersion, pkgs)) <==>
            left == [] && AllWhole(discs, batches)
  {
    var done, all := Installed(batches, sessions), Joined(batches);
    InstalledOfBatches(discs, batches, sessions);
    JoinedTotal(batches);
    assert |all| + |left| == |pkgs| by {
      assert |multiset(all)| == |all| && |multiset(left)| == |left| && |multiset(pkgs)| == |pkgs|;
    }
    if left == [] && AllWhole(discs, batches) {
      MapPerm(DropVersion, all, pkgs);
    }
    if multiset(done) == multiset(Map(DropVersion, pkgs)) {
      assert |multiset(done)| == |done| && |multiset(Map(DropVersion, pkgs))| == |pkgs|;
    }
  }

  /** No batch has a refused package. */
  predicate NothingRefused(discs: seq<Disc>, batches: seq<seq<string>>)
    requires |batches| <= |discs|
  {
    forall d :: 0 <= d < |batches| ==> NoneRefused(batches[d], discs[d].attempts)
  }

  lemma WholeWhenInstalled(pkgs: seq<string>, discs: seq<Disc>, batches: seq<seq<string>>, ret: int)
    requires BatchesOf(pkgs, discs, batches) && StoppedWith(pkgs, discs, |batches|, ret)
    ensures AllWhole(discs, batches) <==> ret == 0 && NothingRefused(discs, batches)
  {
    if ret == 0 {
      forall d | 0 <= d < |batches| ensures Whole(batches[d], discs[d]) <==>
        NoneRefused(batches[d], discs[d].attempts) {
        assert Installs(pkgs, discs, d);
      }
    } else {
      var n := |batches| - 1;
      assert batches[n] == Batch(pkgs, discs, n) && !Whole(batches[n], discs[n]);
    }
  }

  lemma EndOfInstall(pkgs: seq<string>, discs: seq<Disc>, batches: seq<seq<string>>, left: seq<string>,
      sessions: seq<seq<Call>>, ret: int)
    requires Walking(pkgs, discs, batches, left, sessions) && StoppedWith(pkgs, discs, |batches|, ret)
    requires ret == 0 ==> (left == [] <==> Covered(pkgs, discs))
    requires left == [] ==> Covered(pkgs, discs)
    ensures multiset(Installed(batches, sessions)) == multiset(Map(DropVersion, pkgs)) <==>
            ret == 0 && Covered(pkgs, discs) && NothingRefused(discs, batches)
  {
    InstalledEverything(pkgs, discs, batches, left, sessions);
    WholeWhenInstalled(pkgs, discs, batches, ret);
  }

  lemma NothingLeftCovers(pkgs: seq<string>, discs: seq<Disc>, batches: seq<seq<string>>, left: seq<string>)
    requires WalkedTo(pkgs, discs, batches, left) && left == []
    ensures Covered(pkgs, discs)
  {
    EndOfWalk(pkgs, discs, batches, left);
  }

  /** install_pkgs_discs. The first disc is in the drive; after each disc the user inserts the next one of
      `discs`, and answers NO when there is none. Returning 0 means that every session succeeded; everything on
      the list is then installed, once for every time it is listed, exactly when the discs cover the list and the
      library refused none of the packages it was asked for. */
  method InstallPkgsDiscs(pkgs: seq<string>, discs: seq<Disc>)
    returns (ret: int, batches: seq<seq<string>>, left: seq<string>, sessions: seq<seq<Call>>)
    requires discs != []
    ensures WalkedTo(pkgs, discs, batches, left) && AllComplete(discs, batches, sessions)
    ensures StoppedWith(pkgs, discs, |batches|, ret)
    ensures ret == 0 ==> (left == [] <==> Covered(pkgs, discs)) && (left == [] || |batches| == |discs|)
    ensures batches != [] ==> !Covered(pkgs, discs[..|batches| - 1])
    ensures multiset(Installed(batches, sessions)) == multiset(Map(DropVersion, pkgs)) <==>
            ret == 0 && Covered(pkgs, discs) && NothingRefused(discs, batches)
  {
    ret, batches, left, sessions := WalkDiscs(pkgs, discs);
    if left == [] { NothingLeftCovers(pkgs, discs, batches, left); }
    EndOfInstall(pkgs, discs, batches, left, sessions, ret);
  }

  /** The loop of install_pkgs_discs. */
  method WalkDiscs(pkgs: seq<string>, discs: seq<Disc>)
    returns (ret: int, batches: seq<seq<string>>, left: seq<string>, sessions: seq<seq<Call>>)
    requires discs != []
    ensures Walking(pkgs, discs, batches, left, sessions)
    ensures StoppedWith(pkgs, discs, |batches|, ret)
    ensures ret == 0 ==> (left == [] <==> Covered(pkgs, discs)) && (left == [] || |batches| == |discs|)
    ensures Needed(pkgs, discs, |batches|)
  {
    batches, left, sessions := [], pkgs, [];
    WalkStarts(pkgs, discs);
    while left != []
      invariant Walking(pkgs, discs, batches, left, sessions) && |batches| <= |discs|
      invariant StoppedWith(pkgs, discs, |batches|, 0)
      invariant Needed(pkgs, discs, |batches|)
      decreases |discs| - |batches|
    {
      if |batches| == |discs| {
        break; // the user has no further disc
      }
      var r, list, left', calls := OneDisc(left, discs[|batches|]);
      StepOfWalk(pkgs, discs, batches, left, sessions, r, list, left', calls);
      batches, left, sessions := batches + [list], left', sessions + [calls];
      if r == -1 { return -1, batches, left, sessions; }
    }
    EndOfWalk(pkgs, discs, batches, left);
    ret := 0;
  }
}

/** install.c, progress_update: the counters behind the download total. */
module Progress {
  import opened GLists

  /** The globals oldsize and dlsize. */
  datatype Counters = Counters(oldsize: int, dlsize: int)

  /** One callback, for a file of the given size. */
  function Update(c: Counters, size: nat): Counters {
    var c1 := if c.oldsize == 0 then c.(oldsize := size) else c;
    if c1.oldsize != size then Counters(size, c1.dlsize + c1.oldsize) else c1
  }

  /** The callbacks of one download: a file is reported at least once, `again` more times. */
  datatype File = File(size: nat, again: nat)

  function UpdateTimes(c: Counters, size: nat, n: nat): Counters
    decreases n
  {
    if n == 0 then c else UpdateTimes(Update(c, size), size, n - 1)
  }

  function UpdateAll(c: Counters, files: seq<File>): Counters {
    if files == [] then c
    else UpdateTimes(UpdateAll(c, files[..|files| - 1]), files[|files| - 1].size, 1 + files[|files| - 1].again)
  }

  function Total(files: seq<File>): nat {
    if files == [] then 0 else Total(files[..|files| - 1]) + files[|files| - 1].size
  }

  /** No file that is not empty has the size of the one before it. */
  ghost predicate NoEqualNeighbours(files: seq<File>) {
    forall i :: 0 <= i < |files| - 1 ==> files[i].size != files[i + 1].size || files[i].size == 0
  }

  lemma {:induction false} RepeatsAreIdle(c: Counters, size: nat, n: nat)
    ensures UpdateTimes(c, size, n + 1) == Update(c, size)
    decreases n
  {
    if n > 0 {
      assert Update(Update(c, size), size) == Update(c, size);
      RepeatsAreIdle(Update(c, size), size, n - 1);
    }
  }

  lemma NeighboursSnoc(files: seq<File>)
    requires files != []
    ensures NoEqualNeighbours(files) <==>
            NoEqualNeighbours(files[..|files| - 1])
            && (|files| > 1 ==> files[|files| - 2].size != files[|files| - 1].size || files[|files| - 1].size == 0)
  {
    var init := files[..|files| - 1];
    assert forall i :: 0 <= i < |init| ==> init[i] == files[i];
  }

  /** The running total never exceeds the real one, and equals it exactly when no two files in a row have the
      same size: the second of such a pair is taken for more of the first. */
  lemma {:induction false} TotalIsExact(files: seq<File>)
    ensures var c := UpdateAll(Counters(0, 0), files);
            && c.dlsize + c.oldsize <= Total(files)
            && (c.dlsize + c.oldsize == Total(files) <==> NoEqualNeighbours(files))
            && c.oldsize == (if files == [] then 0 else files[|files| - 1].size)
    decreases |files|
  {
    if files != [] {
      var init, last := files[..|files| - 1], files[|files| - 1];
      TotalIsExact(init);
      RepeatsAreIdle(UpdateAll(Counters(0, 0), init), last.size, last.again);
      NeighboursSnoc(files);
    }
  }

  /** The file reported last is reported once more. */
  function Again(files: seq<File>): seq<File>
    requires files != []
  {
    files[..|files| - 1] + [files[|files| - 1].(again := files[|files| - 1].again + 1)]
  }

  lemma UpdateSnoc(files: seq<File>, f: File)
    ensures UpdateAll(Counters(0, 0), files + [f]) == Update(UpdateAll(Counters(0, 0), files), f.size)
  {
    Unsnoc(files, f);
    RepeatsAreIdle(UpdateAll(Counters(0, 0), files), f.size, f.again);
  }

  lemma UpdateIdempotent(c: Counters, size: nat)
    ensures Update(Update(c, size), size) == Update(c, size)
  {
  }

  lemma UpdateLonger(init: seq<File>, last: File, more: File)
    requires more.size == last.size
    ensures UpdateAll(Counters(0, 0), init + [more]) == Update(UpdateAll(Counters(0, 0), init + [last]), last.size)
  {
    UpdateSnoc(init, last);
    UpdateSnoc(init, more);
    UpdateIdempotent(UpdateAll(Counters(0, 0), init), last.size);
  }

  lemma UpdateAgain(files: seq<File>)
    requires files != []
    ensures UpdateAll(Counters(0, 0), Again(files)) == Update(UpdateAll(Counters(0, 0), files), files[|files| - 1].size)
  {
    var n := |files| - 1;
    TakeOne(files, n);
    TakeAll(files);
    UpdateLonger(files[..n], files[n], files[n].(again := files[n].again + 1));
  }

  /** The two globals and, as a ghost, the files the callbacks have reported so far. */
  class Meter {
    var oldsize: int
    var dlsize: int
    ghost var files: seq<File>

    ghost predicate Valid() reads this {
      Counters(oldsize, dlsize) == UpdateAll(Counters(0, 0), files)
    }

    constructor ()
      ensures Valid() && files == []
    {
      oldsize, dlsize, files := 0, 0, [];
    }

    /** progress_update, for the next file or once more for the last one: whatever has been reported, the counters
        add up to no more than the files do, and to exactly as much when no two files in a row are of one size. */
    method ProgressUpdate(size: nat, ghost next: bool)
      requires Valid()
      requires !next ==> files != [] && files[|files| - 1].size == size
      modifies this
      ensures Valid()
      ensures files == if next then old(files) + [File(size, 0)] else Again(old(files))
      ensures dlsize + oldsize <= Total(files)
      ensures dlsize + oldsize == Total(files) <==> NoEqualNeighbours(files)
      ensures oldsize == size
    {
      if next { UpdateSnoc(files, File(size, 0)); } else { UpdateAgain(files); }
      if oldsize == 0 { oldsize := size; }
      if oldsize != size {
        dlsize := dlsize + oldsize;
        oldsize := size;
      }
      files := if next then files + [File(size, 0)] else Again(files);
      TotalIsExact(files);
    }
  }
}
