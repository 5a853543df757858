/** netconf.c and configsource-network.c, list_entry_points: the two readings of an iwlist scan. */
module WifiScan {
  import opened GLists
  import opened CStrings
  import opened Coordinates

  /** struct wifi_ap; an unset string is None, an unset number 0. */
  datatype AccessPoint = AccessPoint(address: string, essid: Option<string>, encmode: Option<string>,
    cypher: Option<string>, protocol: Option<string>, mode: Option<string>, quality: int, channel: int, encryption: int)

  datatype Update =
    | Essid(s: string) | Protocol(s: string) | Encryption(n: int) | Channel(n: int)
    | Mode(s: string) | Quality(n: int) | EncMode(s: string) | Cypher(s: string)

  /** What a line says. `Fault` is a missing delimiter, where the program writes through a NULL pointer. */
  datatype Meaning = Address(s: string) | Field(u: Update) | Nothing | Fault

  function Fresh(address: string): AccessPoint { AccessPoint(address, None, None, None, None, None, 0, 0, 0) }

  function Set(ap: AccessPoint, u: Update): AccessPoint {
    match u
    case Essid(s) => ap.(essid := Some(s))
    case Protocol(s) => ap.(protocol := Some(s))
    case Encryption(n) => ap.(encryption := n)
    case Channel(n) => ap.(channel := n)
    case Mode(s) => ap.(mode := Some(s))
    case Quality(n) => ap.(quality := n)
    case EncMode(s) => ap.(encmode := Some(s))
    case Cypher(s) => ap.(cypher := Some(s))
  }

  /** The text after a marker, up to the delimiter; None without one. */
  function After(line: string, marker: string, stop: char): Option<string>
    requires Contains(line, marker)
  {
    var text := line[Occurrence(line, marker)..][|marker|..];
    var n := FirstIndex(text, stop);
    if n < |text| then Some(text[..n]) else None
  }

  function FieldOf(text: Option<string>, make: string -> Update): Meaning {
    if text.Some? then Field(make(text.value)) else Fault
  }

  /** The tests of the loop, in order: the first marker found decides. */
  function Read(line: string): Meaning {
    if Contains(line, "Address: ") then
      (var v := After(line, "Address: ", '\n'); if v.Some? then Address(v.value) else Fault)
    else if Contains(line, "ESSID:\"") then FieldOf(After(line, "ESSID:\"", '\"'), s => Essid(s))
    else if Contains(line, "Protocol:") then FieldOf(After(line, "Protocol:", '\n'), s => Protocol(s))
    else if Contains(line, "Encryption key:") then
      Field(Encryption(if Contains(line[Occurrence(line, "Encryption key:")..], "on") then 1 else 0))
    else if Contains(line, "Channel:") then FieldOf(After(line, "Channel:", '\n'), s => Channel(Atoi(s)))
    else if Contains(line, "Mode:") then FieldOf(After(line, "Mode:", '\n'), s => Mode(s))
    else if Contains(line, "Quality=") then FieldOf(After(line, "Quality=", '/'), s => Quality(Atoi(s)))
    else if Contains(line, "IE: ") && !Contains(line, "Unknown") then
      FieldOf(After(line, "IE: ", '\n'), s => EncMode(s))
    else if Contains(line, "Group Cipher : ") then FieldOf(After(line, "Group Cipher : ", '\n'), s => Cypher(s))
    else Nothing
  }

  /** The loop's variables. */
  datatype Scan = Scan(ap: Option<AccessPoint>, entrys: seq<AccessPoint>)

  function Flush(keep: AccessPoint -> bool, st: Scan): seq<AccessPoint> {
    if st.ap.Some? && keep(st.ap.value) then st.entrys + [st.ap.value] else st.entrys
  }

  /** One line; None is a fault, or a field before any address. */
  function Step(keep: AccessPoint -> bool, st: Scan, m: Meaning): Option<Scan> {
    match m
    case Address(s) => Some(Scan(Some(Fresh(s)), Flush(keep, st)))
    case Field(u) => if st.ap == None then None else Some(st.(ap := Some(Set(st.ap.value, u))))
    case Nothing => Some(st)
    case Fault => None
  }

  function Steps(keep: AccessPoint -> bool, st: Scan, ms: seq<Meaning>): Option<Scan>
    decreases |ms|
  {
    if ms == [] then Some(st)
    else match Step(keep, st, ms[0])
      case None => None
      case Some(st') => Steps(keep, st', ms[1..])
  }

  const NOTHING_SEEN: Scan := Scan(None, [])

  function Collect(keep: AccessPoint -> bool, ms: seq<Meaning>): Option<seq<AccessPoint>> {
    match Steps(keep, NOTHING_SEEN, ms)
    case None => None
    case Some(st) => Some(Flush(keep, st))
  }

  /** netconf.c keeps every access point; configsource-network.c those with a nonempty name. */
  function Every(): AccessPoint -> bool { _ => true }
  function Named(): AccessPoint -> bool { (ap: AccessPoint) => ap.essid.Some? && ap.essid.value != "" }

  function EntryPoints(keep: AccessPoint -> bool, lines: seq<string>): Option<seq<AccessPoint>> {
    Collect(keep, Map(Read, lines))
  }

  lemma FoundWherePrefix(s: string, t: string, k: nat)
    requires k <= |s| && t <= s[k..]
    ensures Contains(s, t)
  {
  }

  /** What iwlist says: the text after the label. */
  predicate SaysOn(line: string)
    requires Contains(line, "Encryption key:")
  {
    Contains(line[Occurrence(line, "Encryption key:")..][|"Encryption key:"|..], "on")
  }

  /** The line gets past the three tests made before the one for encryption. */
  predicate EncryptionLine(line: string) {
    && Contains(line, "Encryption key:")
    && !Contains(line, "Address: ") && !Contains(line, "ESSID:\"") && !Contains(line, "Protocol:")
  }

  /** The test for "on" starts at the label, and the label itself contains those letters: a line that is read
      as an encryption line always says encrypted, and that is right exactly when the text after it says on. */
  lemma EncryptionReadsAsOn(line: string)
    requires EncryptionLine(line)
    ensures Read(line) == Field(Encryption(1))
    ensures Read(line) == Field(Encryption(if SaysOn(line) then 1 else 0)) <==> SaysOn(line)
  {
    var text := line[Occurrence(line, "Encryption key:")..];
    assert text[8] == "Encryption key:"[8] == 'o' && text[9] == "Encryption key:"[9] == 'n';
    assert "on" <= text[8..];
    FoundWherePrefix(text, "on", 8);
  }

  lemma ContainedCharacters(s: string, t: string)
    requires Contains(s, t)
    ensures forall c :: c in t ==> c in s
  {
    var found := s[Occurrence(s, t)..];
    forall c | c in t ensures c in s {
      var k :| 0 <= k < |t| && t[k] == c;
      assert found[k] == c;
    }
  }

  predicate Lacks(s: string, t: string) { exists k :: 0 <= k < |t| && t[k] !in s }

  lemma LackingIsNotContained(s: string, t: string)
    requires Lacks(s, t)
    ensures !Contains(s, t)
  {
    if Contains(s, t) { ContainedCharacters(s, t); }
  }

  lemma StartsWithLabel(line: string, text: string)
    requires line == "Encryption key:" + text
    ensures Contains(line, "Encryption key:") && (SaysOn(line) <==> Contains(text, "on"))
  {
    assert "Encryption key:" <= line && line[|"Encryption key:"|..] == text;
    assert Occurrence(line, "Encryption key:") == 0 && line[0..] == line;
  }

  lemma NoOtherLabel(line: string)
    requires 'A' !in line && 'S' !in line && 'P' !in line
    ensures !Contains(line, "Address: ") && !Contains(line, "ESSID:\"") && !Contains(line, "Protocol:")
  {
    assert "Address: "[0] == 'A' && "ESSID:\""[1] == 'S' && "Protocol:"[0] == 'P';
    LackingIsNotContained(line, "Address: ");
    LackingIsNotContained(line, "ESSID:\"");
    LackingIsNotContained(line, "Protocol:");
  }

  /** A line that is the label and some text without a letter of each other label. */
  lemma LabelledLine(line: string, text: string)
    requires line == "Encryption key:" + text && 'A' !in text && 'S' !in text && 'P' !in text
    ensures EncryptionLine(line) && (SaysOn(line) <==> Contains(text, "on"))
  {
    assert forall c :: c in line ==> c in "Encryption key:" || c in text;
    NoOtherLabel(line);
    StartsWithLabel(line, text);
  }

  /** An open access point is shown as encrypted. */
  lemma OffReadsAsOn()
    ensures Read("Encryption key:" + "off\n") == Field(Encryption(1))
    ensures !SaysOn("Encryption key:" + "off\n")
  {
    LabelledLine("Encryption key:" + "off\n", "off\n");
    assert "on"[1] == 'n';
    LackingIsNotContained("off\n", "on");
    EncryptionReadsAsOn("Encryption key:" + "off\n");
  }

  // ---- one line, label by label ----

  /** The text between a label's first occurrence in a line and the delimiter. */
  predicate Carries(line: string, key: string, value: string, stop: char) {
    Contains(line, key) && key + value + [stop] <= line[Occurrence(line, key)..] && stop !in value
  }

  lemma CarriesIsAfter(line: string, key: string, value: string, stop: char)
    requires Carries(line, key, value, stop)
    ensures After(line, key, stop) == Some(value)
  {
    var text := line[Occurrence(line, key)..];
    assert text[..|key + value + [stop]|] == key + value + [stop];
    var rest := text[|key|..];
    assert rest[..|value|] == value && rest[|value|] == stop;
    FirstIndexIs(rest, stop, |value|);
  }

  /** An address line. */
  lemma ReadsAddress(line: string, value: string)
    requires Carries(line, "Address: ", value, '\n')
    ensures Read(line) == Address(value)
  {
    CarriesIsAfter(line, "Address: ", value, '\n');
  }

  lemma ReadsEssid(line: string, value: string)
    requires Carries(line, "ESSID:\"", value, '\"')
    requires !Contains(line, "Address: ")
    ensures Read(line) == Field(Essid(value))
  {
    CarriesIsAfter(line, "ESSID:\"", value, '\"');
  }

  lemma ReadsProtocol(line: string, value: string)
    requires Carries(line, "Protocol:", value, '\n')
    requires !Contains(line, "Address: ") && !Contains(line, "ESSID:\"")
    ensures Read(line) == Field(Protocol(value))
  {
    CarriesIsAfter(line, "Protocol:", value, '\n');
  }

  lemma ReadsChannel(line: string, value: string)
    requires Carries(line, "Channel:", value, '\n')
    requires !Contains(line, "Address: ") && !Contains(line, "ESSID:\"") && !Contains(line, "Protocol:")
    requires !Contains(line, "Encryption key:")
    ensures Read(line) == Field(Channel(Atoi(value)))
  {
    CarriesIsAfter(line, "Channel:", value, '\n');
  }

  lemma ReadsMode(line: string, value: string)
    requires Carries(line, "Mode:", value, '\n')
    requires !Contains(line, "Address: ") && !Contains(line, "ESSID:\"") && !Contains(line, "Protocol:")
    requires !Contains(line, "Encryption key:") && !Contains(line, "Channel:")
    ensures Read(line) == Field(Mode(value))
  {
    CarriesIsAfter(line, "Mode:", value, '\n');
  }

  lemma ReadsQuality(line: string, value: string)
    requires Carries(line, "Quality=", value, '/')
    requires !Contains(line, "Address: ") && !Contains(line, "ESSID:\"") && !Contains(line, "Protocol:")
    requires !Contains(line, "Encryption key:") && !Contains(line, "Channel:") && !Contains(line, "Mode:")
    ensures Read(line) == Field(Quality(Atoi(value)))
  {
    CarriesIsAfter(line, "Quality=", value, '/');
  }

  lemma ReadsEncMode(line: string, value: string)
    requires Carries(line, "IE: ", value, '\n')
    requires !Contains(line, "Address: ") && !Contains(line, "ESSID:\"") && !Contains(line, "Protocol:")
    requires !Contains(line, "Encryption key:") && !Contains(line, "Channel:") && !Contains(line, "Mode:")
    requires !Contains(line, "Quality=") && !Contains(line, "Unknown")
    ensures Read(line) == Field(EncMode(value))
  {
    CarriesIsAfter(line, "IE: ", value, '\n');
  }

  lemma ReadsCypher(line: string, value: string)
    requires Carries(line, "Group Cipher : ", value, '\n')
    requires !Contains(line, "Address: ") && !Contains(line, "ESSID:\"") && !Contains(line, "Protocol:")
    requires !Contains(line, "Encryption key:") && !Contains(line, "Channel:") && !Contains(line, "Mode:")
    requires !Contains(line, "Quality=") && (!Contains(line, "IE: ") || Contains(line, "Unknown"))
    ensures Read(line) == Field(Cypher(value))
  {
    CarriesIsAfter(line, "Group Cipher : ", value, '\n');
  }

  /** A line with none of the labels says nothing. */
  lemma ReadsNothing(line: string)
    requires !Contains(line, "Address: ") && !Contains(line, "ESSID:\"") && !Contains(line, "Protocol:")
    requires !Contains(line, "Encryption key:") && !Contains(line, "Channel:") && !Contains(line, "Mode:")
    requires !Contains(line, "Quality=") && !Contains(line, "Group Cipher : ")
    requires !Contains(line, "IE: ") || Contains(line, "Unknown")
    ensures Read(line) == Nothing
  {
  }

  /** The delimiter is missing after a label's first occurrence. */
  predicate Undelimited(line: string, key: string, stop: char) {
    Contains(line, key) && stop !in line[Occurrence(line, key)..][|key|..]
  }

  lemma UndelimitedIsNone(line: string, key: string, stop: char)
    requires Undelimited(line, key, stop)
    ensures After(line, key, stop) == None
  {
    var text := line[Occurrence(line, key)..][|key|..];
    assert FirstIndex(text, stop) == |text|;
  }

  /** A line without its delimiter, as the last one of a scan may be, is a fault. */
  lemma NameCutShort(line: string)
    ensures Undelimited(line, "Address: ", '\n') ==> Read(line) == Fault
    ensures Undelimited(line, "ESSID:\"", '\"') && !Contains(line, "Address: ") ==> Read(line) == Fault
    ensures Undelimited(line, "Protocol:", '\n') && !Contains(line, "Address: ") && !Contains(line, "ESSID:\"") ==>
              Read(line) == Fault
  {
    if Undelimited(line, "Address: ", '\n') { UndelimitedIsNone(line, "Address: ", '\n'); }
    if Undelimited(line, "ESSID:\"", '\"') { UndelimitedIsNone(line, "ESSID:\"", '\"'); }
    if Undelimited(line, "Protocol:", '\n') { UndelimitedIsNone(line, "Protocol:", '\n'); }
  }

  lemma ChannelCutShort(line: string)
    requires !Contains(line, "Address: ") && !Contains(line, "ESSID:\"") && !Contains(line, "Protocol:")
    requires !Contains(line, "Encryption key:")
    ensures Undelimited(line, "Channel:", '\n') ==> Read(line) == Fault
    ensures Undelimited(line, "Mode:", '\n') && !Contains(line, "Channel:") ==> Read(line) == Fault
    ensures Undelimited(line, "Quality=", '/') && !Contains(line, "Channel:") && !Contains(line, "Mode:") ==>
              Read(line) == Fault
  {
    if Undelimited(line, "Channel:", '\n') { UndelimitedIsNone(line, "Channel:", '\n'); }
    if Undelimited(line, "Mode:", '\n') { UndelimitedIsNone(line, "Mode:", '\n'); }
    if Undelimited(line, "Quality=", '/') { UndelimitedIsNone(line, "Quality=", '/'); }
  }

  lemma CipherCutShort(line: string)
    requires !Contains(line, "Address: ") && !Contains(line, "ESSID:\"") && !Contains(line, "Protocol:")
    requires !Contains(line, "Encryption key:") && !Contains(line, "Channel:") && !Contains(line, "Mode:")
    requires !Contains(line, "Quality=")
    ensures Undelimited(line, "IE: ", '\n') && !Contains(line, "Unknown") ==> Read(line) == Fault
    ensures Undelimited(line, "Group Cipher : ", '\n') && (!Contains(line, "IE: ") || Contains(line, "Unknown")) ==>
              Read(line) == Fault
  {
    if Undelimited(line, "IE: ", '\n') { UndelimitedIsNone(line, "IE: ", '\n'); }
    if Undelimited(line, "Group Cipher : ", '\n') { UndelimitedIsNone(line, "Group Cipher : ", '\n'); }
  }

  /** Which field each kind of line fills: its own, and no other. */
  lemma FieldsFilled(ap: AccessPoint, s: string, n: int)
    ensures Set(ap, Essid(s))
            == AccessPoint(ap.address, Some(s), ap.encmode, ap.cypher, ap.protocol, ap.mode, ap.quality, ap.channel,
              ap.encryption)
    ensures Set(ap, EncMode(s))
            == AccessPoint(ap.address, ap.essid, Some(s), ap.cypher, ap.protocol, ap.mode, ap.quality, ap.channel,
              ap.encryption)
    ensures Set(ap, Cypher(s))
            == AccessPoint(ap.address, ap.essid, ap.encmode, Some(s), ap.protocol, ap.mode, ap.quality, ap.channel,
              ap.encryption)
    ensures Set(ap, Protocol(s))
            == AccessPoint(ap.address, ap.essid, ap.encmode, ap.cypher, Some(s), ap.mode, ap.quality, ap.channel,
              ap.encryption)
    ensures Set(ap, Mode(s))
            == AccessPoint(ap.address, ap.essid, ap.encmode, ap.cypher, ap.protocol, Some(s), ap.quality, ap.channel,
              ap.encryption)
    ensures Set(ap, Quality(n))
            == AccessPoint(ap.address, ap.essid, ap.encmode, ap.cypher, ap.protocol, ap.mode, n, ap.channel,
              ap.encryption)
    ensures Set(ap, Channel(n))
            == AccessPoint(ap.address, ap.essid, ap.encmode, ap.cypher, ap.protocol, ap.mode, ap.quality, n,
              ap.encryption)
    ensures Set(ap, Encryption(n))
            == AccessPoint(ap.address, ap.essid, ap.encmode, ap.cypher, ap.protocol, ap.mode, ap.quality, ap.channel, n)
    ensures Fresh(s) == AccessPoint(s, None, None, None, None, None, 0, 0, 0)
  {
  }

  /** The value the last line of a kind gave, for each kind; what the record starts with when there was none. */
  lemma {:induction false} RecordByField(ap: AccessPoint, us: seq<Update>, u: Update)
    ensures SetAll(ap, us + [u]) == Set(SetAll(ap, us), u)
    ensures SetAll(ap, []) == ap && SetAll(ap, us).address == ap.address
    decreases |us|
  {
    if us == [] {
      assert us + [u] == [u] && [u][1..] == [];
    } else {
      AppendTail(us, [u]);
      RecordByField(Set(ap, us[0]), us[1..], u);
    }
  }

  // ---- the two variants ----

  lemma {:induction false} NamedFollows(st: Scan, st': Scan, ms: seq<Meaning>)
    requires st'.ap == st.ap && st'.entrys == Filter(Named(), st.entrys)
    ensures match (Steps(Every(), st, ms), Steps(Named(), st', ms))
            case (None, None) => true
            case (Some(a), Some(b)) => b.ap == a.ap && b.entrys == Filter(Named(), a.entrys)
            case _ => false
    decreases |ms|
  {
    if ms != [] {
      NamedStep(st, st', ms[0]);
      var a, b := Step(Every(), st, ms[0]), Step(Named(), st', ms[0]);
      if a.Some? { NamedFollows(a.value, b.value, ms[1..]); }
    }
  }

  lemma NamedStep(st: Scan, st': Scan, m: Meaning)
    requires st'.ap == st.ap && st'.entrys == Filter(Named(), st.entrys)
    ensures match (Step(Every(), st, m), Step(Named(), st', m))
            case (None, None) => true
            case (Some(a), Some(b)) => b.ap == a.ap && b.entrys == Filter(Named(), a.entrys)
            case _ => false
  {
    if st.ap.Some? { FilterSnoc(Named(), st.entrys, st.ap.value); }
  }

  lemma NamedExactly(ap: AccessPoint)
    ensures Named()(ap) <==> exists name :: ap.essid == Some(name) && |name| > 0
    ensures Every()(ap)
  {
  }

  /** On every scan the filtering variant returns what the other returns, without the unnamed access points;
      both fault on the same scans. */
  lemma VariantsAgree(lines: seq<string>)
    ensures EntryPoints(Named(), lines) ==
            match EntryPoints(Every(), lines) case None => None case Some(aps) => Some(Filter(Named(), aps))
  {
    var ms := Map(Read, lines);
    NamedFollows(NOTHING_SEEN, NOTHING_SEEN, ms);
    var a := Steps(Every(), NOTHING_SEEN, ms);
    if a.Some? && a.value.ap.Some? { FilterSnoc(Named(), a.value.entrys, a.value.ap.value); }
  }

  // ---- segments ----

  lemma {:induction false} StepsAppend(keep: AccessPoint -> bool, st: Scan, xs: seq<Meaning>, ys: seq<Meaning>)
    ensures Steps(keep, st, xs + ys) == match Steps(keep, st, xs) case None => None
            case Some(mid) => Steps(keep, mid, ys)
    decreases |xs|
  {
    if xs == [] {
      assert xs + ys == ys;
    } else {
      assert (xs + ys)[1..] == xs[1..] + ys && (xs + ys)[0] == xs[0];
      var next := Step(keep, st, xs[0]);
      if next.Some? { StepsAppend(keep, next.value, xs[1..], ys); }
    }
  }

  /** Access points already collected stay in front and change nothing. */
  lemma {:induction false} EarlierEntriesStay(keep: AccessPoint -> bool, st: Scan, before: seq<AccessPoint>,
      ms: seq<Meaning>)
    ensures Steps(keep, st.(entrys := before + st.entrys), ms) ==
            match Steps(keep, st, ms) case None => None case Some(end) => Some(end.(entrys := before + end.entrys))
    decreases |ms|
  {
    if ms != [] {
      var next := Step(keep, st, ms[0]);
      assert Flush(keep, st.(entrys := before + st.entrys)) == before + Flush(keep, st);
      if next.Some? { EarlierEntriesStay(keep, next.value, before, ms[1..]); }
    }
  }

  function Join(a: Option<seq<AccessPoint>>, b: Option<seq<AccessPoint>>): Option<seq<AccessPoint>> {
    if a.Some? && b.Some? then Some(a.value + b.value) else None
  }

  lemma AddressStarts(keep: AccessPoint -> bool, st: Scan, address: string, rest: seq<Meaning>)
    ensures Steps(keep, st, [Address(address)] + rest) ==
            match Steps(keep, Scan(Some(Fresh(address)), []), rest)
            case None => None
            case Some(end) => Some(end.(entrys := Flush(keep, st) + end.entrys))
  {
    var first := Scan(Some(Fresh(address)), []);
    assert ([Address(address)] + rest)[1..] == rest;
    EarlierEntriesStay(keep, first, Flush(keep, st), rest);
    assert Flush(keep, st) + [] == Flush(keep, st);
  }

  lemma CollectSplits(keep: AccessPoint -> bool, mx: seq<Meaning>, address: string, rest: seq<Meaning>)
    ensures Collect(keep, mx + ([Address(address)] + rest))
            == Join(Collect(keep, mx), Collect(keep, [Address(address)] + rest))
  {
    StepsAppend(keep, NOTHING_SEEN, mx, [Address(address)] + rest);
    AddressStarts(keep, NOTHING_SEEN, address, rest);
    var mid := Steps(keep, NOTHING_SEEN, mx);
    if mid.Some? {
      AddressStarts(keep, mid.value, address, rest);
      var end := Steps(keep, Scan(Some(Fresh(address)), []), rest);
      if end.Some? {
        var done := Flush(keep, mid.value);
        assert Flush(keep, end.value.(entrys := done + end.value.entrys)) == done + Flush(keep, end.value);
        assert Flush(keep, end.value.(entrys := [] + end.value.entrys)) == Flush(keep, end.value);
      }
    }
  }

  /** A scan splits at any address line: reading the whole is reading both parts and joining the results. */
  lemma SplitsAtAddress(keep: AccessPoint -> bool, xs: seq<string>, ys: seq<string>)
    requires ys != [] && Read(ys[0]).Address?
    ensures EntryPoints(keep, xs + ys) == Join(EntryPoints(keep, xs), EntryPoints(keep, ys))
  {
    var mx, my := Map(Read, xs), Map(Read, ys);
    MapAppend(Read, xs, ys);
    Uncons(my);
    CollectSplits(keep, mx, my[0].s, my[1..]);
  }

  // ---- one record ----

  predicate SameKind(u: Update, v: Update) {
    (u.Essid? && v.Essid?) || (u.Protocol? && v.Protocol?) || (u.Encryption? && v.Encryption?)
      || (u.Channel? && v.Channel?)
    || (u.Mode? && v.Mode?) || (u.Quality? && v.Quality?) || (u.EncMode? && v.EncMode?) || (u.Cypher? && v.Cypher?)
  }

  function SetAll(ap: AccessPoint, us: seq<Update>): AccessPoint
    decreases |us|
  {
    if us == [] then ap else SetAll(Set(ap, us[0]), us[1..])
  }

  /** Only the last update of each kind. */
  function LastOfEach(us: seq<Update>): seq<Update> {
    if us == [] then []
    else if exists k :: 1 <= k < |us| && SameKind(us[0], us[k]) then LastOfEach(us[1..])
    else [us[0]] + LastOfEach(us[1..])
  }

  lemma {:induction false} Overridden(ap: AccessPoint, u: Update, us: seq<Update>, k: nat)
    requires k < |us| && SameKind(u, us[k])
    ensures SetAll(Set(ap, u), us) == SetAll(ap, us)
    decreases |us|
  {
    if SameKind(u, us[0]) {
      assert Set(Set(ap, u), us[0]) == Set(ap, us[0]);
    } else {
      assert Set(Set(ap, u), us[0]) == Set(Set(ap, us[0]), u);
      Overridden(Set(ap, us[0]), u, us[1..], k - 1);
    }
  }

  /** Of several values for a field, the last counts. */
  lemma {:induction false} LastUpdateWins(ap: AccessPoint, us: seq<Update>)
    ensures SetAll(ap, us) == SetAll(ap, LastOfEach(us))
    decreases |us|
  {
    if us != [] {
      if k :| 1 <= k < |us| && SameKind(us[0], us[k]) {
        Overridden(ap, us[0], us[1..], k - 1);
        LastUpdateWins(ap, us[1..]);
      } else {
        LastUpdateWins(Set(ap, us[0]), us[1..]);
        assert ([us[0]] + LastOfEach(us[1..]))[1..] == LastOfEach(us[1..]);
      }
    }
  }

  /** The values a list of lines sets; lines that say nothing are passed over. */
  function FieldsOf(ms: seq<Meaning>): seq<Update> {
    if ms == [] then []
    else (if ms[0].Field? then [ms[0].u] else []) + FieldsOf(ms[1..])
  }

  predicate HasFault(ms: seq<Meaning>) { exists k :: 0 <= k < |ms| && ms[k].Fault? }

  lemma {:induction false} RecordLines(keep: AccessPoint -> bool, ap: AccessPoint, ms: seq<Meaning>)
    requires forall k :: 0 <= k < |ms| ==> !ms[k].Address?
    ensures Steps(keep, Scan(Some(ap), []), ms) ==
            if HasFault(ms) then None else Some(Scan(Some(SetAll(ap, FieldsOf(ms))), []))
    decreases |ms|
  {
    if ms != [] {
      FaultUncons(ms);
      match ms[0] {
        case Field(u) =>
          RecordLines(keep, Set(ap, u), ms[1..]);
          assert ([u] + FieldsOf(ms[1..]))[1..] == FieldsOf(ms[1..]);
        case Nothing =>
          RecordLines(keep, ap, ms[1..]);
          assert FieldsOf(ms) == FieldsOf(ms[1..]);
        case Fault =>
      }
    }
  }

  lemma FaultUncons(ms: seq<Meaning>)
    requires ms != []
    ensures HasFault(ms) <==> ms[0].Fault? || HasFault(ms[1..])
  {
    if HasFault(ms[1..]) {
      var k :| 0 <= k < |ms[1..]| && ms[1..][k].Fault?;
      assert ms[k + 1].Fault?;
    }
    if HasFault(ms) && !ms[0].Fault? {
      var k :| 0 <= k < |ms| && ms[k].Fault?;
      assert ms[1..][k - 1].Fault?;
    }
  }

  lemma RecordCollected(keep: AccessPoint -> bool, address: string, ms: seq<Meaning>)
    requires forall k :: 0 <= k < |ms| ==> !ms[k].Address?
    ensures Collect(keep, [Address(address)] + ms) ==
            if HasFault(ms) then None
            else
              var ap := SetAll(Fresh(address), LastOfEach(FieldsOf(ms)));
              Some(if keep(ap) then [ap] else [])
  {
    AddressStarts(keep, NOTHING_SEEN, address, ms);
    RecordLines(keep, Fresh(address), ms);
    LastUpdateWins(Fresh(address), FieldsOf(ms));
    assert Flush(keep, NOTHING_SEEN) == [];
    var ap := SetAll(Fresh(address), FieldsOf(ms));
    assert Flush(keep, Scan(Some(ap), [] + [])) == if keep(ap) then [ap] else [];
  }

  /** An address line and any lines up to the next address, those the program ignores among them, are one record:
      the fresh one with the last value of each field. Only a line without its delimiter spoils it. */
  lemma OneRecord(keep: AccessPoint -> bool, lines: seq<string>)
    requires lines != [] && Read(lines[0]).Address?
    requires forall k :: 1 <= k < |lines| ==> !Read(lines[k]).Address?
    ensures EntryPoints(keep, lines) ==
            if HasFault(Map(Read, lines[1..])) then None
            else
              var ap := SetAll(Fresh(Read(lines[0]).s), LastOfEach(FieldsOf(Map(Read, lines[1..]))));
              Some(if keep(ap) then [ap] else [])
  {
    var ms := Map(Read, lines[1..]);
    MapUncons(Read, lines[0], lines[1..]);
    Uncons(lines);
    RecordCollected(keep, Read(lines[0]).s, ms);
  }

  lemma {:induction false} NothingBefore(keep: AccessPoint -> bool, ms: seq<Meaning>)
    requires forall k :: 0 <= k < |ms| ==> !ms[k].Address?
    ensures Steps(keep, NOTHING_SEEN, ms) ==
            if forall k :: 0 <= k < |ms| ==> ms[k].Nothing? then Some(NOTHING_SEEN) else None
    decreases |ms|
  {
    if ms != [] {
      NothingBefore(keep, ms[1..]);
      assert forall k :: 1 <= k < |ms| ==> ms[k] == ms[1..][k - 1];
    }
  }

  /** Before the first address only lines that say nothing are harmless: with no address at all there is no access
      point, and any line with a label is a fault. */
  lemma BeforeTheFirstAddress(keep: AccessPoint -> bool, lines: seq<string>)
    requires forall k :: 0 <= k < |lines| ==> !Read(lines[k]).Address?
    ensures EntryPoints(keep, lines) ==
            if forall k :: 0 <= k < |lines| ==> Read(lines[k]).Nothing? then Some([]) else None
  {
    NothingBefore(keep, Map(Read, lines));
  }

  // ---- the loops ----

  method ListEntryPoints(lines: seq<string>) returns (entrys: Option<seq<AccessPoint>>)
    ensures entrys == EntryPoints(Every(), lines)
  {
    var ap: Option<AccessPoint>, list: seq<AccessPoint> := None, [];
    ghost var ms := Map(Read, lines);
    assert ms[0..] == ms;
    for i := 0 to |lines|
      invariant Steps(Every(), NOTHING_SEEN, ms) == Steps(Every(), Scan(ap, list), ms[i..])
    {
      assert ms[i..][0] == Read(lines[i]) && ms[i..][1..] == ms[i + 1..];
      match Read(lines[i]) {
        case Address(s) =>
          if ap.Some? { list := list + [ap.value]; }
          ap := Some(Fresh(s));
        case Field(u) =>
          if ap == None { return None; }
          ap := Some(Set(ap.value, u));
        case Nothing =>
        case Fault => return None;
      }
    }
    assert ms[|lines|..] == [];
    if ap.Some? { list := list + [ap.value]; }
    entrys := Some(list);
  }

  method ListNamedEntryPoints(lines: seq<string>) returns (entrys: Option<seq<AccessPoint>>)
    ensures entrys == EntryPoints(Named(), lines)
    ensures entrys == match EntryPoints(Every(), lines) case None => None case Some(aps) => Some(Filter(Named(), aps))
  {
    VariantsAgree(lines);
    var ap: Option<AccessPoint>, list: seq<AccessPoint> := None, [];
    ghost var ms := Map(Read, lines);
    assert ms[0..] == ms;
    for i := 0 to |lines|
      invariant Steps(Named(), NOTHING_SEEN, ms) == Steps(Named(), Scan(ap, list), ms[i..])
    {
      assert ms[i..][0] == Read(lines[i]) && ms[i..][1..] == ms[i + 1..];
      match Read(lines[i]) {
        case Address(s) =>
          if ap.Some? && ap.value.essid.Some? && ap.value.essid.value != "" { list := list + [ap.value]; }
          ap := Some(Fresh(s));
        case Field(u) =>
          if ap == None { return None; }
          ap := Some(Set(ap.value, u));
        case Nothing =>
        case Fault => return None;
      }
    }
    assert ms[|lines|..] == [];
    if ap.Some? && ap.value.essid.Some? && ap.value.essid.value != "" { list := list + [ap.value]; }
    entrys := Some(list);
  }
}
