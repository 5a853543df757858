/** util.c: the association list the plugins share (data_get, data_put), and the per-device lists of
    partdisk.c and the per-category lists of select.c, which are kept in the same structure. */
module ConfigStore {
  import opened GLists

  datatype Entry<V> = Entry(name: string, data: V)

  /** Position of the first entry called `name`, or the length of the list. */
  function Find<V>(config: seq<Entry<V>>, name: string): (i: nat)
    ensures i <= |config|
    ensures i < |config| ==> config[i].name == name
    ensures forall j :: 0 <= j < i ==> config[j].name != name
  {
    if config == [] then 0
    else if config[0].name == name then 0
    else
      var k := Find(config[1..], name);
      assert forall j :: 1 <= j < k + 1 ==> config[j] == config[1..][j - 1];
      k + 1
  }

  function Get<V>(config: seq<Entry<V>>, name: string): Option<V> {
    var i := Find(config, name);
    if i < |config| then Some(config[i].data) else None
  }

  function Put<V>(config: seq<Entry<V>>, name: string, data: V): seq<Entry<V>> {
    var i := Find(config, name);
    if i < |config| then config[i := Entry(name, data)] else config + [Entry(name, data)]
  }

  function Names<V>(config: seq<Entry<V>>): set<string> {
    set i | 0 <= i < |config| :: config[i].name
  }

  ghost predicate UniqueNames<V>(config: seq<Entry<V>>) {
    forall i, j :: 0 <= i < j < |config| ==> config[i].name != config[j].name
  }

  lemma FindIs<V>(config: seq<Entry<V>>, name: string, i: nat)
    requires i <= |config|
    requires i < |config| ==> config[i].name == name
    requires forall j :: 0 <= j < i ==> config[j].name != name
    ensures Find(config, name) == i
  {
  }

  /** A name is found exactly when some entry carries it. */
  lemma GetFinds<V>(config: seq<Entry<V>>, name: string)
    ensures Get(config, name).Some? <==> name in Names(config)
  {
    var i := Find(config, name);
    assert name in Names(config) ==> exists j :: 0 <= j < |config| && config[j].name == name;
    if i < |config| { assert config[i].name in Names(config); }
  }

  /** data_put then data_get: the name reads back the new value, every other name its old one;
      no name is dropped, none is duplicated. */
  lemma PutGet<V>(config: seq<Entry<V>>, name: string, data: V)
    ensures Get(Put(config, name, data), name) == Some(data)
    ensures forall other :: other != name ==> Get(Put(config, name, data), other) == Get(config, other)
    ensures Names(Put(config, name, data)) == Names(config) + {name}
    ensures UniqueNames(config) ==> UniqueNames(Put(config, name, data))
  {
    var i := Find(config, name);
    var after := Put(config, name, data);
    FindIs(after, name, i);
    forall other | other != name ensures Get(after, other) == Get(config, other) {
      var k := Find(config, other);
      if k < |config| {
        FindIs(after, other, k);
      } else {
        FindIs(after, other, |after|);
      }
    }
    forall n ensures n in Names(after) <==> n in Names(config) + {name} {
      if n in Names(config) {
        var k :| 0 <= k < |config| && config[k].name == n;
        assert after[k].name == n;
      }
      if n == name { assert after[i].name == name; }
    }
  }

  /** data_get: scan for the name. */
  method DataGet<V>(config: seq<Entry<V>>, title: string) returns (data: Option<V>)
    ensures data == Get(config, title)
    ensures data.Some? <==> title in Names(config)
  {
    GetFinds(config, title);
    for i := 0 to |config|
      invariant forall j :: 0 <= j < i ==> config[j].name != title
    {
      if config[i].name == title {
        FindIs(config, title, i);
        return Some(config[i].data);
      }
    }
    FindIs(config, title, |config|);
    data := None;
  }

  /** data_put: overwrite the first entry of that name in place, or append one. */
  method DataPut<V>(config: seq<Entry<V>>, name: string, data: V) returns (config': seq<Entry<V>>)
    ensures config' == Put(config, name, data)
    ensures Get(config', name) == Some(data)
    ensures Names(config') == Names(config) + {name}
    ensures UniqueNames(config) ==> UniqueNames(config')
  {
    PutGet(config, name, data);
    for i := 0 to |config|
      invariant forall j :: 0 <= j < i ==> config[j].name != name
    {
      if config[i].name == name {
        FindIs(config, name, i);
        config' := config[i := Entry(name, data)];
        return;
      }
    }
    FindIs(config, name, |config|);
    config' := config + [Entry(name, data)];
  }
}
