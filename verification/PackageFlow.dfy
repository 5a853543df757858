/** From the package selection to the transaction: select stores what install reads. */
module PackageFlow {
  import opened GLists
  import opened ConfigStore
  import opened PackageNames
  import opened SelectLists
  import opened Install

  function ResolvedName(r: Resolved): string { r.name }

  /** Stripping name-version gives the name back: the version has one dash, or neither part has any. */
  predicate NameRecovered(r: Resolved) {
    Dashes(r.version) == 1 || (Dashes(r.version) == 0 && Dashes(r.name) == 0)
  }

  /** The targets install asks for: what is left of the stored names. */
  function TargetNames(sorted: seq<Resolved>): seq<string> { Map(DropVersion, Map(FullName, sorted)) }

  /** The targets are the names select resolved, in order, exactly when each name is recovered. */
  lemma TargetsAreTheNames(sorted: seq<Resolved>)
    ensures TargetNames(sorted) == Map(ResolvedName, sorted) <==> forall r :: r in sorted ==> NameRecovered(r)
  {
    forall i | 0 <= i < |sorted| ensures DropVersion(FullName(sorted[i])) == sorted[i].name <==>
      NameRecovered(sorted[i]) {
      DropVersionUndoes(sorted[i].name, sorted[i].version);
    }
    if TargetNames(sorted) == Map(ResolvedName, sorted) {
      forall r | r in sorted ensures NameRecovered(r) {
        var i :| 0 <= i < |sorted| && sorted[i] == r;
        assert TargetNames(sorted)[i] == Map(ResolvedName, sorted)[i];
      }
    } else {
      var i :| 0 <= i < |sorted| && TargetNames(sorted)[i] != Map(ResolvedName, sorted)[i];
      assert sorted[i] in sorted && !NameRecovered(sorted[i]);
    }
  }

  /** select's end and install's transaction in one. When the packages do not fit, nothing is asked of the library
      and the stored list is untouched; otherwise the session runs on the stripped names, and those are the
      resolved names exactly when each is recovered. */
  method SelectThenInstall(config: seq<Entry<Value>>, sorted: seq<Resolved>, freespace: int, start: Startup,
      attempts: seq<Attempt>)
    returns (ret: int, config': seq<Entry<Value>>, calls: seq<Call>)
    ensures ret == 1 <==> Unpacked(sorted) + Packed(sorted) > freespace
    ensures ret == 0 <==> Unpacked(sorted) + Packed(sorted) <= freespace && (sorted == [] || Succeeds(start, attempts))
    ensures ret == 1 ==> calls == [] && Get(config', "packages") == Get(config, "packages")
    ensures ret != 1 ==> Play(TargetNames(sorted), IDLE, calls) == Some(EndOf(TargetNames(sorted), start, attempts))
    ensures TargetNames(sorted) == Map(ResolvedName, sorted) <==> forall r :: r in sorted ==> NameRecovered(r)
  {
    TargetsAreTheNames(sorted);
    ret, config' := StoreResolved(config, sorted, freespace);
    calls := [];
    if ret == 0 {
      var packages := DataGet(config', "packages");
      ret, calls := InstallPkgs(packages.value.names, start, attempts);
    }
  }
}
