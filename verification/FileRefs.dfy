/** How long table files live: versions count references on file metadata, and a file whose last
    version is deleted becomes obsolete. One column family. */
module FileRefs {
  import opened Common

  /** File metadata, known by its identity; several may describe the file of the same number. */
  datatype Meta = Meta(id: nat, number: nat)

  /** A version: its files by level, the reference count, and the index from file numbers to places. */
  datatype Version = Version(files: seq<seq<Meta>>, refs: nat, locations: map<nat, (nat, nat)>)

  /** Who builds a version: it holds a reference on its base, and the version is pending until it is
      appended or given up. */
  datatype Builder = Builder(base: Option<nat>, pending: bool)

  datatype Candidate = Candidate(meta: Meta, onlyDeleteMetadata: bool)

  // ----- the files of a version -----

  ghost predicate At(files: seq<seq<Meta>>, p: (nat, nat)) {
    p.0 < |files| && p.1 < |files[p.0]|
  }

  ghost predicate Holds(files: seq<seq<Meta>>, m: Meta) {
    exists p: (nat, nat) :: At(files, p) && files[p.0][p.1] == m
  }

  ghost predicate HoldsNumber(files: seq<seq<Meta>>, number: nat) {
    exists p: (nat, nat) :: At(files, p) && files[p.0][p.1].number == number
  }

  /** A version names no file twice. */
  ghost predicate Distinct(files: seq<seq<Meta>>) {
    forall p: (nat, nat), q: (nat, nat) ::
      At(files, p) && At(files, q) && files[p.0][p.1].number == files[q.0][q.1].number ==> p == q
  }

  ghost predicate Indexed(files: seq<seq<Meta>>, locations: map<nat, (nat, nat)>) {
    && (forall n :: n in locations ==> At(files, locations[n]) && files[locations[n].0][locations[n].1].number == n)
    && (forall p: (nat, nat) :: At(files, p) ==> files[p.0][p.1].number in locations)
  }

  lemma IndexFindsNumbers(files: seq<seq<Meta>>, locations: map<nat, (nat, nat)>, n: nat)
    requires Indexed(files, locations)
    ensures n in locations <==> HoldsNumber(files, n)
  {
    if n in locations {
      assert At(files, locations[n]);
    }
  }

  /** The places in front of (l, i) in the order of the nested loops over levels and files. */
  predicate InFront(p: (nat, nat), l: nat, i: nat) {
    p.0 < l || (p.0 == l && p.1 < i)
  }

  method GenerateFileLocationIndex(files: seq<seq<Meta>>) returns (locations: map<nat, (nat, nat)>)
    requires Distinct(files)
    ensures Indexed(files, locations)
  {
    locations := map[];
    for l := 0 to |files|
      invariant forall n :: n in locations ==>
        At(files, locations[n]) && InFront(locations[n], l, 0) && files[locations[n].0][locations[n].1].number == n
      invariant forall p: (nat, nat) :: At(files, p) && InFront(p, l, 0) ==> files[p.0][p.1].number in locations
    {
      for i := 0 to |files[l]|
        invariant forall n :: n in locations ==>
          At(files, locations[n]) && InFront(locations[n], l, i) && files[locations[n].0][locations[n].1].number == n
        invariant forall p: (nat, nat) :: At(files, p) && InFront(p, l, i) ==> files[p.0][p.1].number in locations
      {
        var number := files[l][i].number;
        assert At(files, (l, i));
        assert number !in locations;
        locations := locations[number := (l, i)];
      }
    }
  }

  // ----- counting -----

  ghost function Holders(versions: map<nat, Version>, m: Meta): set<nat> {
    set v | v in versions && Holds(versions[v].files, m)
  }

  function Refs(refs: map<Meta, nat>, m: Meta): nat {
    if m in refs then refs[m] else 0
  }

  ghost predicate Counted(versions: map<nat, Version>, refs: map<Meta, nat>) {
    forall m :: Refs(refs, m) == |Holders(versions, m)|
  }

  lemma HoldersWith(versions: map<nat, Version>, v: nat, version: Version, m: Meta)
    requires v !in versions
    ensures |Holders(versions[v := version], m)| == |Holders(versions, m)| + if Holds(version.files, m) then 1 else 0
  {
    var a, b := Holders(versions, m), Holders(versions[v := version], m);
    if Holds(version.files, m) {
      assert b == a + {v};
    } else {
      assert b == a;
    }
  }

  lemma CountedWith(versions: map<nat, Version>, before: map<Meta, nat>, refs: map<Meta, nat>, v: nat, version: Version)
    requires Counted(versions, before) && v !in versions
    requires forall m :: Refs(refs, m) == Refs(before, m) + if Holds(version.files, m) then 1 else 0
    ensures Counted(versions[v := version], refs)
  {
    hide Holds;
    forall m ensures Refs(refs, m) == |Holders(versions[v := version], m)| {
      HoldersWith(versions, v, version, m);
    }
  }

  lemma HoldersWithout(versions: map<nat, Version>, v: nat, m: Meta)
    requires v in versions
    ensures |Holders(versions - {v}, m)| == |Holders(versions, m)| - if Holds(versions[v].files, m) then 1 else 0
  {
    var a, b := Holders(versions, m), Holders(versions - {v}, m);
    if Holds(versions[v].files, m) {
      assert a == b + {v};
    } else {
      assert a == b;
    }
  }

  lemma HoldersSame(versions: map<nat, Version>, v: nat, version: Version, m: Meta)
    requires v in versions && version.files == versions[v].files
    ensures Holders(versions[v := version], m) == Holders(versions, m)
  {
  }

  lemma HoldsItsFiles(versions: map<nat, Version>, refs: map<Meta, nat>, built: set<Meta>, obsolete: seq<Meta>, v: nat)
    requires Counted(versions, refs) && Settled(built, refs, obsolete) && IndexesOk(versions) && v in versions
    ensures forall m :: Holds(versions[v].files, m) ==> Refs(refs, m) > 0 && m !in obsolete
    ensures Distinct(versions[v].files)
  {
    hide Holds, Distinct, Indexed;
    forall m | Holds(versions[v].files, m) ensures Refs(refs, m) > 0 {
      HoldersWithout(versions, v, m);
    }
  }

  lemma CountedWithout(versions: map<nat, Version>, before: map<Meta, nat>, refs: map<Meta, nat>, v: nat)
    requires Counted(versions, before) && v in versions
    requires forall m :: Refs(refs, m) == Refs(before, m) - if Holds(versions[v].files, m) then 1 else 0
    ensures Counted(versions - {v}, refs)
  {
    hide Holds;
    forall m ensures Refs(refs, m) == |Holders(versions - {v}, m)| {
      HoldersWithout(versions, v, m);
    }
  }

  ghost predicate NoRepeats<T>(s: seq<T>) {
    forall i, j :: 0 <= i < j < |s| ==> s[i] != s[j]
  }

  /** The file is among those the nested loops have passed. */
  ghost predicate Passed(files: seq<seq<Meta>>, m: Meta, l: nat, i: nat) {
    exists p: (nat, nat) :: At(files, p) && InFront(p, l, i) && files[p.0][p.1] == m
  }

  lemma PassedNext(files: seq<seq<Meta>>, m: Meta, l: nat, i: nat)
    requires l < |files| && i < |files[l]|
    ensures Passed(files, m, l, i + 1) <==> Passed(files, m, l, i) || m == files[l][i]
  {
    if m == files[l][i] {
      assert At(files, (l, i)) && InFront((l, i), l, i + 1);
    }
    if Passed(files, m, l, i + 1) && m != files[l][i] {
      var p: (nat, nat) :| At(files, p) && InFront(p, l, i + 1) && files[p.0][p.1] == m;
      assert InFront(p, l, i);
    }
    if Passed(files, m, l, i) {
      var p: (nat, nat) :| At(files, p) && InFront(p, l, i) && files[p.0][p.1] == m;
      assert InFront(p, l, i + 1);
    }
  }

  lemma PassedLevel(files: seq<seq<Meta>>, m: Meta, l: nat)
    requires l < |files|
    ensures Passed(files, m, l, |files[l]|) <==> Passed(files, m, l + 1, 0)
  {
    if Passed(files, m, l, |files[l]|) {
      var p: (nat, nat) :| At(files, p) && InFront(p, l, |files[l]|) && files[p.0][p.1] == m;
      assert InFront(p, l + 1, 0);
    }
    if Passed(files, m, l + 1, 0) {
      var p: (nat, nat) :| At(files, p) && InFront(p, l + 1, 0) && files[p.0][p.1] == m;
      assert InFront(p, l, |files[l]|);
    }
  }

  lemma PassedAll(files: seq<seq<Meta>>, m: Meta)
    ensures Passed(files, m, |files|, 0) <==> Holds(files, m)
    ensures !Passed(files, m, 0, 0)
  {
    if Holds(files, m) {
      var p: (nat, nat) :| At(files, p) && files[p.0][p.1] == m;
      assert InFront(p, |files|, 0);
    }
  }

  /** A file not yet passed: the one the loops are at. */
  lemma NotPassed(files: seq<seq<Meta>>, l: nat, i: nat)
    requires Distinct(files) && l < |files| && i < |files[l]|
    ensures !Passed(files, files[l][i], l, i) && Holds(files, files[l][i])
  {
    assert At(files, (l, i));
  }

  /** References and obsolete files once the files in front of (l, i) are dropped. */
  ghost predicate Dropped(files: seq<seq<Meta>>, l: nat, i: nat, refs0: map<Meta, nat>, obsolete0: seq<Meta>,
                          refs: map<Meta, nat>, obsolete: seq<Meta>) {
    && (forall m :: Refs(refs, m) == Refs(refs0, m) - if Passed(files, m, l, i) then 1 else 0)
    && NoRepeats(obsolete)
    && (forall m :: m in obsolete <==> m in obsolete0 || (Passed(files, m, l, i) && Refs(refs0, m) == 1))
  }

  lemma DropNext(files: seq<seq<Meta>>, l: nat, i: nat, refs0: map<Meta, nat>, obsolete0: seq<Meta>,
                 refs: map<Meta, nat>, obsolete: seq<Meta>)
    requires Distinct(files) && l < |files| && i < |files[l]|
    requires forall m :: Holds(files, m) ==> Refs(refs0, m) > 0 && m !in obsolete0
    requires Dropped(files, l, i, refs0, obsolete0, refs, obsolete)
    ensures var m := files[l][i];
            && Refs(refs, m) == Refs(refs0, m) > 0
            && Dropped(files, l, i + 1, refs0, obsolete0, refs[m := Refs(refs, m) - 1],
                       if Refs(refs, m) == 1 then obsolete + [m] else obsolete)
  {
    hide Passed, Distinct, Holds;
    NotPassed(files, l, i);
    forall m ensures Passed(files, m, l, i + 1) <==> Passed(files, m, l, i) || m == files[l][i] {
      PassedNext(files, m, l, i);
    }
  }

  lemma DropLevel(files: seq<seq<Meta>>, l: nat, refs0: map<Meta, nat>, obsolete0: seq<Meta>, refs: map<Meta, nat>,
                  obsolete: seq<Meta>)
    requires l < |files| && Dropped(files, l, |files[l]|, refs0, obsolete0, refs, obsolete)
    ensures Dropped(files, l + 1, 0, refs0, obsolete0, refs, obsolete)
  {
    hide Passed;
    forall m ensures Passed(files, m, l, |files[l]|) <==> Passed(files, m, l + 1, 0) {
      PassedLevel(files, m, l);
    }
  }

  /** `~Version`: every file loses a reference; those without any become obsolete. */
  method DropFiles(files: seq<seq<Meta>>, refs0: map<Meta, nat>, obsolete0: seq<Meta>)
    returns (refs: map<Meta, nat>, obsolete: seq<Meta>)
    requires Distinct(files) && NoRepeats(obsolete0)
    requires forall m :: Holds(files, m) ==> Refs(refs0, m) > 0 && m !in obsolete0
    ensures forall m :: Refs(refs, m) == Refs(refs0, m) - if Holds(files, m) then 1 else 0
    ensures NoRepeats(obsolete)
    ensures forall m :: m in obsolete <==> m in obsolete0 || (Holds(files, m) && Refs(refs0, m) == 1)
  {
    hide Passed, Holds, Distinct, Dropped;
    refs, obsolete := refs0, obsolete0;
    DropStart(files, refs, obsolete);
    for l := 0 to |files|
      invariant Dropped(files, l, 0, refs0, obsolete0, refs, obsolete)
    {
      for i := 0 to |files[l]|
        invariant Dropped(files, l, i, refs0, obsolete0, refs, obsolete)
      {
        var f := files[l][i];
        DropNext(files, l, i, refs0, obsolete0, refs, obsolete);
        refs := refs[f := Refs(refs, f) - 1];
        if Refs(refs, f) <= 0 {
          obsolete := obsolete + [f];
        }
      }
      DropLevel(files, l, refs0, obsolete0, refs, obsolete);
    }
    DropEnd(files, refs0, obsolete0, refs, obsolete);
  }

  lemma DropStart(files: seq<seq<Meta>>, refs: map<Meta, nat>, obsolete: seq<Meta>)
    requires NoRepeats(obsolete)
    ensures Dropped(files, 0, 0, refs, obsolete, refs, obsolete)
  {
    forall m ensures !Passed(files, m, 0, 0) {
      PassedAll(files, m);
    }
  }

  lemma DropEnd(files: seq<seq<Meta>>, refs0: map<Meta, nat>, obsolete0: seq<Meta>, refs: map<Meta, nat>,
                obsolete: seq<Meta>)
    requires Dropped(files, |files|, 0, refs0, obsolete0, refs, obsolete)
    ensures forall m :: Refs(refs, m) == Refs(refs0, m) - if Holds(files, m) then 1 else 0
    ensures NoRepeats(obsolete)
    ensures forall m :: m in obsolete <==> m in obsolete0 || (Holds(files, m) && Refs(refs0, m) == 1)
  {
    forall m ensures Passed(files, m, |files|, 0) <==> Holds(files, m) {
      PassedAll(files, m);
    }
  }

  /** `AddFile` for every file of a new version. */
  method AddFiles(files: seq<seq<Meta>>, refs0: map<Meta, nat>) returns (refs: map<Meta, nat>)
    requires Distinct(files)
    ensures forall m :: Refs(refs, m) == Refs(refs0, m) + if Holds(files, m) then 1 else 0
  {
    hide Passed, Holds, Distinct;
    refs := refs0;
    forall m ensures !Passed(files, m, 0, 0) && (Passed(files, m, |files|, 0) <==> Holds(files, m)) {
      PassedAll(files, m);
    }
    for l := 0 to |files|
      invariant forall m :: Refs(refs, m) == Refs(refs0, m) + if Passed(files, m, l, 0) then 1 else 0
    {
      for i := 0 to |files[l]|
        invariant forall m :: Refs(refs, m) == Refs(refs0, m) + if Passed(files, m, l, i) then 1 else 0
      {
        var f := files[l][i];
        NotPassed(files, l, i);
        forall m ensures Passed(files, m, l, i + 1) <==> Passed(files, m, l, i) || m == f {
          PassedNext(files, m, l, i);
        }
        refs := refs[f := Refs(refs, f) + 1];
      }
      forall m ensures Passed(files, m, l, |files[l]|) <==> Passed(files, m, l + 1, 0) {
        PassedLevel(files, m, l);
      }
    }
  }

  // ----- the version set -----

  class VersionSet {
    /** All undeleted versions; those built and not yet appended are not in the list. */
    var versions: map<nat, Version>
    /** The builders of versions. */
    var builders: map<nat, Builder>
    var list: seq<nat>
    var current: Option<nat>
    var refs: map<Meta, nat>
    var obsolete: seq<Meta>
    /** All files that ever were in a version. */
    ghost var built: set<Meta>

    ghost predicate Valid()
      reads this
    {
      && Counted(versions, refs)
      && NoRepeats(obsolete) && Settled(built, refs, obsolete)
      && IndexesOk(versions) && Listed(list, versions) && PendingOk(builders, versions)
      && Pinned(versions, builders, current) && Sheltered(versions, builders, built)
    }

    constructor ()
      ensures Valid() && versions == map[] && builders == map[] && obsolete == [] && current == None
    {
      versions, builders, list, current, refs, obsolete, built := map[], map[], [], None, map[], [], {};
      new;
      NoVersions();
    }

    /** A file of a new version: in use by the current one, or new. A new file has a new number, unless it
        describes a file of the current version again, as a move between levels does. */
    ghost predicate Usable(m: Meta)
      reads this
    {
      || (current.Some? && current.value in versions && Holds(versions[current.value].files, m))
      || (m !in built && (NewNumber(built, m.number) || InBase(versions, current, m.number)))
    }

    /** Builds a version from the current one, on which the builder holds a reference. */
    method Build(v: nat, files: seq<seq<Meta>>)
      requires Valid() && v !in versions && v !in builders && Distinct(files)
      requires forall m :: Holds(files, m) ==> Usable(m)
      modifies this
      ensures Valid() && list == old(list) && current == old(current) && obsolete == old(obsolete)
      ensures built == old(built) + Metas(files) && builders == old(builders)[v := Builder(old(current), true)]
      ensures v in versions && versions[v].files == files && versions[v].refs == 0
      ensures versions == WithRef(old(versions), old(current))[v := versions[v]]
    {
      hide Counted, Distinct, Indexed, Holds, Sheltered, Pinned, HoldsNumber, Pins, NewNumber, NoRepeats, Settled;
      if current.Some? {
        CurrentIsThere(versions, builders, current);
        Ref(current.value);
      }
      AddVersion(v, files);
    }

    method AddVersion(v: nat, files: seq<seq<Meta>>)
      requires Valid() && v !in versions && v !in builders && Distinct(files)
      requires current.Some? ==>
        current.value in versions && versions[current.value].refs > Pins(builders, current, current.value)
      requires forall m :: Holds(files, m) ==> Usable(m)
      modifies this
      ensures Valid() && list == old(list) && current == old(current) && obsolete == old(obsolete)
      ensures built == old(built) + Metas(files) && builders == old(builders)[v := Builder(old(current), true)]
      ensures v in versions && versions[v].files == files && versions[v].refs == 0
      ensures versions == old(versions)[v := versions[v]]
    {
      hide Counted, Settled, Distinct, Indexed, Holds, Sheltered, Pinned, HoldsNumber, Pins, InBase, NewNumber, Metas;
      hide NoRepeats, IndexesOk, Listed, PendingOk;
      UsableIsInUse(versions, refs, current, built, obsolete, files);
      AllBuilt(versions, refs, built, obsolete);
      var locations := GenerateFileLocationIndex(files);
      var version := Version(files, 0, locations);
      NotPending(versions, builders, current);
      OneMore(versions, builders, list, v, version, current);
      PinnedWith(versions, builders, current, v, version);
      ShelteredWith(versions, builders, built, current, v, version);
      ghost var before := refs;
      refs := AddFiles(files, refs);
      CountedWith(versions, before, refs, v, version);
      SettledWith(built, before, refs, obsolete, files);
      versions := versions[v := version];
      builders := builders[v := Builder(current, true)];
      built := built + Metas(files);
    }

    /** The destructor of a version without references. */
    method Delete(v: nat)
      requires ValidBut(v) && v in versions && versions[v].refs == 0
      modifies this
      ensures Valid() && versions == old(versions) - {v} && current == old(current) && built == old(built)
      ensures builders == old(builders)
      ensures forall u :: u in list <==> u in old(list) && u != v
      ensures Retired(old(versions), v, old(obsolete), obsolete)
    {
      hide Counted, Settled, Distinct, Indexed, Holds, Sheltered, Pinned, Pins, IndexesOk, Listed, PendingOk, Retired;
      PinnedWithout(versions, builders, current, v);
      NotPendingBut(versions, builders, v);
      ShelteredWithout(versions, builders, built, current, v);
      var rest := Unlink(list, v);
      OneLess(versions, builders, list, rest, v);
      HoldsItsFiles(versions, refs, built, obsolete, v);
      ghost var before, gone := refs, obsolete;
      var refs', obsolete' := DropFiles(versions[v].files, refs, obsolete);
      CountedWithout(versions, before, refs', v);
      SettledWithout(built, before, refs', gone, obsolete', versions[v].files);
      RetiredAreThese(versions, v, before, gone, obsolete');
      list, refs, obsolete := rest, refs', obsolete';
      versions := versions - {v};
    }

    /** A failed commit deletes the version it built. */
    method Abandon(v: nat)
      requires Valid() && Pending(builders, v)
      modifies this
      ensures Valid() && versions == old(versions) - {v} && current == old(current) && built == old(built)
      ensures builders == old(builders)[v := old(builders)[v].(pending := false)]
      ensures Retired(old(versions), v, old(obsolete), obsolete)
    {
      hide Counted, Distinct, Indexed, NoRepeats, Sheltered, Pinned, Pins;
      Settle(v);
      Delete(v);
    }

    /** The version is pending no more. */
    method Settle(v: nat)
      requires Valid() && Pending(builders, v)
      modifies `builders
      ensures ValidBut(v)
      ensures builders == old(builders)[v := old(builders)[v].(pending := false)]
    {
      hide Counted, Distinct, Indexed, NoRepeats, Sheltered, Pinned, Pins;
      PinnedSettled(versions, builders, current, v);
      ShelteredSettled(versions, builders, built, v);
      builders := builders[v := builders[v].(pending := false)];
    }

    /** A builder whose version is appended or given up lets go of its base. */
    method Release(v: nat)
      requires Valid() && v in builders && !builders[v].pending
      modifies this
      ensures Valid() && current == old(current) && built == old(built) && builders == old(builders) - {v}
      ensures old(builders)[v].base.None? ==> versions == old(versions) && obsolete == old(obsolete)
      ensures old(builders)[v].base.Some? ==> Unreferenced(old(versions), old(builders)[v].base.value, old(obsolete))
    {
      hide Counted, Distinct, Indexed, NoRepeats, Sheltered, Pinned, Pins, Retired;
      var base := builders[v].base;
      PinnedReleased(versions, builders, current, v);
      ShelteredReleased(versions, builders, built, v);
      builders := builders - {v};
      if base.Some? {
        DropRef(base.value);
      }
    }

    /** Version b has lost a reference and, if it was the last, its files. */
    ghost predicate Unreferenced(before: map<nat, Version>, b: nat, obsoleteBefore: seq<Meta>)
      reads this
    {
      && b in before && before[b].refs > 0
      && (before[b].refs > 1 ==>
            versions == before[b := before[b].(refs := before[b].refs - 1)] && obsolete == obsoleteBefore)
      && (before[b].refs == 1 ==> versions == before - {b} && Retired(before, b, obsoleteBefore, obsolete))
    }

    method Ref(v: nat)
      requires Valid() && v in list
      modifies this
      ensures Valid() && versions == old(versions)[v := old(versions)[v].(refs := old(versions)[v].refs + 1)]
      ensures list == old(list) && current == old(current) && refs == old(refs) && obsolete == old(obsolete)
      ensures built == old(built) && builders == old(builders)
    {
      hide Distinct, Indexed, NoRepeats, Sheltered, Pins;
      SetRefs(v, versions[v].refs + 1);
    }

    /** By a holder other than the builders and the list, which holds its current version. */
    method Unref(v: nat)
      requires Valid() && v in versions && versions[v].refs > Pins(builders, current, v)
      modifies this
      ensures Valid() && current == old(current) && built == old(built) && builders == old(builders)
      ensures Unreferenced(old(versions), v, old(obsolete))
    {
      hide Distinct, Indexed, NoRepeats, Retired, Sheltered, Pinned, Pins;
      DropRef(v);
    }

    method DropRef(v: nat)
      requires Valid() && v in versions && versions[v].refs > Pins(builders, current, v)
      modifies this
      ensures Valid() && current == old(current) && built == old(built) && builders == old(builders)
      ensures Unreferenced(old(versions), v, old(obsolete))
    {
      hide Distinct, Indexed, NoRepeats, Sheltered, Pinned, Pins;
      ghost var before := versions;
      SetRefs(v, versions[v].refs - 1);
      if versions[v].refs == 0 {
        ghost var between := versions;
        Delete(v);
        assert versions == before - {v};
        SameHolders(before, v, between[v], old(obsolete), obsolete);
      }
    }

    method SetRefs(v: nat, n: nat)
      requires Valid() && v in versions && versions[v].refs > 0 && n >= Pins(builders, current, v)
      modifies `versions
      ensures versions == old(versions)[v := old(versions)[v].(refs := n)]
      ensures n > 0 ==> Valid()
      ensures n == 0 ==> ValidBut(v)
    {
      hide Distinct, Indexed, NoRepeats, Holders, Sheltered, Pins;
      var version := versions[v].(refs := n);
      ShelteredSame(versions, builders, built, v, n);
      forall m ensures Holders(versions[v := version], m) == Holders(versions, m) {
        HoldersSame(versions, v, version, m);
      }
      versions := versions[v := version];
    }

    /** Makes a built version current; the one before loses the reference of being current. */
    method AppendVersion(v: nat)
      requires Valid() && Pending(builders, v)
      modifies this
      ensures Valid() && current == Some(v) && v in versions && versions[v].refs == 1 && built == old(built)
      ensures builders == old(builders)[v := old(builders)[v].(pending := false)]
      ensures versions[v].files == old(versions)[v].files
      ensures old(current).None? ==> versions == old(versions)[v := versions[v]] && obsolete == old(obsolete)
      ensures old(current).Some? && old(versions)[old(current).value].refs > 1 ==>
        var c := old(current).value;
        && versions == old(versions)[c := old(versions)[c].(refs := old(versions)[c].refs - 1)][v := versions[v]]
        && obsolete == old(obsolete)
      ensures old(current).Some? && old(versions)[old(current).value].refs == 1 ==>
        && versions == (old(versions) - {old(current).value})[v := versions[v]]
        && Retired(old(versions), old(current).value, old(obsolete), obsolete)
    {
      hide Distinct, Indexed, NoRepeats, Retired, Sheltered, Pinned, Pins;
      var before := current;
      CurrentIsThere(versions, builders, current);
      NotCurrent(versions, builders, current);
      current := None;
      if before.Some? {
        DropRef(before.value);
      }
      Link(v);
    }

    method Link(v: nat)
      requires Valid() && Pending(builders, v) && current == None
      modifies `versions, `builders, `list, `current
      ensures Valid() && current == Some(v) && versions == old(versions)[v := old(versions)[v].(refs := 1)]
      ensures builders == old(builders)[v := old(builders)[v].(pending := false)]
    {
      hide Distinct, Indexed, Holders, Sheltered, Pinned, Pins;
      var version := versions[v].(refs := 1);
      forall m ensures Holders(versions[v := version], m) == Holders(versions, m) {
        HoldersSame(versions, v, version, m);
      }
      PinnedLinked(versions, builders, v);
      PinnedSettled(versions[v := version], builders, Some(v), v);
      ShelteredSame(versions, builders, built, v, 1);
      ShelteredSettled(versions[v := version], builders, built, v);
      builders := builders[v := builders[v].(pending := false)];
      current := Some(v);
      versions := versions[v := version];
      list := list + [v];
    }

    /** Whether a version in the list has a file of this number. */
    ghost predicate Live(number: nat)
      reads this
    {
      LiveIn(list, versions, number)
    }

    /** No candidate that is still in a version in the list is left for physical deletion, and no other is
        spared. Nor is an obsolete file whose number any undeleted version has, pending ones included. */
    method RemoveLiveFiles(candidates: seq<Candidate>) returns (r: seq<Candidate>)
      requires Valid()
      ensures |r| == |candidates|
      ensures forall i :: 0 <= i < |r| ==>
        && r[i].meta == candidates[i].meta
        && (r[i].onlyDeleteMetadata <==> candidates[i].onlyDeleteMetadata || Live(candidates[i].meta.number))
      ensures forall i, v :: 0 <= i < |r| && !r[i].onlyDeleteMetadata && candidates[i].meta in obsolete ==>
        v in versions ==> !HoldsNumber(versions[v].files, candidates[i].meta.number)
    {
      hide Counted, NoRepeats, Distinct, Indexed, HoldsNumber, Sheltered, Pinned, Pins, Settled;
      r := candidates;
      for n := 0 to |list|
        invariant |r| == |candidates|
        invariant forall i :: 0 <= i < |r| ==>
          && r[i].meta == candidates[i].meta
          && (r[i].onlyDeleteMetadata <==>
                candidates[i].onlyDeleteMetadata || LiveIn(list[..n], versions, candidates[i].meta.number))
      {
        r := RemoveFilesOf(versions[list[n]], r);
        forall i | 0 <= i < |r|
          ensures LiveIn(list[..n + 1], versions, candidates[i].meta.number) <==>
            || LiveIn(list[..n], versions, candidates[i].meta.number)
            || HoldsNumber(versions[list[n]].files, candidates[i].meta.number)
        {
          LiveInNext(list, n, versions, candidates[i].meta.number);
        }
      }
      assert list[..|list|] == list;
      forall i, v | 0 <= i < |r| && !r[i].onlyDeleteMetadata && candidates[i].meta in obsolete && v in versions
        ensures !HoldsNumber(versions[v].files, candidates[i].meta.number)
      {
        if HoldsNumber(versions[v].files, candidates[i].meta.number) {
          ObsoleteIsUnused(v, candidates[i].meta);
        }
      }
    }

    /** A number that an obsolete file shares with any undeleted version is in a version of the list. */
    lemma ObsoleteIsUnused(v: nat, m: Meta)
      requires Valid() && m in obsolete && v in versions && HoldsNumber(versions[v].files, m.number)
      ensures Live(m.number)
    {
      hide NoRepeats, Distinct, Indexed, HoldsNumber, Pins, Holds;
      if v !in list {
        var f := HasNumber(versions[v].files, m.number);
        assert ShelteredFile(versions, builders[v].base, v, built, f.number);
        HolderCounts(versions, refs, v, m);
        if InBase(versions, builders[v].base, m.number) {
          BaseIsListed(versions, builders, current, v);
        }
      }
    }

    /** Valid, but for version v, which may be linked without a reference. */
    ghost predicate ValidBut(v: nat)
      reads this
    {
      && Counted(versions, refs)
      && NoRepeats(obsolete) && Settled(built, refs, obsolete)
      && IndexesOk(versions) && ListedBut(list, versions, v) && PendingBut(builders, versions, v)
      && Pinned(versions, builders, current) && Sheltered(versions, builders, built)
    }
  }

  ghost predicate IndexesOk(versions: map<nat, Version>) {
    forall v :: v in versions ==> Distinct(versions[v].files) && Indexed(versions[v].files, versions[v].locations)
  }

  /** The list holds the versions with references. */
  ghost predicate Listed(list: seq<nat>, versions: map<nat, Version>) {
    NoRepeats(list) && forall v :: v in list <==> v in versions && versions[v].refs > 0
  }

  /** A version without references is pending. */
  ghost predicate PendingOk(builders: map<nat, Builder>, versions: map<nat, Version>) {
    forall v :: Pending(builders, v) <==> v in versions && versions[v].refs == 0
  }

  ghost predicate ListedBut(list: seq<nat>, versions: map<nat, Version>, v: nat) {
    NoRepeats(list) && forall u :: u != v ==> (u in list <==> u in versions && versions[u].refs > 0)
  }

  ghost predicate PendingBut(builders: map<nat, Builder>, versions: map<nat, Version>, v: nat) {
    forall u :: Pending(builders, u) <==> u != v && u in versions && versions[u].refs == 0
  }

  lemma OneLess(versions: map<nat, Version>, builders: map<nat, Builder>, list: seq<nat>, rest: seq<nat>, v: nat)
    requires IndexesOk(versions) && ListedBut(list, versions, v) && PendingBut(builders, versions, v)
    requires NoRepeats(rest) && forall u :: u in rest <==> u in list && u != v
    ensures IndexesOk(versions - {v}) && Listed(rest, versions - {v}) && PendingOk(builders, versions - {v})
  {
    hide Distinct, Indexed, NoRepeats;
  }

  lemma OneMore(versions: map<nat, Version>, builders: map<nat, Builder>, list: seq<nat>, v: nat, version: Version,
                base: Option<nat>)
    requires IndexesOk(versions) && Listed(list, versions) && PendingOk(builders, versions) && v !in versions
    requires version.refs == 0 && Distinct(version.files) && Indexed(version.files, version.locations)
    ensures IndexesOk(versions[v := version]) && Listed(list, versions[v := version])
    ensures PendingOk(builders[v := Builder(base, true)], versions[v := version])
  {
    hide Distinct, Indexed, NoRepeats;
  }

  // ----- builders -----

  predicate Pending(builders: map<nat, Builder>, v: nat) {
    v in builders && builders[v].pending
  }

  ghost function On(builders: map<nat, Builder>, b: nat): set<nat> {
    set u | u in builders && builders[u].base == Some(b)
  }

  /** References that version b is sure to have: one as the current version and one of each builder on it. */
  ghost function Pins(builders: map<nat, Builder>, current: Option<nat>, b: nat): nat {
    |On(builders, b)| + if current == Some(b) then 1 else 0
  }

  ghost predicate Pinned(versions: map<nat, Version>, builders: map<nat, Builder>, current: Option<nat>) {
    forall b :: Pins(builders, current, b) <= if b in versions then versions[b].refs else 0
  }

  function WithRef(versions: map<nat, Version>, b: Option<nat>): map<nat, Version> {
    if b.Some? && b.value in versions then versions[b.value := versions[b.value].(refs := versions[b.value].refs + 1)]
    else versions
  }

  lemma CurrentIsThere(versions: map<nat, Version>, builders: map<nat, Builder>, current: Option<nat>)
    requires Pinned(versions, builders, current)
    ensures current.Some? ==>
              && current.value in versions && versions[current.value].refs > 0
              && versions[current.value].refs >= Pins(builders, current, current.value)
  {
    if current.Some? {
      assert Pins(builders, current, current.value) >= 1;
    }
  }

  lemma NotPending(versions: map<nat, Version>, builders: map<nat, Builder>, current: Option<nat>)
    requires Pinned(versions, builders, current) && PendingOk(builders, versions)
    ensures current.Some? ==> !Pending(builders, current.value)
  {
    CurrentIsThere(versions, builders, current);
  }

  lemma NotPendingBut(versions: map<nat, Version>, builders: map<nat, Builder>, v: nat)
    requires PendingBut(builders, versions, v)
    ensures !Pending(builders, v)
  {
  }

  lemma NotCurrent(versions: map<nat, Version>, builders: map<nat, Builder>, current: Option<nat>)
    requires Pinned(versions, builders, current)
    ensures Pinned(versions, builders, None)
    ensures current.Some? ==>
              current.value in versions && versions[current.value].refs > Pins(builders, None, current.value)
  {
    if current.Some? {
      assert Pins(builders, current, current.value)
          <= if current.value in versions then versions[current.value].refs else 0;
    }
    forall b: nat ensures Pins(builders, None, b) <= if b in versions then versions[b].refs else 0 {
      assert Pins(builders, None, b) <= Pins(builders, current, b);
    }
  }

  lemma PinnedWith(versions: map<nat, Version>, builders: map<nat, Builder>, current: Option<nat>, v: nat,
                   version: Version)
    requires Pinned(versions, builders, current) && v !in versions && v !in builders
    requires current.Some? ==>
      current.value in versions && versions[current.value].refs > Pins(builders, current, current.value)
    ensures Pinned(versions[v := version], builders[v := Builder(current, true)], current)
  {
    var more, larger := builders[v := Builder(current, true)], versions[v := version];
    forall b: nat ensures Pins(more, current, b) <= if b in larger then larger[b].refs else 0 {
      OnWith(builders, current, v, b);
      assert Pins(builders, current, b) <= if b in versions then versions[b].refs else 0;
    }
  }

  lemma OnWith(builders: map<nat, Builder>, base: Option<nat>, v: nat, b: nat)
    requires v !in builders
    ensures |On(builders[v := Builder(base, true)], b)| == |On(builders, b)| + if base == Some(b) then 1 else 0
  {
    var more := builders[v := Builder(base, true)];
    if base == Some(b) {
      assert On(more, b) == On(builders, b) + {v};
    } else {
      assert On(more, b) == On(builders, b);
    }
  }

  lemma PinnedWithout(versions: map<nat, Version>, builders: map<nat, Builder>, current: Option<nat>, v: nat)
    requires Pinned(versions, builders, current) && v in versions && versions[v].refs == 0
    ensures Pinned(versions - {v}, builders, current) && Pins(builders, current, v) == 0
  {
    forall b: nat ensures Pins(builders, current, b) <= if b in versions - {v} then (versions - {v})[b].refs else 0 {
      assert Pins(builders, current, b) <= if b in versions then versions[b].refs else 0;
    }
  }

  lemma PinnedSettled(versions: map<nat, Version>, builders: map<nat, Builder>, current: Option<nat>, v: nat)
    requires Pinned(versions, builders, current) && v in builders
    ensures Pinned(versions, builders[v := builders[v].(pending := false)], current)
  {
    var settled := builders[v := builders[v].(pending := false)];
    forall b: nat ensures Pins(settled, current, b) == Pins(builders, current, b) {
      assert On(settled, b) == On(builders, b);
    }
  }

  lemma PinnedLinked(versions: map<nat, Version>, builders: map<nat, Builder>, v: nat)
    requires Pinned(versions, builders, None) && v in versions && versions[v].refs == 0
    ensures Pinned(versions[v := versions[v].(refs := 1)], builders, Some(v))
  {
    var linked := versions[v := versions[v].(refs := 1)];
    forall b: nat ensures Pins(builders, Some(v), b) <= if b in linked then linked[b].refs else 0 {
      assert Pins(builders, None, b) <= if b in versions then versions[b].refs else 0;
    }
  }

  lemma PinnedReleased(versions: map<nat, Version>, builders: map<nat, Builder>, current: Option<nat>, v: nat)
    requires Pinned(versions, builders, current) && v in builders
    ensures Pinned(versions, builders - {v}, current)
    ensures builders[v].base.Some? ==>
              var b := builders[v].base.value; b in versions && versions[b].refs > Pins(builders - {v}, current, b)
  {
    var less := builders - {v};
    forall b: nat
      ensures Pins(less, current, b) + (if builders[v].base == Some(b) then 1 else 0) == Pins(builders, current, b)
    {
      if builders[v].base == Some(b) {
        assert On(builders, b) == On(less, b) + {v};
      } else {
        assert On(builders, b) == On(less, b);
      }
    }
    if builders[v].base.Some? {
      var b := builders[v].base.value;
      assert Pins(builders, current, b) <= if b in versions then versions[b].refs else 0;
    }
  }

  // ----- files of pending versions -----

  ghost predicate NewNumber(built: set<Meta>, n: nat) {
    forall m :: m in built ==> m.number != n
  }

  ghost predicate InBase(versions: map<nat, Version>, base: Option<nat>, n: nat) {
    base.Some? && base.value in versions && HoldsNumber(versions[base.value].files, n)
  }

  /** No other version has the number and no other file ever had it. */
  ghost predicate OnlyIn(versions: map<nat, Version>, v: nat, built: set<Meta>, n: nat)
    requires v in versions
  {
    && (forall u :: u in versions && u != v ==> !HoldsNumber(versions[u].files, n))
    && (forall m :: m in built && m.number == n ==> Holds(versions[v].files, m))
  }

  ghost predicate ShelteredFile(versions: map<nat, Version>, base: Option<nat>, v: nat, built: set<Meta>, n: nat)
    requires v in versions
  {
    InBase(versions, base, n) || OnlyIn(versions, v, built, n)
  }

  /** The number of a file of a pending version is also in its base, or nowhere else. */
  ghost predicate Sheltered(versions: map<nat, Version>, builders: map<nat, Builder>, built: set<Meta>) {
    forall v, m :: Pending(builders, v) && v in versions && Holds(versions[v].files, m) ==>
      ShelteredFile(versions, builders[v].base, v, built, m.number)
  }

  lemma HasNumber(files: seq<seq<Meta>>, n: nat) returns (m: Meta)
    requires HoldsNumber(files, n)
    ensures Holds(files, m) && m.number == n
  {
    var p: (nat, nat) :| At(files, p) && files[p.0][p.1].number == n;
    m := files[p.0][p.1];
  }

  lemma NumberOf(files: seq<seq<Meta>>, m: Meta)
    requires Holds(files, m)
    ensures HoldsNumber(files, m.number)
  {
    var p: (nat, nat) :| At(files, p) && files[p.0][p.1] == m;
    assert files[p.0][p.1].number == m.number;
  }

  /** A file in a version has a reference. */
  lemma HolderCounts(versions: map<nat, Version>, refs: map<Meta, nat>, v: nat, m: Meta)
    requires Counted(versions, refs) && v in versions
    ensures Holds(versions[v].files, m) ==> Refs(refs, m) > 0
  {
    if Holds(versions[v].files, m) {
      assert v in Holders(versions, m);
    }
  }

  lemma BaseIsListed(versions: map<nat, Version>, builders: map<nat, Builder>, current: Option<nat>, v: nat)
    requires Pinned(versions, builders, current) && v in builders && builders[v].base.Some?
    ensures builders[v].base.value in versions && versions[builders[v].base.value].refs > 0
  {
    var b := builders[v].base.value;
    assert v in On(builders, b);
    assert Pins(builders, current, b) >= 1;
  }

  lemma AllBuilt(versions: map<nat, Version>, refs: map<Meta, nat>, built: set<Meta>, obsolete: seq<Meta>)
    requires Counted(versions, refs) && Settled(built, refs, obsolete)
    ensures forall u, m :: u in versions && Holds(versions[u].files, m) ==> m in built
  {
    hide Holds, Counted;
    forall u, m | u in versions && Holds(versions[u].files, m) ensures m in built {
      HolderCounts(versions, refs, u, m);
    }
  }

  lemma UsableIsInUse(versions: map<nat, Version>, refs: map<Meta, nat>, current: Option<nat>, built: set<Meta>,
                      obsolete: seq<Meta>, files: seq<seq<Meta>>)
    requires Counted(versions, refs) && Settled(built, refs, obsolete)
    requires forall m :: Holds(files, m) ==>
      || (current.Some? && current.value in versions && Holds(versions[current.value].files, m))
      || m !in built
    ensures forall m :: Holds(files, m) ==> m !in obsolete
  {
    hide Holds, Counted;
    forall m | Holds(files, m) ensures m !in obsolete {
      if m in built {
        HolderCounts(versions, refs, current.value, m);
      }
    }
  }

  lemma ShelteredSame(versions: map<nat, Version>, builders: map<nat, Builder>, built: set<Meta>, v: nat, n: nat)
    requires Sheltered(versions, builders, built) && v in versions
    ensures Sheltered(versions[v := versions[v].(refs := n)], builders, built)
  {
    hide Holds, HoldsNumber;
    var same := versions[v := versions[v].(refs := n)];
    forall u, m | Pending(builders, u) && u in same && Holds(same[u].files, m)
      ensures ShelteredFile(same, builders[u].base, u, built, m.number)
    {
      assert ShelteredFile(versions, builders[u].base, u, built, m.number);
    }
  }

  lemma ShelteredSettled(versions: map<nat, Version>, builders: map<nat, Builder>, built: set<Meta>, v: nat)
    requires Sheltered(versions, builders, built) && v in builders
    ensures Sheltered(versions, builders[v := builders[v].(pending := false)], built)
  {
    hide Holds, ShelteredFile;
  }

  lemma ShelteredReleased(versions: map<nat, Version>, builders: map<nat, Builder>, built: set<Meta>, v: nat)
    requires Sheltered(versions, builders, built) && v in builders && !builders[v].pending
    ensures Sheltered(versions, builders - {v}, built)
  {
    hide Holds, ShelteredFile;
  }

  lemma ShelteredWithout(versions: map<nat, Version>, builders: map<nat, Builder>, built: set<Meta>,
                         current: Option<nat>, v: nat)
    requires Sheltered(versions, builders, built) && Pinned(versions, builders, current)
    requires v in versions && versions[v].refs == 0 && !Pending(builders, v)
    ensures Sheltered(versions - {v}, builders, built)
  {
    hide Holds, HoldsNumber, Pinned;
    var less := versions - {v};
    forall u, m | Pending(builders, u) && u in less && Holds(less[u].files, m)
      ensures ShelteredFile(less, builders[u].base, u, built, m.number)
    {
      assert ShelteredFile(versions, builders[u].base, u, built, m.number);
      if builders[u].base.Some? {
        BaseIsListed(versions, builders, current, u);
      }
    }
  }

  /** A new version and what shelters its files. */
  lemma ShelteredWith(versions: map<nat, Version>, builders: map<nat, Builder>, built: set<Meta>,
                      current: Option<nat>, v: nat, version: Version)
    requires Sheltered(versions, builders, built) && v !in versions && v !in builders
    requires forall u, m :: u in versions && Holds(versions[u].files, m) ==> m in built
    requires current.Some? ==> current.value in versions && !Pending(builders, current.value)
    requires forall m :: Holds(version.files, m) ==>
      || (current.Some? && Holds(versions[current.value].files, m))
      || (m !in built && (NewNumber(built, m.number) || InBase(versions, current, m.number)))
    ensures Sheltered(versions[v := version], builders[v := Builder(current, true)], built + Metas(version.files))
  {
    hide Holds, HoldsNumber, Metas, ShelteredFile;
    var more, theirs := versions[v := version], builders[v := Builder(current, true)];
    forall u, m | Pending(theirs, u) && u in more && Holds(more[u].files, m)
      ensures ShelteredFile(more, theirs[u].base, u, built + Metas(version.files), m.number)
    {
      if u == v {
        NewFileSheltered(versions, built, current, v, version, m);
      } else {
        OldFileSheltered(versions, builders, built, current, v, version, u, m);
      }
    }
  }

  lemma NewFileSheltered(versions: map<nat, Version>, built: set<Meta>, current: Option<nat>, v: nat, version: Version,
                         m: Meta)
    requires v !in versions && (forall u, f :: u in versions && Holds(versions[u].files, f) ==> f in built)
    requires || (current.Some? && current.value in versions && Holds(versions[current.value].files, m))
             || NewNumber(built, m.number) || InBase(versions, current, m.number)
    ensures ShelteredFile(versions[v := version], current, v, built + Metas(version.files), m.number)
  {
    hide Holds, HoldsNumber, Metas;
    var n := m.number;
    AllOf(version.files);
    if NewNumber(built, n) {
      forall u | u in versions ensures !HoldsNumber(versions[u].files, n) {
        if HoldsNumber(versions[u].files, n) {
          var f := HasNumber(versions[u].files, n);
        }
      }
    } else if !InBase(versions, current, n) {
      NumberOf(versions[current.value].files, m);
    }
  }

  lemma OldFileSheltered(versions: map<nat, Version>, builders: map<nat, Builder>, built: set<Meta>,
                         current: Option<nat>, v: nat, version: Version, u: nat, m: Meta)
    requires Sheltered(versions, builders, built) && v !in versions
    requires Pending(builders, u) && u in versions && Holds(versions[u].files, m) && m in built
    requires current.Some? ==> current.value in versions && current.value != u
    requires forall f :: Holds(version.files, f) ==>
      || (current.Some? && Holds(versions[current.value].files, f))
      || NewNumber(built, f.number) || InBase(versions, current, f.number)
    ensures ShelteredFile(versions[v := version], builders[u].base, u, built + Metas(version.files), m.number)
  {
    hide Holds, HoldsNumber, Metas;
    var n := m.number;
    assert ShelteredFile(versions, builders[u].base, u, built, n);
    if OnlyIn(versions, u, built, n) {
      AllOf(version.files);
      forall f | Holds(version.files, f) ensures f.number != n {
        if current.Some? && Holds(versions[current.value].files, f) {
          NumberOf(versions[current.value].files, f);
        }
      }
      if HoldsNumber(version.files, n) {
        var f := HasNumber(version.files, n);
      }
    }
  }

  ghost predicate LiveIn(list: seq<nat>, versions: map<nat, Version>, number: nat) {
    exists v :: v in list && v in versions && HoldsNumber(versions[v].files, number)
  }

  lemma LiveInNext(list: seq<nat>, n: nat, versions: map<nat, Version>, number: nat)
    requires n < |list| && list[n] in versions
    ensures LiveIn(list[..n + 1], versions, number) <==>
              LiveIn(list[..n], versions, number) || HoldsNumber(versions[list[n]].files, number)
  {
    hide HoldsNumber;
    assert list[..n + 1] == list[..n] + [list[n]];
    if LiveIn(list[..n], versions, number) {
      var v :| v in list[..n] && v in versions && HoldsNumber(versions[v].files, number);
      assert v in list[..n + 1];
    }
    if HoldsNumber(versions[list[n]].files, number) {
      assert list[n] in list[..n + 1];
    }
  }

  /** `Version::RemoveLiveFiles`. */
  method RemoveFilesOf(version: Version, candidates: seq<Candidate>) returns (r: seq<Candidate>)
    requires Indexed(version.files, version.locations)
    ensures |r| == |candidates|
    ensures forall i :: 0 <= i < |r| ==>
      && r[i].meta == candidates[i].meta
      && (r[i].onlyDeleteMetadata <==>
            candidates[i].onlyDeleteMetadata || HoldsNumber(version.files, candidates[i].meta.number))
  {
    hide Indexed, HoldsNumber;
    r := candidates;
    for n := 0 to |r|
      invariant |r| == |candidates|
      invariant forall i :: n <= i < |r| ==> r[i] == candidates[i]
      invariant forall i :: 0 <= i < n ==>
        && r[i].meta == candidates[i].meta
        && (r[i].onlyDeleteMetadata <==>
              candidates[i].onlyDeleteMetadata || HoldsNumber(version.files, candidates[i].meta.number))
    {
      IndexFindsNumbers(version.files, version.locations, r[n].meta.number);
      if !r[n].onlyDeleteMetadata && r[n].meta.number in version.locations {
        r := r[n := r[n].(onlyDeleteMetadata := true)];
      }
    }
  }

  lemma SameHolders(versions: map<nat, Version>, v: nat, version: Version, before: seq<Meta>, after: seq<Meta>)
    requires v in versions && version.files == versions[v].files && Retired(versions[v := version], v, before, after)
    ensures Retired(versions, v, before, after)
  {
    forall m ensures Holders(versions[v := version], m) == Holders(versions, m) {
      HoldersSame(versions, v, version, m);
    }
  }

  /** Of the files that ever were in a version, exactly those without references are obsolete. */
  ghost predicate Settled(built: set<Meta>, refs: map<Meta, nat>, obsolete: seq<Meta>) {
    && (forall m :: m in obsolete <==> m in built && Refs(refs, m) == 0)
    && (forall m :: Refs(refs, m) > 0 ==> m in built)
  }

  lemma SettledWith(built: set<Meta>, before: map<Meta, nat>, refs: map<Meta, nat>, obsolete: seq<Meta>,
                    files: seq<seq<Meta>>)
    requires Settled(built, before, obsolete) && forall m :: Holds(files, m) ==> m !in obsolete
    requires forall m :: Refs(refs, m) == Refs(before, m) + if Holds(files, m) then 1 else 0
    ensures Settled(built + Metas(files), refs, obsolete)
  {
    hide Holds, Metas;
    AllOf(files);
  }

  lemma SettledWithout(built: set<Meta>, before: map<Meta, nat>, refs: map<Meta, nat>, gone: seq<Meta>,
                       obsolete: seq<Meta>, files: seq<seq<Meta>>)
    requires Settled(built, before, gone)
    requires forall m :: Refs(refs, m) == Refs(before, m) - if Holds(files, m) then 1 else 0
    requires forall m :: m in obsolete <==> m in gone || (Holds(files, m) && Refs(before, m) == 1)
    ensures Settled(built, refs, obsolete)
  {
    hide Holds;
  }

  ghost function Metas(files: seq<seq<Meta>>): set<Meta> {
    set l, i | 0 <= l < |files| && 0 <= i < |files[l]| :: files[l][i]
  }

  lemma AllOf(files: seq<seq<Meta>>)
    ensures forall m :: m in Metas(files) <==> Holds(files, m)
  {
    forall m | m in Metas(files) ensures Holds(files, m) {
      var l, i :| 0 <= l < |files| && 0 <= i < |files[l]| && files[l][i] == m;
      assert At(files, (l, i));
    }
  }

  /** Exactly the files whose only holder was v became obsolete, each once. */
  ghost predicate Retired(versions: map<nat, Version>, v: nat, before: seq<Meta>, after: seq<Meta>) {
    && NoRepeats(after)
    && forall m :: m in after <==> m in before || Holders(versions, m) == {v}
  }

  lemma RetiredAreThese(versions: map<nat, Version>, v: nat, refs: map<Meta, nat>, before: seq<Meta>, after: seq<Meta>)
    requires v in versions && Counted(versions, refs) && NoRepeats(after)
    requires forall m :: m in after <==> m in before || (Holds(versions[v].files, m) && Refs(refs, m) == 1)
    ensures Retired(versions, v, before, after)
  {
    hide Holds;
    forall m ensures Holds(versions[v].files, m) && Refs(refs, m) == 1 <==> Holders(versions, m) == {v} {
      var h := Holders(versions, m);
      if Holds(versions[v].files, m) && Refs(refs, m) == 1 {
        assert v in h && |h - {v}| == 0;
        assert h == {v};
      }
      if h == {v} {
        assert v in h;
      }
    }
  }

  lemma NoVersions()
    ensures Counted(map[], map[])
  {
    forall m ensures Holders(map[], m) == {} {
    }
  }

  /** Takes a version out of the linked list. */
  method Unlink(list: seq<nat>, v: nat) returns (rest: seq<nat>)
    requires NoRepeats(list)
    ensures NoRepeats(rest) && forall u :: u in rest <==> u in list && u != v
  {
    rest := [];
    for i := 0 to |list|
      invariant NoRepeats(rest)
      invariant forall u :: u in rest <==> u in list[..i] && u != v
    {
      if list[i] != v {
        assert list[i] !in rest;
        rest := rest + [list[i]];
      }
    }
    assert list[..|list|] == list;
  }
}
