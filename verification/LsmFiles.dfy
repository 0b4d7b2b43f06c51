/** The files of a version and their order. User keys are points of a linear order. */
module LsmFiles {
  import opened Common

  type UserKey = int

  /** Internal keys are ordered by user key, then newest first. */
  datatype IKey = IKey(user: UserKey, seqno: nat)

  predicate Less(a: IKey, b: IKey) {
    a.user < b.user || (a.user == b.user && a.seqno > b.seqno)
  }

  /** An entry of a table: a put with its value, or a deletion. */
  datatype Value = Put(data: nat) | Delete

  datatype Entry = Entry(key: IKey, value: Value)

  datatype File = File(smallest: IKey, largest: IKey, entries: seq<Entry>)

  type Level = seq<File>

  /** Smallest and largest are in order and enclose the entries. */
  ghost predicate FileOk(f: File) {
    && !Less(f.largest, f.smallest)
    && forall i :: 0 <= i < |f.entries| ==> !Less(f.entries[i].key, f.smallest) && !Less(f.largest, f.entries[i].key)
  }

  ghost predicate FilesOk(files: Level) {
    forall i :: 0 <= i < |files| ==> FileOk(files[i])
  }

  /** Below level 0 the files are disjoint in internal keys and in order; neighbours may share a user
      key. */
  ghost predicate Sorted(files: Level) {
    forall i, j :: 0 <= i < j < |files| ==> Less(files[i].largest, files[j].smallest)
  }

  ghost predicate LevelsOk(levels: seq<Level>) {
    && (forall l :: 0 <= l < |levels| ==> FilesOk(levels[l]))
    && (forall l :: 1 <= l < |levels| ==> Sorted(levels[l]))
  }

  /** The user-key range of the file holds the key. */
  predicate InRange(f: File, user: UserKey) {
    f.smallest.user <= user <= f.largest.user
  }

  /** `Compare` on user keys: the sign of the difference. */
  function Compare(a: UserKey, b: UserKey): int {
    if a < b then -1 else if a == b then 0 else 1
  }

  lemma SortedUsers(files: Level, i: nat, j: nat)
    requires FilesOk(files) && Sorted(files) && i < j < |files|
    ensures files[i].smallest.user <= files[i].largest.user <= files[j].smallest.user <= files[j].largest.user
    ensures Less(files[i].largest, files[j].largest)
  {
    assert FileOk(files[i]) && FileOk(files[j]);
  }

  /** The first file of files[left..right] whose largest key is not before the key. */
  method FindFileInRange(files: Level, key: IKey, left: nat, right: nat) returns (r: nat)
    requires FilesOk(files) && Sorted(files) && left <= right <= |files|
    ensures left <= r <= right
    ensures forall i :: left <= i < r ==> Less(files[i].largest, key)
    ensures forall i :: r <= i < right ==> !Less(files[i].largest, key)
  {
    forall i, j | left <= i < j < right && Less(files[j].largest, key) ensures Less(files[i].largest, key) {
      SortedUsers(files, i, j);
    }
    var below := (i: nat) => i < |files| && Less(files[i].largest, key);
    r := LowerBound(left, right, below);
    assert forall i :: left <= i < right ==> below(i) == Less(files[i].largest, key);
  }
}
