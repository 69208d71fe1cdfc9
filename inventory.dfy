/** File inventories, as both roles build them with `read_local_storage`:
    an ordered list of `[root, name, md5]` triples. Reconciliation looks at
    the name (index 1) and the hash (index 2) only; the root (index 0) is
    carried along but never compared. */
module Inventory {
  import opened Common

  /** One `[root, name, md5]` triple. */
  datatype Entry = Entry(location: string, name: string, hash: string)

  type Inv = seq<Entry>

  predicate HasName(inv: Inv, n: string) {
    exists i :: 0 <= i < |inv| && inv[i].name == n
  }

  predicate HasHash(inv: Inv, h: string) {
    exists i :: 0 <= i < |inv| && inv[i].hash == h
  }

  /** `i` is the position where a first-match scan for name `n` stops. */
  predicate IsFirstNamed(inv: Inv, n: string, i: int) {
    0 <= i < |inv| && inv[i].name == n && forall j :: 0 <= j < i ==> inv[j].name != n
  }

  /** `i` is the position where a first-match scan for hash `h` stops. */
  predicate IsFirstHashed(inv: Inv, h: string, i: int) {
    0 <= i < |inv| && inv[i].hash == h && forall j :: 0 <= j < i ==> inv[j].hash != h
  }

  /** No two entries share a name (a tree without repeated basenames). */
  predicate DistinctNames(inv: Inv) {
    forall i, j :: 0 <= i < j < |inv| ==> inv[i].name != inv[j].name
  }

  /** Scan from position `from` for the first entry named `n`. */
  function FindName(inv: Inv, n: string, from: nat): (r: Option<nat>)
    requires from <= |inv|
    ensures r.Some? ==> from <= r.value && IsFirstNamedFrom(inv, n, from, r.value)
    ensures r.None? <==> forall j :: from <= j < |inv| ==> inv[j].name != n
    decreases |inv| - from
  {
    if from == |inv| then None
    else if inv[from].name == n then Some(from)
    else FindName(inv, n, from + 1)
  }

  /** Scan from position `from` for the first entry whose hash is `h`. */
  function FindHash(inv: Inv, h: string, from: nat): (r: Option<nat>)
    requires from <= |inv|
    ensures r.Some? ==> from <= r.value && IsFirstHashedFrom(inv, h, from, r.value)
    ensures r.None? <==> forall j :: from <= j < |inv| ==> inv[j].hash != h
    decreases |inv| - from
  {
    if from == |inv| then None
    else if inv[from].hash == h then Some(from)
    else FindHash(inv, h, from + 1)
  }

  predicate IsFirstNamedFrom(inv: Inv, n: string, from: nat, i: int) {
    from <= i < |inv| && inv[i].name == n && forall j :: from <= j < i ==> inv[j].name != n
  }

  predicate IsFirstHashedFrom(inv: Inv, h: string, from: nat, i: int) {
    from <= i < |inv| && inv[i].hash == h && forall j :: from <= j < i ==> inv[j].hash != h
  }

  /** The first entry named `n`, if any: what the source's `for ... if ...
      break` scan over names finds. */
  function FirstNamed(inv: Inv, n: string): (r: Option<nat>)
    ensures r.Some? <==> HasName(inv, n)
    ensures r.Some? ==> IsFirstNamed(inv, n, r.value)
  {
    FindName(inv, n, 0)
  }

  /** The first entry whose hash is `h`, if any. */
  function FirstHashed(inv: Inv, h: string): (r: Option<nat>)
    ensures r.Some? <==> HasHash(inv, h)
    ensures r.Some? ==> IsFirstHashed(inv, h, r.value)
  {
    FindHash(inv, h, 0)
  }

  lemma FirstNamedUnique(inv: Inv, n: string, i: int, k: int)
    requires IsFirstNamed(inv, n, i) && IsFirstNamed(inv, n, k)
    ensures i == k
  {
  }

  lemma FirstHashedUnique(inv: Inv, h: string, i: int, k: int)
    requires IsFirstHashed(inv, h, i) && IsFirstHashed(inv, h, k)
    ensures i == k
  {
  }

  /** The entry with its location blanked out: what reconciliation can see. */
  function Erase(e: Entry): Entry {
    e.(location := "")
  }

  function EraseAll(inv: Inv): (r: Inv)
    ensures |r| == |inv|
    ensures forall i :: 0 <= i < |inv| ==> r[i] == Erase(inv[i])
  {
    seq(|inv|, i requires 0 <= i < |inv| => Erase(inv[i]))
  }
}
