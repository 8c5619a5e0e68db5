/**
 * The write pattern shared by every table loader of the scanner: records are
 * read first to last, each yields at most one key/value pair, and the pair is
 * written into a map, so a later record for a key overwrites an earlier one.
 */
module Entries {
  import opened Wrappers

  datatype Entry = Entry(key: string, value: string)

  /** Write the entries of `xs`, first to last, into `m`. */
  function Fold<T>(m: map<string, string>, xs: seq<T>, entry: T -> Option<Entry>): map<string, string>
    decreases |xs|
  {
    if xs == [] then m
    else
      var r := Fold(m, xs[..|xs| - 1], entry);
      match entry(xs[|xs| - 1])
      case None => r
      case Some(e) => r[e.key := e.value]
  }

  predicate WritesKey<T>(entry: T -> Option<Entry>, x: T, k: string) {
    entry(x).Some? && entry(x).value.key == k
  }

  /** The index of the last record of `xs` that writes key `k`, if any. */
  function LastFor<T>(xs: seq<T>, entry: T -> Option<Entry>, k: string): (r: Option<nat>)
    ensures r.Some? ==> r.value < |xs| && WritesKey(entry, xs[r.value], k)
    ensures r.Some? ==> forall j :: r.value < j < |xs| ==> !WritesKey(entry, xs[j], k)
    ensures r.None? ==> forall j :: 0 <= j < |xs| ==> !WritesKey(entry, xs[j], k)
  {
    if xs == [] then None
    else if WritesKey(entry, xs[|xs| - 1], k) then Some(|xs| - 1)
    else LastFor(xs[..|xs| - 1], entry, k)
  }

  lemma FoldSnoc<T>(m: map<string, string>, xs: seq<T>, x: T, entry: T -> Option<Entry>)
    ensures Fold(m, xs + [x], entry) ==
      match entry(x) case None => Fold(m, xs, entry) case Some(e) => Fold(m, xs, entry)[e.key := e.value]
  {
    assert (xs + [x])[..|xs|] == xs;
  }

  /**
   * The last record that writes a key decides its value; a key no record
   * writes keeps its value (or its absence) from the starting map.
   */
  lemma {:induction false} FoldLastWins<T>(m: map<string, string>, xs: seq<T>, entry: T -> Option<Entry>, k: string)
    ensures LastFor(xs, entry, k).Some? ==>
      k in Fold(m, xs, entry) && entry(xs[LastFor(xs, entry, k).value]) == Some(Entry(k, Fold(m, xs, entry)[k]))
    ensures LastFor(xs, entry, k).None? ==>
      (k in Fold(m, xs, entry) <==> k in m) && (k in m ==> Fold(m, xs, entry)[k] == m[k])
    decreases |xs|
  {
    if xs != [] {
      FoldLastWins(m, xs[..|xs| - 1], entry, k);
    }
  }

  /** Keys are only ever added. */
  lemma {:induction false} FoldKeysGrow<T>(m: map<string, string>, xs: seq<T>, entry: T -> Option<Entry>)
    ensures m.Keys <= Fold(m, xs, entry).Keys
    decreases |xs|
  {
    if xs != [] {
      FoldKeysGrow(m, xs[..|xs| - 1], entry);
    }
  }

  /** A property every starting value and every written value has, every value of the result has. */
  lemma {:induction false} FoldKeepsValues<T>(m: map<string, string>, xs: seq<T>, entry: T -> Option<Entry>, ok: string -> bool)
    requires forall k :: k in m ==> ok(m[k])
    requires forall j :: 0 <= j < |xs| && entry(xs[j]).Some? ==> ok(entry(xs[j]).value.value)
    ensures forall k :: k in Fold(m, xs, entry) ==> ok(Fold(m, xs, entry)[k])
    decreases |xs|
  {
    if xs != [] {
      FoldKeepsValues(m, xs[..|xs| - 1], entry, ok);
    }
  }
}
