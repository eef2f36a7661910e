/**
 * Java's `LinkedHashMap<String, V>` and `LinkedHashSet<String>` as
 * sequences in insertion order, with the three operations `Main.normalize`
 * uses: `get`, `putIfAbsent` (and `put` of a new key) and `add`.
 */
module LinkedMaps {
  import opened Wrappers

  /** One mapping of a linked map; iteration visits entries in insertion order. */
  datatype Entry<V> = Entry(key: string, value: V)

  function Keys<V>(m: seq<Entry<V>>): (ks: seq<string>)
    ensures |ks| == |m|
    ensures forall i | 0 <= i < |m| :: ks[i] == m[i].key
  {
    seq(|m|, i requires 0 <= i < |m| => m[i].key)
  }

  /** `map.values()`, in iteration order. */
  function Values<V>(m: seq<Entry<V>>): (vs: seq<V>)
    ensures |vs| == |m|
    ensures forall i | 0 <= i < |m| :: vs[i] == m[i].value
  {
    seq(|m|, i requires 0 <= i < |m| => m[i].value)
  }

  predicate KeysDistinct<V>(m: seq<Entry<V>>) {
    forall i, j | 0 <= i < j < |m| :: m[i].key != m[j].key
  }

  predicate Distinct(s: seq<string>) {
    forall i, j | 0 <= i < j < |s| :: s[i] != s[j]
  }

  /** The position of the first entry for `key`, or `|m|` when there is none. */
  function KeyIndex<V>(m: seq<Entry<V>>, key: string): (i: nat)
    ensures i <= |m|
    ensures i < |m| ==> m[i].key == key
    ensures forall j | 0 <= j < i :: m[j].key != key
  {
    if m == [] || m[0].key == key then 0
    else
      assert forall j | 1 <= j < |m| :: m[j] == m[1..][j - 1];
      1 + KeyIndex(m[1..], key)
  }

  /** `map.get(key)`, none for `null`. */
  function Lookup<V>(m: seq<Entry<V>>, key: string): Option<V> {
    var i := KeyIndex(m, key);
    if i < |m| then Some(m[i].value) else None
  }

  /** `map.putIfAbsent(key, value)`: a new key is appended, an existing one keeps its value. */
  function PutIfAbsent<V>(m: seq<Entry<V>>, key: string, value: V): seq<Entry<V>> {
    if Lookup(m, key).Some? then m else m + [Entry(key, value)]
  }

  /** `set.add(x)`: appended unless already present. */
  function Add(s: seq<string>, x: string): seq<string> {
    if x in s then s else s + [x]
  }

  /** A key is found exactly when some entry has it. */
  lemma LookupFound<V>(m: seq<Entry<V>>, key: string)
    ensures Lookup(m, key).Some? <==> key in Keys(m)
    ensures Lookup(m, key).Some? ==> Entry(key, Lookup(m, key).value) in m
  {
    if key in Keys(m) {
      var i :| 0 <= i < |m| && Keys(m)[i] == key;
    }
  }

  /** Looking a key up after appending an entry: an earlier entry wins. */
  lemma LookupAppend<V>(m: seq<Entry<V>>, e: Entry<V>, key: string)
    ensures Lookup(m + [e], key)
         == if Lookup(m, key).Some? then Lookup(m, key) else if e.key == key then Some(e.value) else None
  {
    var m' := m + [e];
    var i := KeyIndex(m, key);
    assert forall j | 0 <= j < |m| :: m'[j] == m[j];
    assert m'[|m|] == e;
  }

  /** Later lookups in an extended map agree on every key the original already had. */
  lemma {:induction false} LookupExtend<V>(m: seq<Entry<V>>, n: seq<Entry<V>>, key: string)
    requires Lookup(m, key).Some?
    ensures Lookup(m + n, key) == Lookup(m, key)
    decreases |n|
  {
    if n != [] {
      var init, last := n[..|n| - 1], n[|n| - 1];
      LookupExtend(m, init, key);
      assert n == init + [last];
      assert m + n == (m + init) + [last];
      LookupAppend(m + init, last, key);
    } else {
      assert m + n == m;
    }
  }

  /** `putIfAbsent` keeps entry keys distinct. */
  lemma PutIfAbsentKeepsDistinct<V>(m: seq<Entry<V>>, key: string, value: V)
    requires KeysDistinct(m)
    ensures KeysDistinct(PutIfAbsent(m, key, value))
  {
    LookupFound(m, key);
  }

  /** `add` keeps set elements distinct and makes `x` present. */
  lemma AddKeepsDistinct(s: seq<string>, x: string)
    requires Distinct(s)
    ensures Distinct(Add(s, x)) && x in Add(s, x)
  {
  }

  // ---------------------------------------------------------------------------
  // A run of putIfAbsent calls
  // ---------------------------------------------------------------------------

  /** `putIfAbsent` of each entry in turn. */
  function PutAll<V>(m: seq<Entry<V>>, entries: seq<Entry<V>>): seq<Entry<V>> {
    if entries == [] then m
    else
      var e := entries[|entries| - 1];
      PutIfAbsent(PutAll(m, entries[..|entries| - 1]), e.key, e.value)
  }

  /** Every entry of the result comes from the original map or from the entries put. */
  lemma {:induction false} PutAllEntriesFrom<V>(m: seq<Entry<V>>, entries: seq<Entry<V>>)
    ensures forall e | e in PutAll(m, entries) :: e in m || e in entries
    decreases |entries|
  {
    if entries != [] {
      PutAllEntriesFrom(m, entries[..|entries| - 1]);
      assert forall e | e in entries[..|entries| - 1] :: e in entries;
    }
  }

  /** Each element appended unless seen before: the elements in order of first appearance. */
  function FirstAppearances(seen: seq<string>, xs: seq<string>): seq<string> {
    if xs == [] then seen
    else Add(FirstAppearances(seen, xs[..|xs| - 1]), xs[|xs| - 1])
  }

  /**
   * First wins: after putting the entries into an empty map, each key maps to
   * the value of its first entry, and the keys are in order of first
   * appearance.
   */
  lemma {:induction false} PutAllFirstWins<V>(entries: seq<Entry<V>>)
    ensures forall key :: Lookup(PutAll([], entries), key) == Lookup(entries, key)
    ensures Keys(PutAll([], entries)) == FirstAppearances([], Keys(entries))
    decreases |entries|
  {
    if entries != [] {
      var init, e := entries[..|entries| - 1], entries[|entries| - 1];
      PutAllFirstWins(init);
      var before := PutAll([], init);
      assert entries == init + [e];
      forall key ensures Lookup(PutAll([], entries), key) == Lookup(entries, key) {
        LookupAppend(init, e, key);
        LookupAppend(before, e, key);
      }
      LookupFound(before, e.key);
      assert Keys(init) == Keys(entries)[..|init|];
      if Lookup(before, e.key).None? {
        assert Keys(before + [e]) == Keys(before) + [e.key];
      }
    }
  }

  /** First appearances are distinct, keep what was seen in front, and hold exactly the seen and new elements. */
  lemma {:induction false} FirstAppearancesSpec(seen: seq<string>, xs: seq<string>)
    requires Distinct(seen)
    ensures var r := FirstAppearances(seen, xs);
      && Distinct(r) && seen <= r
      && forall x :: x in r <==> x in seen || x in xs
    decreases |xs|
  {
    if xs != [] {
      var init := xs[..|xs| - 1];
      FirstAppearancesSpec(seen, init);
      assert xs == init + [xs[|xs| - 1]];
    }
  }

  /** Taking first appearances of a concatenation is taking them of each part in turn. */
  lemma {:induction false} FirstAppearancesAppend(seen: seq<string>, xs: seq<string>, ys: seq<string>)
    ensures FirstAppearances(seen, xs + ys) == FirstAppearances(FirstAppearances(seen, xs), ys)
    decreases |ys|
  {
    if ys == [] {
      assert xs + ys == xs;
    } else {
      var init := ys[..|ys| - 1];
      FirstAppearancesAppend(seen, xs, init);
      assert (xs + ys)[..|xs + ys| - 1] == xs + init;
    }
  }
}
