/**
  The archive track-splitter shared by both variants of the library: every
  archive member gets an integer track key from its name, the members are
  stably sorted by key, and their payloads are returned in that order. The
  variants differ only in how the key is read from the name.
*/
module Archive {
  import opened Results
  import opened Canonical
  import StableSort

  /** One member of the generated zip archive, already decompressed. */
  datatype Entry = Entry(name: string, content: Bytes)

  /** Every member name yields a number (none yields `NaN`). */
  predicate AllKeyed(entries: seq<Entry>, key: string -> Option<int>) {
    forall i :: 0 <= i < |entries| ==> key(entries[i].name).Some?
  }

  /** `[key(file.name), content]` for each member, in enumeration order. */
  function Keyed(entries: seq<Entry>, key: string -> Option<int>): (ks: seq<(int, Bytes)>)
    requires AllKeyed(entries, key)
    ensures |ks| == |entries|
    ensures forall i :: 0 <= i < |ks| ==> ks[i] == (key(entries[i].name).value, entries[i].content)
  {
    seq(|entries|, i requires 0 <= i < |entries| => (key(entries[i].name).value, entries[i].content))
  }

  /** The payloads in enumeration order. */
  function Contents(entries: seq<Entry>): (cs: seq<Bytes>)
    ensures |cs| == |entries|
    ensures forall i :: 0 <= i < |entries| ==> cs[i] == entries[i].content
  {
    seq(|entries|, i requires 0 <= i < |entries| => entries[i].content)
  }

  /**
    Sort the members by key and keep their payloads: one output per
    member, and the outputs are a permutation of the payloads.
  */
  function SplitByKey(entries: seq<Entry>, key: string -> Option<int>): (r: seq<Bytes>)
    requires AllKeyed(entries, key)
    ensures |r| == |entries|
    ensures multiset(r) == multiset(Contents(entries))
  {
    var ks := Keyed(entries, key);
    StableSort.SortValues(ks);
    assert StableSort.Values(ks) == Contents(entries) by {
      forall i | 0 <= i < |ks| {
        StableSort.ValuesAt(ks, i);
      }
    }
    StableSort.Values(StableSort.Sort(ks))
  }

  /**
    The output lists the payloads by non-decreasing key, and payloads whose
    keys are equal keep their enumeration order.
  */
  lemma SplitByKeyOrdered(entries: seq<Entry>, key: string -> Option<int>)
    requires AllKeyed(entries, key)
    ensures var sorted := StableSort.Sort(Keyed(entries, key));
            && SplitByKey(entries, key) == StableSort.Values(sorted)
            && StableSort.SortedByKey(sorted)
            && forall k :: StableSort.WithKey(sorted, k) == StableSort.WithKey(Keyed(entries, key), k)
  {
    forall k
      ensures StableSort.WithKey(StableSort.Sort(Keyed(entries, key)), k) == StableSort.WithKey(Keyed(entries, key), k)
    {
      StableSort.SortIsStable(Keyed(entries, key), k);
    }
  }

  /**
    When the keys are a permutation of 0, 1, …, n-1, the member with key i
    lands at position i, whatever the enumeration order.
  */
  lemma SplitByKeyInIndexOrder(entries: seq<Entry>, key: string -> Option<int>, index: seq<nat>)
    requires |index| == |entries|
    requires forall j :: 0 <= j < |entries| ==> key(entries[j].name) == Some(index[j])
    requires forall j :: 0 <= j < |index| ==> index[j] < |index|
    requires forall j, l :: 0 <= j < l < |index| ==> index[j] != index[l]
    ensures AllKeyed(entries, key)
    ensures forall j :: 0 <= j < |entries| ==> SplitByKey(entries, key)[index[j]] == entries[j].content
  {
    var ks := Keyed(entries, key);
    var sorted := StableSort.Sort(ks);
    StableSort.SortOfDistinctIsStrict(ks);
    forall p | 0 <= p < |sorted|
      ensures 0 <= sorted[p].0 < |sorted|
    {
      assert sorted[p] in multiset(ks);
      var j :| 0 <= j < |ks| && ks[j] == sorted[p];
    }
    StableSort.KeysOfStrictPermutation(sorted);
    forall j | 0 <= j < |entries|
      ensures SplitByKey(entries, key)[index[j]] == entries[j].content
    {
      assert ks[j] in multiset(sorted);
      var p :| 0 <= p < |sorted| && sorted[p] == ks[j];
      StableSort.ValuesAt(sorted, p);
    }
  }

  /**
    Two members come out in listed order when the first key is not larger,
    and swapped otherwise.
  */
  lemma SplitByKeyOfPair(first: Entry, second: Entry, key: string -> Option<int>)
    requires key(first.name).Some? && key(second.name).Some?
    ensures AllKeyed([first, second], key)
    ensures SplitByKey([first, second], key)
            == if key(first.name).value <= key(second.name).value
               then [first.content, second.content]
               else [second.content, first.content]
  {
    var a := (key(first.name).value, first.content);
    var b := (key(second.name).value, second.content);
    assert Keyed([first, second], key) == [a, b];
    StableSort.SortPair(a, b);
    StableSort.ValuesPair(a, b);
    StableSort.ValuesPair(b, a);
  }
}
