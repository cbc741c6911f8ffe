/** The merge at the end of the .pol reader (src/PolfileToInternal.cpp:200-222): what
    it keeps, what it joins, and when it changes nothing. */
module PolMerge {
  import opened Registry
  import opened PolFormat

  /** No two neighbours share a name. */
  predicate DistinctNeighbours(ks: seq<RegistryKey>) {
    forall i :: 0 <= i < |ks| - 1 ==> ks[i].Name != ks[i + 1].Name
  }

  /** The values of the keys, in order. */
  function AllValues(ks: seq<RegistryKey>): (vs: seq<RegistryValue>)
  {
    if ks == [] then [] else ks[0].Values + AllValues(ks[1..])
  }

  /** The subkeys of the keys, in order. */
  function AllSubkeys(ks: seq<RegistryKey>): (ss: seq<RegistryKey>)
  {
    if ks == [] then [] else ks[0].Subkeys + AllSubkeys(ks[1..])
  }

  lemma {:induction false} AllAppend(a: seq<RegistryKey>, b: seq<RegistryKey>)
    ensures AllValues(a + b) == AllValues(a) + AllValues(b)
    ensures AllSubkeys(a + b) == AllSubkeys(a) + AllSubkeys(b)
  {
    if a == [] {
      assert a + b == b;
    } else {
      assert (a + b)[0] == a[0] && (a + b)[1..] == a[1..] + b;
      AllAppend(a[1..], b);
    }
  }

  lemma AllOne(k: RegistryKey)
    ensures AllValues([k]) == k.Values && AllSubkeys([k]) == k.Subkeys
  {
    assert [k][1..] == [];
  }

  /** One step of the merge adds the next key's values and subkeys at the end. */
  lemma MergeStepContents(acc: seq<RegistryKey>, k: RegistryKey)
    requires acc != []
    ensures var last := acc[|acc| - 1];
      var acc' := if k.Name == last.Name then acc[..|acc| - 1] + [Absorb(last, k)] else acc + [k];
      AllValues(acc') == AllValues(acc) + k.Values && AllSubkeys(acc') == AllSubkeys(acc) + k.Subkeys
  {
    var n := |acc| - 1;
    var last := acc[n];
    assert acc == acc[..n] + [last];
    AllAppend(acc[..n], [last]);
    AllOne(last);
    if k.Name == last.Name {
      AllAppend(acc[..n], [Absorb(last, k)]);
      AllOne(Absorb(last, k));
    } else {
      AllAppend(acc, [k]);
      AllOne(k);
    }
  }

  /** The merge loses and reorders nothing: the values, and the subkeys, of the result
      are those of the keys read, in the order read. */
  lemma {:induction false} MergeIntoContents(acc: seq<RegistryKey>, ks: seq<RegistryKey>)
    requires acc != []
    ensures AllValues(MergeInto(acc, ks)) == AllValues(acc) + AllValues(ks)
    ensures AllSubkeys(MergeInto(acc, ks)) == AllSubkeys(acc) + AllSubkeys(ks)
    decreases |ks|
  {
    if ks != [] {
      var last := acc[|acc| - 1];
      var acc' := if ks[0].Name == last.Name then acc[..|acc| - 1] + [Absorb(last, ks[0])] else acc + [ks[0]];
      MergeStepContents(acc, ks[0]);
      MergeIntoContents(acc', ks[1..]);
      assert AllValues(acc) + ks[0].Values + AllValues(ks[1..]) == AllValues(acc) + AllValues(ks);
      assert AllSubkeys(acc) + ks[0].Subkeys + AllSubkeys(ks[1..]) == AllSubkeys(acc) + AllSubkeys(ks);
    }
  }

  /** The merge joins every run of neighbours that share a name. */
  lemma {:induction false} MergeIntoDistinct(acc: seq<RegistryKey>, ks: seq<RegistryKey>)
    requires acc != [] && DistinctNeighbours(acc)
    ensures DistinctNeighbours(MergeInto(acc, ks))
    decreases |ks|
  {
    if ks != [] {
      var n := |acc| - 1;
      var last := acc[n];
      if ks[0].Name == last.Name {
        var acc' := acc[..n] + [Absorb(last, ks[0])];
        assert forall i :: 0 <= i < |acc'| ==> acc'[i].Name == acc[i].Name;
        MergeIntoDistinct(acc', ks[1..]);
      } else {
        MergeIntoDistinct(acc + [ks[0]], ks[1..]);
      }
    }
  }

  /** Keys whose neighbours all have different names are left as they are. */
  lemma {:induction false} MergeIntoIdentity(acc: seq<RegistryKey>, ks: seq<RegistryKey>)
    requires acc != [] && DistinctNeighbours(acc + ks)
    ensures MergeInto(acc, ks) == acc + ks
    decreases |ks|
  {
    if ks != [] {
      var n := |acc| - 1;
      assert (acc + ks)[n] == acc[n] && (acc + ks)[n + 1] == ks[0];
      assert acc + [ks[0]] + ks[1..] == acc + ks;
      MergeIntoIdentity(acc + [ks[0]], ks[1..]);
    } else {
      assert acc + ks == acc;
    }
  }

  /** Merging a concatenation is merging its parts one after the other. */
  lemma {:induction false} MergeIntoAppend(acc: seq<RegistryKey>, a: seq<RegistryKey>, b: seq<RegistryKey>)
    requires acc != []
    ensures MergeInto(acc, a + b) == MergeInto(MergeInto(acc, a), b)
    decreases |a|
  {
    if a == [] {
      assert a + b == b;
    } else {
      assert (a + b)[0] == a[0] && (a + b)[1..] == a[1..] + b;
      var last := acc[|acc| - 1];
      var acc' := if a[0].Name == last.Name then acc[..|acc| - 1] + [Absorb(last, a[0])] else acc + [a[0]];
      MergeIntoAppend(acc', a[1..], b);
    }
  }

  /** How many keys at the front of `ks` share the first key's name. */
  function RunLength(ks: seq<RegistryKey>): (r: nat)
    requires ks != []
    ensures 1 <= r <= |ks|
    ensures forall i :: 0 <= i < r ==> ks[i].Name == ks[0].Name
    ensures r < |ks| ==> ks[r].Name != ks[0].Name
    decreases |ks|
  {
    if |ks| == 1 || ks[1].Name != ks[0].Name then 1
    else
      var r := 1 + RunLength(ks[1..]);
      assert forall i :: 1 <= i < r ==> ks[i] == ks[1..][i - 1];
      r
  }

  /** The merge stated without its loop: one key per run of neighbours sharing a
      name, holding the subkeys and the values of that run, in order. */
  function Grouped(ks: seq<RegistryKey>): (g: seq<RegistryKey>)
    decreases |ks|
  {
    if ks == [] then []
    else
      var r := RunLength(ks);
      [RegistryKey(ks[0].Name, AllSubkeys(ks[..r]), AllValues(ks[..r]))] + Grouped(ks[r..])
  }

  /** A run named like the last key so far is absorbed by that key. */
  lemma {:induction false} MergeIntoRun(acc: seq<RegistryKey>, run: seq<RegistryKey>)
    requires acc != [] && forall i :: 0 <= i < |run| ==> run[i].Name == acc[|acc| - 1].Name
    ensures var last := acc[|acc| - 1];
      MergeInto(acc, run)
      == acc[..|acc| - 1] + [RegistryKey(last.Name, last.Subkeys + AllSubkeys(run), last.Values + AllValues(run))]
    decreases |run|
  {
    var n := |acc| - 1;
    var last := acc[n];
    if run == [] {
      assert AllSubkeys(run) == [] && AllValues(run) == [];
      assert last.Subkeys + [] == last.Subkeys && last.Values + [] == last.Values;
      assert RegistryKey(last.Name, last.Subkeys, last.Values) == last;
      assert acc == acc[..n] + [last];
    } else {
      var acc' := acc[..n] + [Absorb(last, run[0])];
      assert acc'[..n] == acc[..n] && acc'[n] == Absorb(last, run[0]);
      MergeIntoRun(acc', run[1..]);
      assert last.Subkeys + run[0].Subkeys + AllSubkeys(run[1..]) == last.Subkeys + AllSubkeys(run);
      assert last.Values + run[0].Values + AllValues(run[1..]) == last.Values + AllValues(run);
    }
  }

  /** A run of keys that all share a name merges into one key holding all they hold. */
  lemma MergeRun(run: seq<RegistryKey>)
    requires run != [] && forall i :: 0 <= i < |run| ==> run[i].Name == run[0].Name
    ensures Merge(run) == [RegistryKey(run[0].Name, AllSubkeys(run), AllValues(run))]
  {
    MergeIntoRun([run[0]], run[1..]);
  }

  /** The merge only ever touches the last key of what it has so far. */
  lemma {:induction false} MergeIntoFrame(pre: seq<RegistryKey>, m: seq<RegistryKey>, ks: seq<RegistryKey>)
    requires m != []
    ensures MergeInto(pre + m, ks) == pre + MergeInto(m, ks)
    decreases |ks|
  {
    if ks != [] {
      var n := |m| - 1;
      var last := m[n];
      assert (pre + m)[|pre + m| - 1] == last;
      if ks[0].Name == last.Name {
        var m' := m[..n] + [Absorb(last, ks[0])];
        assert (pre + m)[..|pre + m| - 1] + [Absorb(last, ks[0])] == pre + m';
        MergeIntoFrame(pre, m', ks[1..]);
      } else {
        assert (pre + m) + [ks[0]] == pre + (m + [ks[0]]);
        MergeIntoFrame(pre, m + [ks[0]], ks[1..]);
      }
    }
  }

  /** The last merged key is named like the last key read. */
  lemma {:induction false} MergeIntoLast(acc: seq<RegistryKey>, ks: seq<RegistryKey>)
    requires acc != []
    ensures var m := MergeInto(acc, ks);
      m[|m| - 1].Name == if ks == [] then acc[|acc| - 1].Name else ks[|ks| - 1].Name
    decreases |ks|
  {
    if ks != [] {
      var last := acc[|acc| - 1];
      var acc' := if ks[0].Name == last.Name then acc[..|acc| - 1] + [Absorb(last, ks[0])] else acc + [ks[0]];
      assert acc'[|acc'| - 1].Name == ks[0].Name;
      MergeIntoLast(acc', ks[1..]);
      if ks[1..] != [] {
        assert ks[1..][|ks[1..]| - 1] == ks[|ks| - 1];
      }
    }
  }

  /** Two lists whose meeting neighbours differ in name merge separately. */
  lemma MergeSplit(a: seq<RegistryKey>, b: seq<RegistryKey>)
    requires a != [] && b != [] && a[|a| - 1].Name != b[0].Name
    ensures Merge(a + b) == Merge(a) + Merge(b)
  {
    assert (a + b)[0] == a[0] && (a + b)[1..] == a[1..] + b;
    MergeIntoAppend([a[0]], a[1..], b);
    var m := Merge(a);
    MergeIntoLast([a[0]], a[1..]);
    MergeIntoFrame(m, [b[0]], b[1..]);
  }

  /** The merge loop computes the grouping into runs. */
  lemma {:induction false} MergeIsGrouped(ks: seq<RegistryKey>)
    ensures Merge(ks) == Grouped(ks)
    decreases |ks|
  {
    if ks != [] {
      var r := RunLength(ks);
      var run := ks[..r];
      MergeRun(run);
      if r == |ks| {
        assert run == ks;
      } else {
        assert ks == run + ks[r..];
        MergeSplit(run, ks[r..]);
        MergeIsGrouped(ks[r..]);
      }
    }
  }

  /** Merge, the entry point: all values and subkeys kept in order, no neighbours
      with the same name, nothing changed when there are none already, and one key
      per run of neighbours sharing a name. */
  lemma MergeProperties(ks: seq<RegistryKey>)
    ensures AllValues(Merge(ks)) == AllValues(ks) && AllSubkeys(Merge(ks)) == AllSubkeys(ks)
    ensures DistinctNeighbours(Merge(ks))
    ensures |Merge(ks)| <= |ks|
    ensures DistinctNeighbours(ks) ==> Merge(ks) == ks
    ensures Merge(ks) == Grouped(ks)
  {
    MergeIsGrouped(ks);
    if ks != [] {
      AllOne(ks[0]);
      MergeIntoContents([ks[0]], ks[1..]);
      MergeIntoDistinct([ks[0]], ks[1..]);
      assert [ks[0]] + ks[1..] == ks;
      AllAppend([ks[0]], ks[1..]);
      if DistinctNeighbours(ks) {
        MergeIntoIdentity([ks[0]], ks[1..]);
      }
    }
  }
}
