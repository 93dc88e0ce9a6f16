/** The context augmenter, `add_feature_context` with `get_new_attributes`:
    sequence-boundary markers on the first and last token, then features
    copied from the neighbours, all computed before any is appended. */
module FeatureContext {
  import opened TokenFeatures

  const AddressStart := Feature("address.start", 1)
  const AddressEnd := Feature("address.end", 1)
  const PreviousAddressStart := Feature("previous_address.start", 1)
  const NextAddressEnd := Feature("next_address.end", 1)

  /** `get_new_attributes`: every feature renamed `<prefix>_<name>`, weight
      kept. */
  function NewAttributes(fs: seq<Feature>, prefix: string): (r: seq<Feature>)
    ensures |r| == |fs|
    ensures forall i :: 0 <= i < |fs| ==> r[i] == Feature(prefix + "_" + fs[i].name, fs[i].weight)
  {
    if fs == [] then []
    else [Feature(prefix + "_" + fs[0].name, fs[0].weight)] + NewAttributes(fs[1..], prefix)
  }

  /** Renaming distributes over concatenation. */
  lemma NewAttributesAppend(a: seq<Feature>, b: seq<Feature>, prefix: string)
    ensures NewAttributes(a + b, prefix) == NewAttributes(a, prefix) + NewAttributes(b, prefix)
  {
  }

  /** The inverse of renaming: drop `<prefix>_` from every name. */
  function StripPrefix(fs: seq<Feature>, prefix: string): seq<Feature>
  {
    if fs == [] then []
    else
      var n := fs[0].name;
      [Feature(if |n| > |prefix| then n[|prefix| + 1..] else n, fs[0].weight)] + StripPrefix(fs[1..], prefix)
  }

  /** Renaming loses nothing: count, order, names and weights come back. */
  lemma {:induction false} NewAttributesRoundTrip(fs: seq<Feature>, prefix: string)
    ensures StripPrefix(NewAttributes(fs, prefix), prefix) == fs
  {
    if fs != [] {
      var r := NewAttributes(fs, prefix);
      assert r[1..] == NewAttributes(fs[1..], prefix);
      NewAttributesRoundTrip(fs[1..], prefix);
      assert (prefix + "_" + fs[0].name)[|prefix| + 1..] == fs[0].name;
    }
  }

  /** Step 1: `address.start` appended to the first set, then `address.end`
      to the last (the same set when there is only one). */
  function WithBoundaryMarkers(sets: seq<seq<Feature>>): seq<seq<Feature>>
  {
    if sets == [] then []
    else
      var first := sets[0 := sets[0] + [AddressStart]];
      first[|first| - 1 := first[|first| - 1] + [AddressEnd]]
  }

  /** What position `i` receives from its neighbours, read from the marked
      sets: the first matching branch of the source's if-chain. */
  function NeighbourFeatures(marked: seq<seq<Feature>>, i: nat): seq<Feature>
    requires 2 <= |marked| && i < |marked|
  {
    var n := |marked|;
    if i == 0 then NewAttributes(marked[i + 1], "next")
    else if i == 1 then [PreviousAddressStart]
    else if i == n - 2 then [NextAddressEnd]
    else if i == n - 1 then NewAttributes(marked[i - 1], "previous")
    else NewAttributes(marked[i + 1], "next") + NewAttributes(marked[i - 1], "previous")
  }

  /** The augmented feature sets. */
  function Augmented(sets: seq<seq<Feature>>): seq<seq<Feature>>
  {
    var marked := WithBoundaryMarkers(sets);
    if |marked| <= 1 then marked
    else seq(|marked|, i requires 0 <= i < |marked| => marked[i] + NeighbourFeatures(marked, i))
  }

  /** `add_feature_context`: the vector is updated in place, first with the
      markers, then (unless it has one set) with the neighbour features,
      which are all collected before any is appended. */
  method AddFeatureContext(input: seq<seq<Feature>>) returns (features: seq<seq<Feature>>)
    ensures features == Augmented(input)
  {
    features := input;
    if |features| > 0 {
      features := features[0 := features[0] + [AddressStart]];
      var last := |features| - 1;
      features := features[last := features[last] + [AddressEnd]];
    }
    assert features == WithBoundaryMarkers(input);

    var nFeatures := |features|;
    if nFeatures == 1 {
      return;
    }

    var newAttributes: seq<seq<Feature>> := [];
    var idx := 0;
    while idx < nFeatures
      invariant 0 <= idx <= nFeatures
      invariant |newAttributes| == idx
      invariant forall k :: 0 <= k < idx ==> newAttributes[k] == NeighbourFeatures(features, k)
    {
      var currentAttrs: seq<Feature> := [];
      if idx == 0 {
        currentAttrs := currentAttrs + NewAttributes(features[idx + 1], "next");
      } else if idx == 1 {
        currentAttrs := currentAttrs + [PreviousAddressStart];
      } else if idx == nFeatures - 2 {
        currentAttrs := currentAttrs + [NextAddressEnd];
      } else if idx == nFeatures - 1 {
        currentAttrs := currentAttrs + NewAttributes(features[idx - 1], "previous");
      } else {
        currentAttrs := currentAttrs + NewAttributes(features[idx + 1], "next");
        currentAttrs := currentAttrs + NewAttributes(features[idx - 1], "previous");
      }
      newAttributes := newAttributes + [currentAttrs];
      idx := idx + 1;
    }

    ghost var marked := features;
    idx := 0;
    while idx < nFeatures
      invariant 0 <= idx <= nFeatures == |features|
      invariant forall k :: 0 <= k < idx ==> features[k] == marked[k] + newAttributes[k]
      invariant forall k :: idx <= k < nFeatures ==> features[k] == marked[k]
    {
      features := features[idx := features[idx] + newAttributes[idx]];
      idx := idx + 1;
    }
  }

  lemma MarkersOnly(sets: seq<seq<Feature>>)
    ensures |WithBoundaryMarkers(sets)| == |sets|
    ensures forall i :: 0 <= i < |sets| ==> (WithBoundaryMarkers(sets)[i] ==
      sets[i] + (if i == 0 then [AddressStart] else []) + (if i == |sets| - 1 then [AddressEnd] else []))
  {
  }

  /** Augmentation keeps the number of sets and only appends: every input set
      is a prefix of its output set. */
  lemma AugmentOnlyAppends(sets: seq<seq<Feature>>)
    ensures |Augmented(sets)| == |sets|
    ensures forall i :: 0 <= i < |sets| ==> sets[i] <= Augmented(sets)[i]
  {
    MarkersOnly(sets);
  }

  /** No sets: nothing happens. One set: it gains `address.start` and then
      `address.end`, and no neighbour feature. */
  lemma AugmentShortSequences(sets: seq<seq<Feature>>)
    ensures sets == [] ==> Augmented(sets) == []
    ensures |sets| == 1 ==> Augmented(sets) == [sets[0] + [AddressStart, AddressEnd]]
  {
    if |sets| == 1 {
      MarkersOnly(sets);
      assert sets[0] + [AddressStart] + [AddressEnd] == sets[0] + [AddressStart, AddressEnd];
    }
  }

  /** Position `i` of the augmented sets: its marked set followed by what
      its neighbours give it. */
  lemma AugmentedIs(sets: seq<seq<Feature>>, i: nat)
    requires 2 <= |sets| && i < |sets|
    ensures |WithBoundaryMarkers(sets)| == |sets|
    ensures Augmented(sets)[i] == WithBoundaryMarkers(sets)[i] + NeighbourFeatures(WithBoundaryMarkers(sets), i)
  {
    MarkersOnly(sets);
  }

  lemma AugmentedFirst(sets: seq<seq<Feature>>)
    requires 2 <= |sets|
    ensures Augmented(sets)[0] ==
      sets[0] + [AddressStart] + NewAttributes(sets[1] + (if |sets| == 2 then [AddressEnd] else []), "next")
  {
    var marked := WithBoundaryMarkers(sets);
    AugmentedIs(sets, 0);
    assert marked[0] == sets[0] + [AddressStart];
    assert marked[1] == sets[1] + (if |sets| == 2 then [AddressEnd] else []);
  }

  lemma AugmentedSecond(sets: seq<seq<Feature>>)
    requires 2 <= |sets|
    ensures Augmented(sets)[1] == sets[1] + (if |sets| == 2 then [AddressEnd] else []) + [PreviousAddressStart]
  {
    var marked := WithBoundaryMarkers(sets);
    AugmentedIs(sets, 1);
    assert marked[1] == sets[1] + (if |sets| == 2 then [AddressEnd] else []);
  }

  lemma AugmentedBeforeLast(sets: seq<seq<Feature>>, i: nat)
    requires 1 < i && i == |sets| - 2
    ensures Augmented(sets)[i] == sets[i] + [NextAddressEnd]
  {
    var marked := WithBoundaryMarkers(sets);
    AugmentedIs(sets, i);
    assert marked[i] == sets[i];
  }

  lemma AugmentedLast(sets: seq<seq<Feature>>, i: nat)
    requires 1 < i && i == |sets| - 1
    ensures Augmented(sets)[i] == sets[i] + [AddressEnd] + NewAttributes(sets[i - 1], "previous")
  {
    var marked := WithBoundaryMarkers(sets);
    AugmentedIs(sets, i);
    assert marked[i] == sets[i] + [AddressEnd];
    assert marked[i - 1] == sets[i - 1];
  }

  lemma AugmentedInterior(sets: seq<seq<Feature>>, i: nat)
    requires 1 < i < |sets| - 2
    ensures Augmented(sets)[i] ==
      sets[i] + NewAttributes(sets[i + 1], "next") + NewAttributes(sets[i - 1], "previous")
  {
    var marked := WithBoundaryMarkers(sets);
    AugmentedIs(sets, i);
    assert NeighbourFeatures(marked, i) ==
      NewAttributes(marked[i + 1], "next") + NewAttributes(marked[i - 1], "previous");
    assert marked[i] == sets[i];
    assert marked[i - 1] == sets[i - 1];
    assert marked[i + 1] == sets[i + 1];
  }

  /** Two or more sets, position by position, in terms of the input sets. The
      neighbour copies read the sets after the markers (so with two sets the
      first one gets `next_address.end`) and before any neighbour feature. */
  lemma AugmentedAt(sets: seq<seq<Feature>>, i: nat)
    requires 2 <= |sets| && i < |sets|
    ensures var n := |sets|; var r := Augmented(sets);
      && (i == 0 ==>
            r[0] == sets[0] + [AddressStart] + NewAttributes(sets[1] + (if n == 2 then [AddressEnd] else []), "next"))
      && (i == 1 ==> r[1] == sets[1] + (if n == 2 then [AddressEnd] else []) + [PreviousAddressStart])
      && (1 < i && i == n - 2 ==> r[i] == sets[i] + [NextAddressEnd])
      && (1 < i && i == n - 1 ==> r[i] == sets[i] + [AddressEnd] + NewAttributes(sets[i - 1], "previous"))
      && (1 < i < n - 2 ==>
            r[i] == sets[i] + NewAttributes(sets[i + 1], "next") + NewAttributes(sets[i - 1], "previous"))
  {
    var n := |sets|;
    if i == 0 {
      AugmentedFirst(sets);
    } else if i == 1 {
      AugmentedSecond(sets);
    } else if i == n - 2 {
      AugmentedBeforeLast(sets, i);
    } else if i == n - 1 {
      AugmentedLast(sets, i);
    } else {
      AugmentedInterior(sets, i);
    }
  }

  /** How many features of the set carry the given name. */
  function Occurrences(fs: seq<Feature>, name: string): nat
  {
    if fs == [] then 0 else (if fs[0].name == name then 1 else 0) + Occurrences(fs[1..], name)
  }

  lemma {:induction false} OccurrencesAppend(a: seq<Feature>, b: seq<Feature>, name: string)
    ensures Occurrences(a + b, name) == Occurrences(a, name) + Occurrences(b, name)
  {
    if a == [] {
      assert a + b == b;
    } else {
      assert (a + b)[1..] == a[1..] + b;
      OccurrencesAppend(a[1..], b, name);
    }
  }

  lemma {:induction false} OccurrencesAbsent(fs: seq<Feature>, name: string)
    requires forall f :: f in fs ==> f.name != name
    ensures Occurrences(fs, name) == 0
  {
    if fs != [] {
      OccurrencesAbsent(fs[1..], name);
    }
  }

  /** Renamed copies never carry a boundary-marker name. */
  lemma RenamedNotBoundary(fs: seq<Feature>, prefix: string)
    requires prefix == "next" || prefix == "previous"
    ensures forall f :: f in NewAttributes(fs, prefix) ==> NotBoundary(f.name)
  {
    forall f | f in NewAttributes(fs, prefix) ensures NotBoundary(f.name) {
      var k :| 0 <= k < |fs| && NewAttributes(fs, prefix)[k] == f;
      assert f.name[0] == prefix[0];
      assert "address.start"[0] == 'a' && "address.end"[0] == 'a';
    }
  }

  /** The two marker names differ. */
  lemma MarkerNamesDiffer()
    ensures Occurrences([AddressEnd], "address.start") == 0
    ensures Occurrences([AddressStart], "address.end") == 0
  {
    assert |"address.end"| != |"address.start"|;
  }

  /** After the markers step, a marker-free set holds `address.start` once
      if it is first and `address.end` once if it is last. */
  lemma MarkedOccurrences(sets: seq<seq<Feature>>, i: nat)
    requires i < |sets|
    requires forall f :: f in sets[i] ==> NotBoundary(f.name)
    ensures |WithBoundaryMarkers(sets)| == |sets|
    ensures Occurrences(WithBoundaryMarkers(sets)[i], "address.start") == if i == 0 then 1 else 0
    ensures Occurrences(WithBoundaryMarkers(sets)[i], "address.end") == if i == |sets| - 1 then 1 else 0
  {
    MarkersOnly(sets);
    MarkerNamesDiffer();
    OccurrencesAbsent(sets[i], "address.start");
    OccurrencesAbsent(sets[i], "address.end");
    var head := (if i == 0 then [AddressStart] else []);
    var tail := (if i == |sets| - 1 then [AddressEnd] else []);
    OccurrencesAppend(sets[i], head, "address.start");
    OccurrencesAppend(sets[i] + head, tail, "address.start");
    OccurrencesAppend(sets[i], head, "address.end");
    OccurrencesAppend(sets[i] + head, tail, "address.end");
  }

  /** What a position receives from its neighbours never carries a marker
      name. */
  lemma NeighbourNotBoundary(marked: seq<seq<Feature>>, i: nat)
    requires 2 <= |marked| && i < |marked|
    ensures forall f :: f in NeighbourFeatures(marked, i) ==> NotBoundary(f.name)
  {
    var n := |marked|;
    if i == 0 {
      RenamedNotBoundary(marked[1], "next");
    } else if i == 1 {
      assert "previous_address.start"[0] == 'p';
    } else if i == n - 2 {
      assert "next_address.end"[0] == 'n';
    } else if i == n - 1 {
      RenamedNotBoundary(marked[i - 1], "previous");
    } else {
      RenamedNotBoundary(marked[i + 1], "next");
      RenamedNotBoundary(marked[i - 1], "previous");
    }
  }

  /** When the base sets hold no marker, the augmented sets hold
      `address.start` exactly once, in the first set, and `address.end`
      exactly once, in the last. */
  lemma BoundaryMarkersOnce(sets: seq<seq<Feature>>, i: nat)
    requires forall j, f :: 0 <= j < |sets| && f in sets[j] ==> NotBoundary(f.name)
    requires i < |sets|
    ensures Occurrences(Augmented(sets)[i], "address.start") == if i == 0 then 1 else 0
    ensures Occurrences(Augmented(sets)[i], "address.end") == if i == |sets| - 1 then 1 else 0
  {
    var marked := WithBoundaryMarkers(sets);
    MarkedOccurrences(sets, i);
    if 2 <= |sets| {
      var extra := NeighbourFeatures(marked, i);
      AugmentedIs(sets, i);
      NeighbourNotBoundary(marked, i);
      OccurrencesAbsent(extra, "address.start");
      OccurrencesAbsent(extra, "address.end");
      OccurrencesAppend(marked[i], extra, "address.start");
      OccurrencesAppend(marked[i], extra, "address.end");
    } else {
      assert Augmented(sets) == marked;
    }
  }

  predicate BinaryWeights(fs: seq<Feature>)
  {
    forall f :: f in fs ==> f.weight == 0 || f.weight == 1
  }

  /** For marker-free sets with 0/1 weights: each set is extended, the
      start marker sits once in the first set only and the end marker once in
      the last set only, and every weight stays 0 or 1. */
  lemma AugmentedShape(sets: seq<seq<Feature>>)
    requires forall j, f :: 0 <= j < |sets| && f in sets[j] ==> NotBoundary(f.name)
    requires forall j :: 0 <= j < |sets| ==> BinaryWeights(sets[j])
    ensures var xs := Augmented(sets);
      && |xs| == |sets|
      && (forall i :: 0 <= i < |sets| ==> sets[i] <= xs[i])
      && (forall i :: 0 <= i < |sets| ==>
            && Occurrences(xs[i], "address.start") == (if i == 0 then 1 else 0)
            && Occurrences(xs[i], "address.end") == (if i == |sets| - 1 then 1 else 0))
      && (forall i :: 0 <= i < |sets| ==> BinaryWeights(xs[i]))
  {
    AugmentOnlyAppends(sets);
    forall i | 0 <= i < |sets|
      ensures Occurrences(Augmented(sets)[i], "address.start") == (if i == 0 then 1 else 0)
      ensures Occurrences(Augmented(sets)[i], "address.end") == (if i == |sets| - 1 then 1 else 0)
    {
      BoundaryMarkersOnce(sets, i);
    }
    AugmentKeepsBinaryWeights(sets);
  }

  /** Every weight stays 0 or 1: markers weigh 1 and copies keep the weight
      of what they copy. */
  lemma AugmentKeepsBinaryWeights(sets: seq<seq<Feature>>)
    requires forall j :: 0 <= j < |sets| ==> BinaryWeights(sets[j])
    ensures forall j :: 0 <= j < |Augmented(sets)| ==> BinaryWeights(Augmented(sets)[j])
  {
    var marked := WithBoundaryMarkers(sets);
    MarkersOnly(sets);
    assert forall j :: 0 <= j < |marked| ==> BinaryWeights(marked[j]);
    if |marked| >= 2 {
      forall j | 0 <= j < |marked| ensures BinaryWeights(marked[j] + NeighbourFeatures(marked, j)) {
        var extra := NeighbourFeatures(marked, j);
        assert BinaryWeights(extra);
      }
    }
  }
}
