/** What one pass of the reconciler guarantees: the shape of the handles it
    adds, which handles it drops, how it orders and places what is left, and
    that a second pass on its own output changes nothing. */
module ReconcilerFacts {
  import opened Common
  import opened Types
  import opened Reconciler

  // ---------------------------------------------------------------------
  // The add loop

  /** Every handle the add loop appends is a fresh target/left handle created
      by the reconciler, labelled with a reference that no earlier handle
      carried, with the id `${len + 1}-output` for the length `len` the list
      had just before. */
  lemma {:induction false} AddMissingAdded(hs: seq<Handle>, ms: seq<string>)
    ensures forall j :: |hs| <= j < |AddMissing(hs, ms)| ==>
      AddMissing(hs, ms)[j].caption.Some? &&
      AddMissing(hs, ms)[j] == NewHandle(j, AddMissing(hs, ms)[j].caption.value) &&
      AddMissing(hs, ms)[j].caption.value in ms &&
      !HasLabel(AddMissing(hs, ms)[..j], AddMissing(hs, ms)[j].caption.value)
    decreases |ms|
  {
    if ms != [] {
      var init := ms[..|ms| - 1];
      var before := AddMissing(hs, init);
      var r := AddMissing(hs, ms);
      var last := ms[|ms| - 1];
      AddMissingAdded(hs, init);
      assert r == AddStep(before, last);
      forall j | |hs| <= j < |r|
        ensures r[j].caption.Some? && r[j] == NewHandle(j, r[j].caption.value)
        ensures r[j].caption.value in ms && !HasLabel(r[..j], r[j].caption.value)
      {
        if j < |before| {
          assert r[..j] == before[..j] && r[j] == before[j];
          assert before[j].caption.value in init;
          assert forall m :: m in init ==> m in ms;
        } else {
          assert j == |before| && r[..j] == before && r[j] == NewHandle(j, last);
        }
      }
    }
  }

  /** After the add loop every reference labels some handle. */
  lemma {:induction false} AddMissingCovers(hs: seq<Handle>, ms: seq<string>)
    ensures forall m :: m in ms ==> HasLabel(AddMissing(hs, ms), m)
    decreases |ms|
  {
    if ms != [] {
      var init := ms[..|ms| - 1];
      var last := ms[|ms| - 1];
      var before := AddMissing(hs, init);
      var r := AddMissing(hs, ms);
      AddMissingCovers(hs, init);
      assert r == AddStep(before, last);
      forall m | m in ms ensures HasLabel(r, m) {
        if m == last {
          if !HasLabel(before, last) {
            assert r[|before|].caption == Some(last);
          }
        } else {
          assert m in init;
          var i :| 0 <= i < |before| && before[i].caption == Some(m);
          assert r[i] == before[i];
        }
      }
    }
  }

  /** When every reference already labels a handle, the add loop adds nothing. */
  lemma {:induction false} AddMissingNoop(hs: seq<Handle>, ms: seq<string>)
    requires forall m :: m in ms ==> HasLabel(hs, m)
    ensures AddMissing(hs, ms) == hs
    decreases |ms|
  {
    if ms != [] {
      var init := ms[..|ms| - 1];
      assert forall m :: m in init ==> m in ms;
      AddMissingNoop(hs, init);
      assert ms[|ms| - 1] in ms;
    }
  }

  /** Distinct numbers give distinct `${n}-output` ids. */
  lemma OutputIdInjective(a: nat, b: nat)
    requires OutputId(a) == OutputId(b)
    ensures a == b
  {
    var sa, sb := NatToString(a), NatToString(b);
    assert |sa| == |sb|;
    assert sa == OutputId(a)[..|sa|];
    assert sb == OutputId(b)[..|sb|];
    NatToStringInjective(a, b);
  }

  /** The handles one pass adds have pairwise distinct ids. */
  lemma AddedIdsDistinct(hs: seq<Handle>, ms: seq<string>)
    ensures forall i, j :: |hs| <= i < j < |AddMissing(hs, ms)| ==>
      AddMissing(hs, ms)[i].id != AddMissing(hs, ms)[j].id
  {
    var r := AddMissing(hs, ms);
    AddMissingAdded(hs, ms);
    forall i, j | |hs| <= i < j < |r| ensures r[i].id != r[j].id {
      if r[i].id == r[j].id {
        OutputIdInjective(i + 1, j + 1);
      }
    }
  }

  /** No two handles carry the same label. */
  predicate LabelsDiffer(a: Handle, b: Handle) {
    a.caption.None? || a.caption != b.caption
  }

  predicate LabelsUnique(hs: seq<Handle>) {
    Pairwise(hs, LabelsDiffer)
  }

  /** The add loop keeps labels unique, so when they were unique before it,
      every reference labels exactly one handle after it: repeated references
      collapse to one handle. */
  lemma AddMissingLabelsUnique(hs: seq<Handle>, ms: seq<string>)
    requires LabelsUnique(hs)
    ensures LabelsUnique(AddMissing(hs, ms))
    ensures forall m :: m in ms ==> HasLabel(AddMissing(hs, ms), m)
  {
    var r := AddMissing(hs, ms);
    AddMissingAdded(hs, ms);
    AddMissingCovers(hs, ms);
    forall i, j | 0 <= i < j < |r| ensures LabelsDiffer(r[i], r[j]) {
      if j < |hs| {
        assert r[i] == hs[i] && r[j] == hs[j];
      }
    }
  }

  // ---------------------------------------------------------------------
  // The filter

  /** The filter drops exactly the handles that were created by the
      reconciler, carry a non-empty label, and whose label is no longer
      referenced. Static handles and handles labelled "" always stay. */
  lemma PruneExactly(hs: seq<Handle>, ms: seq<string>)
    ensures forall h :: h in Prune(hs, ms) <==>
      h in hs && !(h.customNode && h.caption.Some? && h.caption.value != "" && h.caption.value !in ms)
    ensures forall h :: h in hs && !h.customNode ==> h in Prune(hs, ms)
    ensures forall h :: h in hs && h.caption == Some("") ==> h in Prune(hs, ms)
  {
    PruneMembers(hs, ms);
  }

  // ---------------------------------------------------------------------
  // Layout

  /** The offset law: the i-th of k handles sits at `h·i/(k+1)`, strictly
      below the next one, and strictly inside the container. */
  lemma OffsetLaw(h: real, i: nat, k: nat)
    requires h > 0.0
    requires 1 <= i <= k
    ensures Offset(h, i, k) == h * i as real / (k + 1) as real
    ensures 0.0 < Offset(h, i, k) < h
    ensures i < k ==> Offset(h, i, k) < Offset(h, i + 1, k)
  {
    var sp := h / (k + 1) as real;
    assert sp > 0.0;
    assert sp * (k + 1) as real == h;
    assert sp * i as real < sp * (k + 1) as real;
    assert sp * i as real < sp * (i + 1) as real;
  }

  /** The i-th (0-based) of the k handles of a side is placed at
      `h·(i+1)/(k+1)`, strictly inside the container. */
  lemma LaidAt(side: seq<Handle>, h: real, i: nat)
    requires h > 0.0 && i < |side|
    ensures Laid(side, h)[i] == side[i].(style := TopPx(h * (i + 1) as real / (|side| + 1) as real))
    ensures 0.0 < Laid(side, h)[i].style.px < h
  {
    assert Laid(side, h)[i] == side[i].(style := TopPx(Offset(h, i + 1, |side|)));
    OffsetLaw(h, i + 1, |side|);
    assert Offset(h, i + 1, |side|) == h * (i + 1) as real / (|side| + 1) as real;
  }

  /** Placing one side changes only the style of each handle: the i-th
      (1-based) of k handles gets `top` = `h·i/(k+1)`. */
  lemma LaidPlaces(side: seq<Handle>, h: real)
    requires h > 0.0
    ensures |Laid(side, h)| == |side|
    ensures forall i :: 0 <= i < |side| ==>
      Laid(side, h)[i] == side[i].(style := TopPx(h * (i + 1) as real / (|side| + 1) as real))
    ensures forall i :: 0 <= i < |side| ==>
      0.0 < Laid(side, h)[i].style.px < h
    ensures forall i, j :: 0 <= i < j < |side| ==>
      Laid(side, h)[i].style.px < Laid(side, h)[j].style.px
  {
    forall i | 0 <= i < |side|
      ensures Laid(side, h)[i] == side[i].(style := TopPx(h * (i + 1) as real / (|side| + 1) as real))
      ensures 0.0 < Laid(side, h)[i].style.px < h
    {
      LaidAt(side, h, i);
    }
    forall i, j | 0 <= i < j < |side| ensures Laid(side, h)[i].style.px < Laid(side, h)[j].style.px {
      OffsetIncreasing(h, i + 1, j + 1, |side|);
    }
  }

  lemma {:induction false} OffsetIncreasing(h: real, i: nat, j: nat, k: nat)
    requires h > 0.0
    requires 1 <= i < j <= k
    ensures Offset(h, i, k) < Offset(h, j, k)
    decreases j - i
  {
    OffsetLaw(h, i, k);
    if i + 1 < j {
      OffsetIncreasing(h, i + 1, j, k);
    }
  }

  /** Placing a side twice is placing it once. */
  lemma LaidTwice(side: seq<Handle>, h: real)
    ensures Laid(Laid(side, h), h) == Laid(side, h)
  {
  }

  /** The result of a pass: first the handles on the left, then those on the
      right, each group in the order it had, each handle placed in its group;
      a handle on any other side is dropped. */
  lemma ReconciledShape(hs: seq<Handle>, ms: seq<string>, h: real)
    requires h > 0.0
    ensures var kept := Prune(AddMissing(hs, ms), ms);
      var left, right := OnSide(kept, Left), OnSide(kept, Right);
      var r := Reconciled(hs, ms, h);
      && |r| == |left| + |right|
      && (forall i :: 0 <= i < |left| ==>
            r[i] == left[i].(style := TopPx(h * (i + 1) as real / (|left| + 1) as real)))
      && (forall i :: 0 <= i < |right| ==>
            r[|left| + i] == right[i].(style := TopPx(h * (i + 1) as real / (|right| + 1) as real)))
      && (forall x :: x in left <==> x in kept && x.position == Left)
      && (forall x :: x in right <==> x in kept && x.position == Right)
  {
    var kept := Prune(AddMissing(hs, ms), ms);
    LaidPlaces(OnSide(kept, Left), h);
    LaidPlaces(OnSide(kept, Right), h);
    OnSideMembers(kept, Left);
    OnSideMembers(kept, Right);
  }

  // ---------------------------------------------------------------------
  // Labels after a pass

  /** Every handle of a placed side is a handle of that side with a new style. */
  lemma LaidFrom(side: seq<Handle>, h: real, x: Handle)
    requires x in Laid(side, h)
    ensures exists y :: y in side && x == y.(style := x.style)
  {
    var i :| 0 <= i < |Laid(side, h)| && Laid(side, h)[i] == x;
    assert side[i] in side;
  }

  /** Every handle of a side has a placed copy with the same label and id. */
  lemma LaidHas(side: seq<Handle>, h: real, y: Handle)
    requires y in side
    ensures exists x :: x in Laid(side, h) && x == y.(style := x.style)
  {
    var i :| 0 <= i < |side| && side[i] == y;
    assert Laid(side, h)[i] in Laid(side, h);
  }

  /** Handles that all sit left or right: every node kind declares only
      such handles and a pass produces only such handles. */
  predicate Sided(hs: seq<Handle>) {
    forall x :: x in hs ==> x.position == Left || x.position == Right
  }

  /** After a pass every reference labels a handle, and every handle the
      reconciler created with a non-empty label is labelled with a reference. */
  lemma ReconciledLabels(hs: seq<Handle>, ms: seq<string>, h: real)
    requires Sided(hs)
    ensures var r := Reconciled(hs, ms, h);
      && (forall m :: m in ms ==> HasLabel(r, m))
      && (forall x :: x in r && x.customNode && x.caption.Some? && x.caption.value != "" ==>
            x.caption.value in ms)
      && Sided(r)
  {
    var a := AddMissing(hs, ms);
    var kept := Prune(a, ms);
    var left, right := OnSide(kept, Left), OnSide(kept, Right);
    var r := Reconciled(hs, ms, h);
    assert r == Laid(left, h) + Laid(right, h);
    AddMissingCovers(hs, ms);
    AddMissingAdded(hs, ms);
    PruneMembers(a, ms);
    OnSideMembers(kept, Left);
    OnSideMembers(kept, Right);
    forall m | m in ms ensures HasLabel(r, m) {
      var i :| 0 <= i < |a| && a[i].caption == Some(m);
      if i < |hs| {
        assert a[i] == hs[i] && hs[i] in hs;
      }
      assert a[i].position == Left || a[i].position == Right by {
        if i >= |hs| { assert a[i] == NewHandle(i, a[i].caption.value); }
      }
      assert a[i] in kept;
      if a[i].position == Left {
        LaidHas(left, h, a[i]);
        var x :| x in Laid(left, h) && x == a[i].(style := x.style);
        assert x in r;
        var j :| 0 <= j < |r| && r[j] == x;
      } else {
        LaidHas(right, h, a[i]);
        var x :| x in Laid(right, h) && x == a[i].(style := x.style);
        assert x in r;
        var j :| 0 <= j < |r| && r[j] == x;
      }
    }
    forall x | x in r ensures Keep(ms, x) && (x.position == Left || x.position == Right) {
      if x in Laid(left, h) {
        LaidFrom(left, h, x);
      } else {
        LaidFrom(right, h, x);
      }
    }
  }

  /** A pass keeps labels unique: with unique labels before it, every
      reference labels exactly one handle after it. */
  lemma ReconciledLabelsUnique(hs: seq<Handle>, ms: seq<string>, h: real)
    requires LabelsUnique(hs)
    ensures LabelsUnique(Reconciled(hs, ms, h))
  {
    var kept := Prune(AddMissing(hs, ms), ms);
    var left, right := OnSide(kept, Left), OnSide(kept, Right);
    AddMissingLabelsUnique(hs, ms);
    FilterPairwise(AddMissing(hs, ms), (x: Handle) => Keep(ms, x), LabelsDiffer);
    FilterPartitionPairwise(kept, (x: Handle) => x.position == Left, (x: Handle) => x.position == Right, LabelsDiffer);
    var u := left + right;
    var r := Reconciled(hs, ms, h);
    assert |r| == |u|;
    forall i | 0 <= i < |r| ensures r[i].caption == u[i].caption {
      if i < |left| {
        assert r[i] == Laid(left, h)[i];
      } else {
        assert r[i] == Laid(right, h)[i - |left|];
      }
    }
    forall i, j | 0 <= i < j < |r| ensures LabelsDiffer(r[i], r[j]) {
      assert LabelsDiffer(u[i], u[j]);
    }
  }

  // ---------------------------------------------------------------------
  // Idempotence

  /** Placed left handles followed by placed right handles split back into
      the same two groups. */
  lemma LaidSplit(left: seq<Handle>, right: seq<Handle>, h: real)
    requires forall x :: x in left ==> x.position == Left
    requires forall x :: x in right ==> x.position == Right
    ensures OnSide(Laid(left, h) + Laid(right, h), Left) == Laid(left, h)
    ensures OnSide(Laid(left, h) + Laid(right, h), Right) == Laid(right, h)
  {
    var lp, rp := Laid(left, h), Laid(right, h);
    FilterConcat(lp, rp, (x: Handle) => x.position == Left);
    FilterConcat(lp, rp, (x: Handle) => x.position == Right);
    forall x | x in lp ensures x.position == Left { LaidFrom(left, h, x); }
    forall x | x in rp ensures x.position == Right { LaidFrom(right, h, x); }
    FilterAll(lp, (x: Handle) => x.position == Left);
    FilterNone(rp, (x: Handle) => x.position == Left);
    FilterAll(rp, (x: Handle) => x.position == Right);
    FilterNone(lp, (x: Handle) => x.position == Right);
  }

  /** Running the pass again on its own output, with the same references and
      the same height, yields the same list. */
  lemma ReconcileIdempotent(hs: seq<Handle>, ms: seq<string>, h: real)
    requires Sided(hs)
    ensures Reconciled(Reconciled(hs, ms, h), ms, h) == Reconciled(hs, ms, h)
  {
    var kept := Prune(AddMissing(hs, ms), ms);
    var left, right := OnSide(kept, Left), OnSide(kept, Right);
    var lp, rp := Laid(left, h), Laid(right, h);
    var r := Reconciled(hs, ms, h);
    assert r == lp + rp;
    ReconciledLabels(hs, ms, h);
    AddMissingNoop(r, ms);
    FilterAll(r, (x: Handle) => Keep(ms, x));
    assert Prune(AddMissing(r, ms), ms) == r;
    OnSideMembers(kept, Left);
    OnSideMembers(kept, Right);
    LaidSplit(left, right, h);
    LaidTwice(left, h);
    LaidTwice(right, h);
  }
}
