/** Two defects of the shared node component, each shown on the code as it
    is and then corrected: handle ids numbered by the list's length can
    repeat, and the guard compares the select against a label instead of
    an option value. */
module Corrected {
  import opened Common
  import opened Types
  import opened Reconciler
  import opened ReconcilerFacts
  import opened Registry
  import Scanner

  // ---------------------------------------------------------------------
  // Handle ids

  /** The sides of a list of two or three handles. */
  lemma OnSideFew(x: Handle, y: Handle, z: Handle, side: Position)
    ensures OnSide([x, y], side) == OnSide([x], side) + OnSide([y], side)
    ensures OnSide([x, y, z], side) == OnSide([x], side) + OnSide([y], side) + OnSide([z], side)
  {
    assert [x, y] == [x] + [y];
    OnSideConcat([x], [y], side);
    assert [x, y, z] == [x, y] + [z];
    OnSideConcat([x, y], [z], side);
  }

  /** The sides of a right handle followed by two left ones. */
  lemma RightLeftLeft(x: Handle, y: Handle, z: Handle)
    requires x.position == Right && y.position == Left && z.position == Left
    ensures OnSide([x, y, z], Left) == [y, z] && OnSide([x, y, z], Right) == [x]
  {
    OnSideFew(x, y, z, Left);
    OnSideFew(x, y, z, Right);
    OnSideOne(x, Left);
    OnSideOne(y, Left);
    OnSideOne(z, Left);
    OnSideOne(x, Right);
    OnSideOne(y, Right);
    OnSideOne(z, Right);
  }

  /** The sides of a left, a right and a left handle. */
  lemma LeftRightLeft(x: Handle, y: Handle, z: Handle)
    requires x.position == Left && y.position == Right && z.position == Left
    ensures OnSide([x, y, z], Left) == [x, z] && OnSide([x, y, z], Right) == [y]
  {
    OnSideFew(x, y, z, Left);
    OnSideFew(x, y, z, Right);
    OnSideOne(x, Left);
    OnSideOne(y, Left);
    OnSideOne(z, Left);
    OnSideOne(x, Right);
    OnSideOne(y, Right);
    OnSideOne(z, Right);
  }

  /** The sides of a left handle followed by a right one. */
  lemma LeftRight(x: Handle, y: Handle)
    requires x.position == Left && y.position == Right
    ensures OnSide([x, y], Left) == [x] && OnSide([x, y], Right) == [y]
  {
    OnSideFew(x, y, y, Left);
    OnSideFew(x, y, y, Right);
    OnSideOne(x, Left);
    OnSideOne(y, Left);
    OnSideOne(x, Right);
    OnSideOne(y, Right);
  }

  lemma FirstPassAdds(st: Handle)
    requires st.caption.None?
    ensures AddMissing([st], ["a", "b"]) == [st, NewHandle(1, "a"), NewHandle(2, "b")]
  {
    var a := NewHandle(1, "a");
    assert ["a", "b"][..1] == ["a"] && ["a"][..0] == [];
    assert !HasLabel([st], "a");
    assert AddMissing([st], ["a"]) == [st, a];
    assert !HasLabel([st, a], "b");
  }

  /** `{{a}}{{b}}` over a node with one unlabelled right handle: handles for
      `a` and `b` are pushed, numbered 2 and 3, and placed on the left. */
  lemma FirstPass(st: Handle, h: real)
    requires st.position == Right && st.caption.None?
    ensures Reconciled([st], ["a", "b"], h) ==
      Laid([NewHandle(1, "a"), NewHandle(2, "b")], h) + Laid([st], h)
  {
    var a, b := NewHandle(1, "a"), NewHandle(2, "b");
    FirstPassAdds(st);
    PruneKeepsAll([st, a, b], ["a", "b"]);
    RightLeftLeft(st, a, b);
  }

  /** `{{b}}` after that: the handle for `a` is dropped. */
  lemma SecondPass(a: Handle, b: Handle, st: Handle, h: real)
    requires a.customNode && a.caption == Some("a") && a.position == Left
    requires b.caption == Some("b") && b.position == Left
    requires st.position == Right && st.caption.None?
    ensures Reconciled([a, b, st], ["b"], h) == Laid([b], h) + Laid([st], h)
  {
    assert [a, b, st][1].caption == Some("b");
    AddMissingNoop([a, b, st], ["b"]);
    assert Prune([a, b, st], ["b"]) == [b, st] by {
      assert [a, b, st][1..] == [b, st];
      PruneKeepsAll([b, st], ["b"]);
    }
    LeftRight(b, st);
  }

  lemma ThirdPassAdds(b: Handle, st: Handle)
    requires b.caption == Some("b") && st.caption.None?
    ensures AddMissing([b, st], ["b", "c"]) == [b, st, NewHandle(2, "c")]
  {
    assert ["b", "c"][..1] == ["b"];
    assert [b, st][0].caption == Some("b");
    AddMissingNoop([b, st], ["b"]);
    assert !HasLabel([b, st], "c");
  }

  /** `{{b}}{{c}}` after that: the handle for `c` is pushed onto a list of
      two, so it is numbered 3. */
  lemma ThirdPass(b: Handle, st: Handle, h: real)
    requires b.caption == Some("b") && b.position == Left
    requires st.position == Right && st.caption.None?
    ensures Reconciled([b, st], ["b", "c"], h) == Laid([b, NewHandle(2, "c")], h) + Laid([st], h)
  {
    var c := NewHandle(2, "c");
    ThirdPassAdds(b, st);
    PruneKeepsAll([b, st, c], ["b", "c"]);
    LeftRightLeft(b, st, c);
  }

  /** Three passes over a text node's handles: `{{a}}{{b}}`, then `{{b}}`,
      then `{{b}}{{c}}`. The handle for `b` got `3-output` when the list
      held three handles; after `a` is dropped the list holds two again, so
      the handle for `c` is given `3-output` too. */
  lemma DuplicateOutputId(h: real)
    ensures var p3 := Reconciled(Reconciled(Reconciled(TextNode("text-1").handles,
                                   ["a", "b"], h), ["b"], h), ["b", "c"], h);
      |p3| == 3 && p3[0].id == OutputId(3) && p3[1].id == OutputId(3)
  {
    var st := TextNode("text-1").handles[0];
    assert TextNode("text-1").handles == [st];
    var a, b := NewHandle(1, "a"), NewHandle(2, "b");
    FirstPass(st, h);
    var p1 := Reconciled([st], ["a", "b"], h);
    var la, lb, lst := Laid([a, b], h)[0], Laid([a, b], h)[1], Laid([st], h)[0];
    assert p1 == [la, lb, lst];
    SecondPass(la, lb, lst, h);
    var p2 := Reconciled(p1, ["b"], h);
    var lb2, lst2 := Laid([lb], h)[0], Laid([lst], h)[0];
    assert p2 == [lb2, lst2];
    ThirdPass(lb2, lst2, h);
    var p3 := Reconciled(p2, ["b", "c"], h);
    assert p3[0] == Laid([lb2, NewHandle(2, "c")], h)[0];
    assert p3[1] == Laid([lb2, NewHandle(2, "c")], h)[1];
  }

  /** The number `n` of an id of the form `${n}-output`. */
  function OutputNumber(id: string): Option<nat> {
    if |id| > 7 && id[|id| - 7..] == "-output" && AllDigits(id[..|id| - 7])
    then Some(DigitsValue(id[..|id| - 7]))
    else None
  }

  /** The number of `${n}-output` reads back as `n`. */
  lemma OutputNumberOf(n: nat)
    ensures OutputNumber(OutputId(n)) == Some(n)
  {
    var s := NatToString(n);
    assert OutputId(n)[..|OutputId(n)| - 7] == s;
    assert OutputId(n)[|OutputId(n)| - 7..] == "-output";
    DigitsValueOfNatToString(n);
  }

  /** The largest `n` among the handles' `${n}-output` ids, 0 when there is
      none. */
  function MaxOutputNumber(hs: seq<Handle>): (r: nat)
    ensures forall i :: 0 <= i < |hs| && OutputNumber(hs[i].id).Some? ==> OutputNumber(hs[i].id).value <= r
    decreases |hs|
  {
    if hs == [] then 0
    else
      var init := MaxOutputNumber(hs[..|hs| - 1]);
      assert forall i :: 0 <= i < |hs| - 1 ==> hs[..|hs| - 1][i] == hs[i];
      var last := OutputNumber(hs[|hs| - 1].id).GetOr(0);
      if last > init then last else init
  }

  /** The handle pushed for a reference: numbered one past every
      `${n}-output` id in the list. */
  function FreshHandle(hs: seq<Handle>, m: string): Handle {
    Handle(Target, Left, OutputId(MaxOutputNumber(hs) + 1), Some(m), NoStyle, true)
  }

  /** The pushed handle's id is held by no handle of the list. */
  lemma FreshHandleId(hs: seq<Handle>, m: string)
    ensures forall i :: 0 <= i < |hs| ==> hs[i].id != FreshHandle(hs, m).id
  {
    OutputNumberOf(MaxOutputNumber(hs) + 1);
  }

  function AddStepFresh(hs: seq<Handle>, m: string): seq<Handle> {
    if HasLabel(hs, m) then hs else hs + [FreshHandle(hs, m)]
  }

  /** The add loop with fresh numbering. */
  function AddMissingFresh(hs: seq<Handle>, ms: seq<string>): seq<Handle>
    decreases |ms|
  {
    if ms == [] then hs else AddStepFresh(AddMissingFresh(hs, ms[..|ms| - 1]), ms[|ms| - 1])
  }

  /** The corrected add loop adds the same handles at the same places as
      the original; only their ids differ. */
  lemma {:induction false} AddMissingFreshMatches(hs: seq<Handle>, ms: seq<string>)
    ensures |AddMissingFresh(hs, ms)| == |AddMissing(hs, ms)|
    ensures forall i :: 0 <= i < |AddMissing(hs, ms)| ==>
      AddMissingFresh(hs, ms)[i] == AddMissing(hs, ms)[i].(id := AddMissingFresh(hs, ms)[i].id)
    ensures forall i :: 0 <= i < |hs| ==> AddMissingFresh(hs, ms)[i] == hs[i]
    decreases |ms|
  {
    if ms != [] {
      var init := ms[..|ms| - 1];
      var m := ms[|ms| - 1];
      var f, o := AddMissingFresh(hs, init), AddMissing(hs, init);
      AddMissingFreshMatches(hs, init);
      assert HasLabel(f, m) <==> HasLabel(o, m) by {
        assert forall i :: 0 <= i < |f| ==> f[i].caption == o[i].caption;
      }
    }
  }

  /** No two handles share an id. */
  predicate IdsDiffer(a: Handle, b: Handle) {
    a.id != b.id
  }

  predicate IdsUnique(hs: seq<Handle>) {
    Pairwise(hs, IdsDiffer)
  }

  /** The corrected add loop keeps ids unique. */
  lemma {:induction false} AddMissingFreshIdsUnique(hs: seq<Handle>, ms: seq<string>)
    requires IdsUnique(hs)
    ensures IdsUnique(AddMissingFresh(hs, ms))
    decreases |ms|
  {
    if ms != [] {
      var before := AddMissingFresh(hs, ms[..|ms| - 1]);
      var m := ms[|ms| - 1];
      AddMissingFreshIdsUnique(hs, ms[..|ms| - 1]);
      if !HasLabel(before, m) {
        FreshHandleId(before, m);
        var r := before + [FreshHandle(before, m)];
        forall i, j | 0 <= i < j < |r| ensures IdsDiffer(r[i], r[j]) {
          if j < |before| {
            assert r[i] == before[i] && r[j] == before[j];
          }
        }
      }
    }
  }

  /** One pass with fresh numbering. */
  function ReconciledFresh(hs: seq<Handle>, ms: seq<string>, h: real): seq<Handle> {
    var kept := Prune(AddMissingFresh(hs, ms), ms);
    Laid(OnSide(kept, Left), h) + Laid(OnSide(kept, Right), h)
  }

  /** With fresh numbering a pass keeps handle ids unique, so no sequence of
      passes produces two handles with one id. */
  lemma ReconciledFreshIdsUnique(hs: seq<Handle>, ms: seq<string>, h: real)
    requires IdsUnique(hs)
    ensures IdsUnique(ReconciledFresh(hs, ms, h))
  {
    var a := AddMissingFresh(hs, ms);
    var kept := Prune(a, ms);
    var left, right := OnSide(kept, Left), OnSide(kept, Right);
    AddMissingFreshIdsUnique(hs, ms);
    FilterPairwise(a, (x: Handle) => Keep(ms, x), IdsDiffer);
    FilterPartitionPairwise(kept, (x: Handle) => x.position == Left, (x: Handle) => x.position == Right, IdsDiffer);
    var u := left + right;
    var r := ReconciledFresh(hs, ms, h);
    assert |r| == |u|;
    forall i | 0 <= i < |r| ensures r[i].id == u[i].id {
      if i < |left| {
        assert r[i] == Laid(left, h)[i];
      } else {
        assert r[i] == Laid(right, h)[i - |left|];
      }
    }
    forall i, j | 0 <= i < j < |r| ensures IdsDiffer(r[i], r[j]) {
      assert IdsDiffer(u[i], u[j]);
    }
  }

  // ---------------------------------------------------------------------
  // The guard

  /** The kinds whose first select is the "Text"/"File" select. */
  predicate HasTypeSelect(kind: NodeKind) {
    kind == CustomInput || kind == CustomOutput || kind == MyNode
  }

  lemma TypeSelectFirst(kind: NodeKind, id: string)
    requires HasTypeSelect(kind)
    ensures FirstIdOf(DefinitionOf(kind, id).inputs, SelectType) == Some(id + "-select1")
  {
    var ins := DefinitionOf(kind, id).inputs;
    assert TypeOf(ins[0]) == TextType && TypeOf(ins[1]) == SelectType;
  }

  /** Whatever option the user picks in the "Type" select of the input,
      output and custom nodes, the guard as written is false: the options'
      values are "text" and "file", both truthy and neither "Text". */
  lemma GuardIgnoresOptions(kind: NodeKind, id: string, values: Dict<Value>, choice: string)
    requires HasTypeSelect(kind)
    requires choice == "text" || choice == "file"
    ensures var inputs := DefinitionOf(kind, id).inputs;
      !Guard(inputs, OptionPicked(inputs, values, id + "-select1", choice))
  {
    TypeSelectFirst(kind, id);
  }

  /** The guard with the select compared against the option value "text". */
  predicate GuardIntended(inputs: seq<InputConfig>, values: Dict<Value>) {
    var selected := Get(values, Key(FirstIdOf(inputs, SelectType)));
    selected == Some(Str("text")) ||
    (!Truthy(selected) && TruthyString(FirstIdOf(inputs, TextType)))
  }

  /** The corrected guard follows the select: it holds exactly when the user
      has picked the "Text" option, and so also with the start value. */
  lemma GuardIntendedFollowsSelect(kind: NodeKind, id: string, values: Dict<Value>, choice: string)
    requires HasTypeSelect(kind)
    requires choice == "text" || choice == "file"
    ensures var inputs := DefinitionOf(kind, id).inputs;
      GuardIntended(inputs, OptionPicked(inputs, values, id + "-select1", choice)) <==> choice == "text"
  {
    TypeSelectFirst(kind, id);
  }

  /** With the corrected guard every node with a text field starts
      reconciled: the select's start value "text" now passes. */
  lemma GuardIntendedAtStart(kind: NodeKind, id: string)
    ensures var d := DefinitionOf(kind, id);
      GuardIntended(d.inputs, StartValues(d.inputs)) <==> kind != Llm && kind != CustomCheckbox
  {
    var d := DefinitionOf(kind, id);
    GuardAtStart(kind, id);
    if HasTypeSelect(kind) {
      TypeSelectFirst(kind, id);
      if kind == MyNode {
        MyNodeStartValues(id);
      } else {
        assert d.inputs[1] == TypeSelect(id);
        IdsDistinct(kind, id);
        forall i | 0 <= i < |d.inputs| && i != 1 ensures d.inputs[i].id != id + "-select1" {
          assert Ids(d.inputs, InputId)[1] == id + "-select1";
          assert Ids(d.inputs, InputId)[i] == d.inputs[i].id;
        }
        GuardReadsSelect(d.inputs, id);
      }
    } else {
      NoFieldNamedUndefined(kind, id);
      StartValuesLookup(d.inputs, "undefined");
      assert FirstIdOf(d.inputs, SelectType) == None;
      if kind == TextKind {
        assert FirstIdOf(d.inputs, TextType) == Some(id + "-name");
      } else {
        assert FirstIdOf(d.inputs, TextType) == None;
      }
    }
  }

  // ---------------------------------------------------------------------
  // The corrected effect

  /** One run of the effect with both corrections: the guard compares the
      select against "text", and pushed handles are numbered fresh. */
  function PassIntendedOf(inputs: seq<InputConfig>, values: Dict<Value>, hs: seq<Handle>,
                          clientHeight: Option<nat>): Pass
  {
    if !GuardIntended(inputs, values) then Skipped
    else
      var text := Get(values, Key(FirstIdOf(inputs, TextType)));
      if text.Some? && text.value.Str? then
        Updated(ReconciledFresh(hs, Scanner.Scan(text.value.s), ContainerHeight(clientHeight)))
      else Threw
  }

  /** Every node kind declares handles with distinct ids, and a corrected
      run keeps them distinct, so handle ids stay unique however often the
      effect runs. */
  lemma PassIntendedIdsUnique(inputs: seq<InputConfig>, values: Dict<Value>, hs: seq<Handle>,
                              clientHeight: Option<nat>)
    requires IdsUnique(hs)
    ensures PassIntendedOf(inputs, values, hs, clientHeight).Updated? ==>
      IdsUnique(PassIntendedOf(inputs, values, hs, clientHeight).handles)
  {
    if PassIntendedOf(inputs, values, hs, clientHeight).Updated? {
      var text := Get(values, Key(FirstIdOf(inputs, TextType)));
      ReconciledFreshIdsUnique(hs, Scanner.Scan(text.value.s), ContainerHeight(clientHeight));
    }
  }

  /** The handles every node kind starts with have distinct ids. */
  lemma DeclaredIdsUnique(kind: NodeKind, id: string)
    ensures IdsUnique(DefinitionOf(kind, id).handles)
  {
    var hs := DefinitionOf(kind, id).handles;
    IdsDistinct(kind, id);
    forall i, j | 0 <= i < j < |hs| ensures IdsDiffer(hs[i], hs[j]) {
      assert Ids(hs, HandleId)[i] == hs[i].id && Ids(hs, HandleId)[j] == hs[j].id;
    }
  }
}
