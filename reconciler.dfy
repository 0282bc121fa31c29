/** The shared node component (`AbstractionNode`): the field values it keeps,
    and the effect that turns `{{name}}` references in the first text field
    into target handles and lays out every handle of the node.

    One pass of the effect is one call of `Reconcile`. The handle list the
    effect reads is the node's handle state; what it hands to `setHandles` is
    the result. DOM measurement is the `clientHeight` parameter (`None` when
    the container is not mounted). */
module Reconciler {
  import opened Common
  import opened Types
  import Scanner

  // ---------------------------------------------------------------------
  // Field values

  /** The entry the component's own `initializeValues` makes for one input:
      only a truthy `initValue` is kept. */
  function TruthyInitialEntry(input: InputConfig): Option<Entry<Value>> {
    if Truthy(input.initValue) then Some(Entry(input.id, input.initValue.value)) else None
  }

  /** The value map a node starts with. */
  function StartValues(inputs: seq<InputConfig>): Dict<Value> {
    AssignAll(inputs, TruthyInitialEntry)
  }

  /** The component's `initializeValues`, the initial `values` state. */
  method InitializeValues(inputs: seq<InputConfig>) returns (d: Dict<Value>)
    ensures d == StartValues(inputs)
  {
    d := [];
    for i := 0 to |inputs|
      invariant d == StartValues(inputs[..i])
    {
      assert inputs[..i + 1][..i] == inputs[..i];
      var input := inputs[i];
      if Truthy(input.initValue) {
        d := Put(d, input.id, input.initValue.value);
      }
    }
    assert inputs[..|inputs|] == inputs;
  }

  /** A field has a start value exactly when some input with that id has a
      truthy `initValue`: `null`, `""` and `false` are left out. The value is
      the `initValue` of the last such input. */
  lemma StartValuesLookup(inputs: seq<InputConfig>, k: string)
    ensures Get(StartValues(inputs), k).Some? <==>
      exists i :: 0 <= i < |inputs| && Truthy(inputs[i].initValue) && inputs[i].id == k
    ensures Get(StartValues(inputs), k).Some? ==> Truthy(Get(StartValues(inputs), k))
    ensures Get(StartValues(inputs), k).Some? ==>
      exists i :: 0 <= i < |inputs| && inputs[i].id == k && Truthy(inputs[i].initValue) &&
        inputs[i].initValue == Get(StartValues(inputs), k) &&
        forall j :: i < j < |inputs| ==> !(Truthy(inputs[j].initValue) && inputs[j].id == k)
  {
    AssignAllGet(inputs, TruthyInitialEntry, k);
    assert forall i :: 0 <= i < |inputs| ==>
      (Assigns(TruthyInitialEntry, inputs[i], k) <==> Truthy(inputs[i].initValue) && inputs[i].id == k);
  }

  /** `handleInputChange`: the edited field takes the new text, every other
      field keeps its value. */
  function InputChanged(values: Dict<Value>, id: string, text: string): (r: Dict<Value>)
    ensures Get(r, id) == Some(Str(text))
    ensures forall k :: k != id ==> Get(r, k) == Get(values, k)
  {
    Put(values, id, Str(text))
  }

  /** Picking an option of a select: the select takes the option's value;
      an option whose value is exactly "File" first clears the first text
      field. Every other field keeps its value. */
  function OptionPicked(inputs: seq<InputConfig>, values: Dict<Value>, selectId: string, option: string): (r: Dict<Value>)
    ensures Get(r, selectId) == Some(Str(option))
    ensures forall k :: k != selectId && (option != "File" || k != Key(FirstIdOf(inputs, TextType))) ==>
      Get(r, k) == Get(values, k)
    ensures option == "File" && selectId != Key(FirstIdOf(inputs, TextType)) ==>
      Get(r, Key(FirstIdOf(inputs, TextType))) == Some(Str(""))
  {
    var cleared := if option == "File" then Put(values, Key(FirstIdOf(inputs, TextType)), Str("")) else values;
    Put(cleared, selectId, Str(option))
  }

  // ---------------------------------------------------------------------
  // The guard

  /** The index of the first input of a kind: `inputs.find(...)`. */
  function FirstIndexOf(inputs: seq<InputConfig>, kind: InputType): (r: Option<nat>)
    ensures r.None? <==> forall i :: 0 <= i < |inputs| ==> TypeOf(inputs[i]) != kind
    ensures r.Some? ==> r.value < |inputs| && TypeOf(inputs[r.value]) == kind
    ensures r.Some? ==> forall j :: 0 <= j < r.value ==> TypeOf(inputs[j]) != kind
    decreases |inputs|
  {
    if inputs == [] then None
    else if TypeOf(inputs[0]) == kind then Some(0)
    else
      var rest := FirstIndexOf(inputs[1..], kind);
      assert forall i :: 1 <= i < |inputs| ==> inputs[i] == inputs[1..][i - 1];
      if rest.Some? then Some(rest.value + 1) else None
  }

  /** `inputs.find((input) => input.type == kind)?.id`. */
  function FirstIdOf(inputs: seq<InputConfig>, kind: InputType): Option<string> {
    var i := FirstIndexOf(inputs, kind);
    if i.Some? then Some(inputs[i.value].id) else None
  }

  /** The condition of the effect: the first select field reads exactly
      "Text", or it is falsy (or absent) and there is a text field with a
      truthy id. `values[undefined]` reads the property "undefined". */
  predicate Guard(inputs: seq<InputConfig>, values: Dict<Value>) {
    var selected := Get(values, Key(FirstIdOf(inputs, SelectType)));
    selected == Some(Str("Text")) ||
    (!Truthy(selected) && TruthyString(FirstIdOf(inputs, TextType)))
  }

  // ---------------------------------------------------------------------
  // Adding handles for new references

  /** Some handle is labelled `m`: `handles.find((h) => h.label == m)`. */
  predicate HasLabel(hs: seq<Handle>, m: string) {
    exists i :: 0 <= i < |hs| && hs[i].caption == Some(m)
  }

  /** `${n}-output`. */
  function OutputId(n: nat): string {
    NatToString(n) + "-output"
  }

  /** The handle pushed for a reference `m` when the list holds `len` handles. */
  function NewHandle(len: nat, m: string): Handle {
    Handle(Target, Left, OutputId(len + 1), Some(m), NoStyle, true)
  }

  /** One turn of the add loop. */
  function AddStep(hs: seq<Handle>, m: string): seq<Handle> {
    if HasLabel(hs, m) then hs else hs + [NewHandle(|hs|, m)]
  }

  /** The add loop over the references `ms`; the list only grows at its end. */
  function AddMissing(hs: seq<Handle>, ms: seq<string>): (r: seq<Handle>)
    ensures |hs| <= |r| && r[..|hs|] == hs
    decreases |ms|
  {
    if ms == [] then hs
    else
      var before := AddMissing(hs, ms[..|ms| - 1]);
      var r := AddStep(before, ms[|ms| - 1]);
      assert r[..|before|] == before;
      assert r[..|hs|] == before[..|hs|];
      r
  }

  // ---------------------------------------------------------------------
  // Dropping handles whose reference is gone

  /** The filter callback: a handle goes when its label is truthy, it was
      created by the reconciler, and its label is no longer referenced. */
  predicate Keep(ms: seq<string>, h: Handle) {
    !(TruthyString(h.caption) && h.customNode && h.caption.value !in ms)
  }

  function Prune(hs: seq<Handle>, ms: seq<string>): seq<Handle> {
    Filter(hs, (h: Handle) => Keep(ms, h))
  }

  /** The filter keeps exactly the handles that pass `Keep`. */
  lemma PruneMembers(hs: seq<Handle>, ms: seq<string>)
    ensures forall h :: h in Prune(hs, ms) <==> h in hs && Keep(ms, h)
  {
    FilterMembers(hs, (h: Handle) => Keep(ms, h));
  }

  // ---------------------------------------------------------------------
  // Layout

  /** The handles on one side, in list order. */
  function OnSide(hs: seq<Handle>, side: Position): seq<Handle> {
    Filter(hs, (h: Handle) => h.position == side)
  }

  /** A side holds exactly the handles placed on it. */
  lemma OnSideMembers(hs: seq<Handle>, side: Position)
    ensures forall h :: h in OnSide(hs, side) <==> h in hs && h.position == side
  {
    FilterMembers(hs, (h: Handle) => h.position == side);
  }

  /** The handles of one side of a concatenation. */
  lemma {:induction false} OnSideConcat(s: seq<Handle>, t: seq<Handle>, side: Position)
    ensures OnSide(s + t, side) == OnSide(s, side) + OnSide(t, side)
    decreases |s|
  {
    if s == [] {
      assert s + t == t;
    } else {
      assert (s + t)[0] == s[0] && (s + t)[1..] == s[1..] + t;
      OnSideConcat(s[1..], t, side);
    }
  }

  lemma OnSideOne(x: Handle, side: Position)
    ensures OnSide([x], side) == if x.position == side then [x] else []
  {
    assert [x][1..] == [];
  }

  /** The filter keeps a list whose handles all stay. */
  lemma {:induction false} PruneKeepsAll(hs: seq<Handle>, ms: seq<string>)
    requires forall i :: 0 <= i < |hs| ==> Keep(ms, hs[i])
    ensures Prune(hs, ms) == hs
    decreases |hs|
  {
    if hs != [] {
      PruneKeepsAll(hs[1..], ms);
      assert hs == [hs[0]] + hs[1..];
    }
  }

  /** A lone right-hand handle with no label, and no referenced variable:
      nothing is added or dropped and the handle sits at half the height. */
  lemma LoneRightHandle(st: Handle, h: real)
    requires st.position == Right && st.caption.None?
    ensures Reconciled([st], [], h) == [st.(style := TopPx(h / 2.0))]
  {
    assert AddMissing([st], []) == [st];
    PruneKeepsAll([st], []);
    OnSideOne(st, Left);
    OnSideOne(st, Right);
    assert Offset(h, 1, 1) == h / 2.0;
  }

  /** `containerRef.current?.clientHeight || 200`. */
  function ContainerHeight(clientHeight: Option<nat>): (h: real)
    ensures h > 0.0
  {
    if clientHeight.Some? && clientHeight.value != 0 then clientHeight.value as real else 200.0
  }

  /** The spacing `h / (k + 1)` times the 1-based position `i`. */
  function Offset(h: real, i: nat, k: nat): real {
    (h / (k + 1) as real) * i as real
  }

  /** The handles of one side with their `top` set, one spacing apart. */
  function Laid(side: seq<Handle>, h: real): seq<Handle> {
    seq(|side|, i requires 0 <= i < |side| => side[i].(style := TopPx(Offset(h, i + 1, |side|))))
  }

  /** What one pass hands to `setHandles`. */
  function Reconciled(hs: seq<Handle>, ms: seq<string>, h: real): seq<Handle> {
    var kept := Prune(AddMissing(hs, ms), ms);
    Laid(OnSide(kept, Left), h) + Laid(OnSide(kept, Right), h)
  }

  /** What one run of the effect does: nothing when the guard is false; a
      `TypeError` from `matchAll` when the text field holds no string;
      otherwise the new handle list. */
  datatype Pass = Skipped | Threw | Updated(handles: seq<Handle>)

  function PassOf(inputs: seq<InputConfig>, values: Dict<Value>, hs: seq<Handle>,
                  clientHeight: Option<nat>): Pass
  {
    if !Guard(inputs, values) then Skipped
    else
      var text := Get(values, Key(FirstIdOf(inputs, TextType)));
      if text.Some? && text.value.Str? then
        Updated(Reconciled(hs, Scanner.Scan(text.value.s), ContainerHeight(clientHeight)))
      else Threw
  }

  /** `handle.style = { top: ... }` for every handle of one side, in place,
      `height / (k + 1)` apart. */
  method PlaceSide(a: array<Handle>, height: real)
    modifies a
    ensures a[..] == Laid(old(a[..]), height)
  {
    ghost var side := a[..];
    var spacing := height / (a.Length + 1) as real;
    for i := 0 to a.Length
      invariant forall j :: 0 <= j < i ==> a[j] == side[j].(style := TopPx(Offset(height, j + 1, a.Length)))
      invariant forall j :: i <= j < a.Length ==> a[j] == side[j]
    {
      assert spacing * (i + 1) as real == Offset(height, i + 1, a.Length);
      a[i] := a[i].(style := TopPx(spacing * (i + 1) as real));
    }
  }

  /** The `for ... of matches` loop: pushes a handle for each reference no
      handle is labelled with yet. */
  method AddReferences(handles: seq<Handle>, matches: seq<string>) returns (hs: seq<Handle>)
    ensures hs == AddMissing(handles, matches)
  {
    hs := handles;
    for i := 0 to |matches|
      invariant hs == AddMissing(handles, matches[..i])
    {
      assert matches[..i + 1][..i] == matches[..i];
      if !HasLabel(hs, matches[i]) {
        hs := hs + [NewHandle(|hs|, matches[i])];
      }
    }
    assert matches[..|matches|] == matches;
  }

  /** Splits the kept handles by side, places each side, and joins them. */
  method LayOut(kept: seq<Handle>, containerHeight: real) returns (r: seq<Handle>)
    ensures r == Laid(OnSide(kept, Left), containerHeight) + Laid(OnSide(kept, Right), containerHeight)
  {
    var leftHandles := OnSide(kept, Left);
    var rightHandles := OnSide(kept, Right);
    var left := new Handle[|leftHandles|](i requires 0 <= i < |leftHandles| => leftHandles[i]);
    var right := new Handle[|rightHandles|](i requires 0 <= i < |rightHandles| => rightHandles[i]);
    assert left[..] == leftHandles;
    assert right[..] == rightHandles;
    PlaceSide(left, containerHeight);
    PlaceSide(right, containerHeight);
    r := left[..] + right[..];
  }

  /** One run of the effect. */
  method Reconcile(inputs: seq<InputConfig>, values: Dict<Value>, handles: seq<Handle>,
                   clientHeight: Option<nat>) returns (r: Pass)
    ensures r == PassOf(inputs, values, handles, clientHeight)
  {
    var selectInputId := FirstIdOf(inputs, SelectType);
    var textInputId := FirstIdOf(inputs, TextType);
    var selected := Get(values, Key(selectInputId));
    if !(selected == Some(Str("Text")) || (!Truthy(selected) && TruthyString(textInputId))) {
      return Skipped;
    }
    var text := Get(values, Key(textInputId));
    if !(text.Some? && text.value.Str?) {
      return Threw;
    }
    var matches := Scanner.Scan(text.value.s);
    var hs := AddReferences(handles, matches);
    hs := Prune(hs, matches);
    var laid := LayOut(hs, ContainerHeight(clientHeight));
    return Updated(laid);
  }
}
