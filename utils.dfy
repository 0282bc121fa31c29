/** The helpers of the front end's utility library: a reverse lookup in an
    object, the dependency relation between text fields and the select fields
    that govern them, and the initial values of a node's fields. */
module Utils {
  import opened Common
  import opened Types

  /** `findKeyByValue`: the first property, in iteration order, whose value is
      `value`; `undefined` when there is none. */
  method FindKeyByValue(obj: Dict<string>, value: string) returns (r: Option<string>)
    ensures r.None? <==> forall i :: 0 <= i < |obj| ==> obj[i].val != value
    ensures r.Some? ==>
      exists i :: 0 <= i < |obj| && obj[i] == Entry(r.value, value) &&
        forall j :: 0 <= j < i ==> obj[j].val != value
    ensures r.Some? && KeysDistinct(obj) ==> Get(obj, r.value) == Some(value)
  {
    for i := 0 to |obj|
      invariant forall j :: 0 <= j < i ==> obj[j].val != value
    {
      if obj[i].val == value {
        if KeysDistinct(obj) {
          GetAt(obj, i);
        }
        return Some(obj[i].key);
      }
    }
    return None;
  }

  /** The assignment one declaration makes to the dependency map: a text input
      whose `dependsOn` is truthy maps its id to that `dependsOn`. */
  function DependencyEntry(input: InputConfig): Option<Entry<string>> {
    if input.TextInput? && TruthyString(input.dependsOn)
    then Some(Entry(input.id, input.dependsOn.value))
    else None
  }

  /** The dependency map of a list of declarations. */
  function DependencyMapOf(inputs: seq<InputConfig>): Dict<string> {
    AssignAll(inputs, DependencyEntry)
  }

  /** `createDependencyMap`. */
  method CreateDependencyMap(inputs: seq<InputConfig>) returns (d: Dict<string>)
    ensures d == DependencyMapOf(inputs)
  {
    d := [];
    for i := 0 to |inputs|
      invariant d == DependencyMapOf(inputs[..i])
    {
      assert inputs[..i + 1][..i] == inputs[..i];
      var input := inputs[i];
      if input.TextInput? && input.dependsOn.Some? && input.dependsOn.value != "" {
        d := Put(d, input.id, input.dependsOn.value);
      }
    }
    assert inputs[..|inputs|] == inputs;
  }

  /** A text input declares a dependency when its `dependsOn` is truthy. */
  predicate DeclaresDependency(input: InputConfig) {
    input.TextInput? && TruthyString(input.dependsOn)
  }

  /** The keys of the dependency map are exactly the ids of the text inputs
      with a truthy `dependsOn`; each maps to the `dependsOn` of the last such
      input with that id. Select and checkbox inputs contribute nothing. */
  lemma DependencyMapLookup(inputs: seq<InputConfig>, k: string)
    ensures Get(DependencyMapOf(inputs), k).Some? <==>
      exists i :: 0 <= i < |inputs| && DeclaresDependency(inputs[i]) && inputs[i].id == k
    ensures Get(DependencyMapOf(inputs), k).Some? ==>
      exists i :: 0 <= i < |inputs| && DeclaresDependency(inputs[i]) && inputs[i].id == k &&
        inputs[i].dependsOn == Some(Get(DependencyMapOf(inputs), k).value) &&
        forall j :: i < j < |inputs| ==> !(DeclaresDependency(inputs[j]) && inputs[j].id == k)
    ensures KeysDistinct(DependencyMapOf(inputs))
  {
    AssignAllGet(inputs, DependencyEntry, k);
    AssignAllKeysDistinct(inputs, DependencyEntry);
    assert forall i :: 0 <= i < |inputs| ==>
      (Assigns(DependencyEntry, inputs[i], k) <==> DeclaresDependency(inputs[i]) && inputs[i].id == k);
  }

  /** The assignment `initializeValues` makes for one declaration: every input
      whose `initValue` is not `undefined`, `null`, `""` and `false` included. */
  function InitialEntry(input: InputConfig): Option<Entry<Value>> {
    if input.initValue.Some? then Some(Entry(input.id, input.initValue.value)) else None
  }

  /** The initial value map of a list of declarations. */
  function InitialValuesOf(inputs: seq<InputConfig>): Dict<Value> {
    AssignAll(inputs, InitialEntry)
  }

  /** `initializeValues`. */
  method InitializeValues(inputs: seq<InputConfig>) returns (d: Dict<Value>)
    ensures d == InitialValuesOf(inputs)
  {
    d := [];
    for i := 0 to |inputs|
      invariant d == InitialValuesOf(inputs[..i])
    {
      assert inputs[..i + 1][..i] == inputs[..i];
      var input := inputs[i];
      if input.initValue != None {
        d := Put(d, input.id, input.initValue.value);
      }
    }
    assert inputs[..|inputs|] == inputs;
  }

  /** An id has an initial value exactly when some input with that id declares
      one (`null`, `""` and `false` too), and it is the last such input's. */
  lemma InitialValuesLookup(inputs: seq<InputConfig>, k: string)
    ensures Get(InitialValuesOf(inputs), k).Some? <==>
      exists i :: 0 <= i < |inputs| && inputs[i].initValue.Some? && inputs[i].id == k
    ensures Get(InitialValuesOf(inputs), k).Some? ==>
      exists i :: 0 <= i < |inputs| && inputs[i].id == k &&
        inputs[i].initValue == Get(InitialValuesOf(inputs), k) &&
        forall j :: i < j < |inputs| ==> !(inputs[j].initValue.Some? && inputs[j].id == k)
    ensures KeysDistinct(InitialValuesOf(inputs))
  {
    AssignAllGet(inputs, InitialEntry, k);
    AssignAllKeysDistinct(inputs, InitialEntry);
    assert forall i :: 0 <= i < |inputs| ==>
      (Assigns(InitialEntry, inputs[i], k) <==> inputs[i].initValue.Some? && inputs[i].id == k);
  }
}
