/** The node definition registry: for each of the six node kinds, the handles
    a node starts with and the input fields it declares, both built from the
    node's id. */
module Registry {
  import opened Common
  import opened Types
  import Scanner
  import opened Reconciler

  // ---------------------------------------------------------------------
  // `String.prototype.replace` with a string pattern

  predicate OccursAt(s: string, pat: string, i: nat) {
    i + |pat| <= |s| && s[i..i + |pat|] == pat
  }

  /** The first index at or after `k` where `pat` occurs in `s`. */
  function IndexFrom(s: string, pat: string, k: nat): (r: Option<nat>)
    requires k <= |s|
    ensures r.Some? ==> k <= r.value && OccursAt(s, pat, r.value)
    ensures r.Some? ==> forall j :: k <= j < r.value ==> !OccursAt(s, pat, j)
    ensures r.None? ==> forall j :: k <= j <= |s| ==> !OccursAt(s, pat, j)
    decreases |s| - k
  {
    if OccursAt(s, pat, k) then Some(k)
    else if k == |s| then None
    else IndexFrom(s, pat, k + 1)
  }

  /** `s.replace(pat, rep)`: only the first occurrence is replaced. */
  function ReplaceFirst(s: string, pat: string, rep: string): string {
    match IndexFrom(s, pat, 0)
    case None => s
    case Some(i) => s[..i] + rep + s[i + |pat|..]
  }

  /** An id that starts with "custom" loses exactly that prefix, so
      `customInput-1` shows as `Input-1`. */
  lemma ReplaceCustomPrefix(rest: string)
    ensures ReplaceFirst("custom" + rest, "custom", "") == rest
  {
    var s := "custom" + rest;
    assert OccursAt(s, "custom", 0) by { assert s[0..6] == "custom"; }
    assert s[6..] == rest;
  }

  /** A string without the pattern's first character is left as it is:
      `text-3` stays `text-3`. */
  lemma ReplaceWithoutFirstChar(s: string, pat: string, rep: string)
    requires |pat| > 0 && pat[0] !in s
    ensures ReplaceFirst(s, pat, rep) == s
  {
    forall j | 0 <= j <= |s| ensures !OccursAt(s, pat, j) {
      if j + |pat| <= |s| {
        assert s[j..j + |pat|][0] == s[j];
      }
    }
  }

  /** Replacing with "" never adds a character that was not there. */
  lemma ReplaceKeepsCharacters(s: string, pat: string, c: char)
    requires c !in s
    ensures c !in ReplaceFirst(s, pat, "")
  {
    var i := IndexFrom(s, pat, 0);
    if i.Some? {
      var r := ReplaceFirst(s, pat, "");
      assert r == s[..i.value] + s[i.value + |pat|..];
      forall k | 0 <= k < |r| ensures r[k] != c {
        if k < i.value {
          assert r[k] == s[k];
        } else {
          assert r[k] == s[k + |pat|];
        }
      }
    }
  }

  // ---------------------------------------------------------------------
  // The six kinds

  datatype NodeKind = CustomInput | Llm | CustomOutput | TextKind | CustomCheckbox | MyNode

  /** What a node starts with: its handle state and its declared inputs. */
  datatype Definition = Definition(handles: seq<Handle>, inputs: seq<InputConfig>)

  /** A handle a node kind declares: no label, no style, not created by the
      reconciler. */
  function Static(kind: HandleType, position: Position, id: string): Handle {
    Handle(kind, position, id, None, NoStyle, false)
  }

  /** The name shown for a node: its id with the first "custom" removed. */
  function DisplayName(id: string): string {
    ReplaceFirst(id, "custom", "")
  }

  /** The "Text"/"File" select of the input, output and custom nodes. */
  function TypeSelect(id: string): InputConfig {
    SelectInput(id + "-select1", "Type",
      [SelectOption("text", "Text"), SelectOption("file", "File")], Some(Str("text")))
  }

  function InputNode(id: string): Definition {
    Definition(
      [Static(Source, Right, id + "-value")],
      [TextInput(id + "-name", "Name", Some(Str(DisplayName(id))), Some(id + "-select1")),
       TypeSelect(id)])
  }

  function OutputNode(id: string): Definition {
    Definition(
      [Static(Target, Left, id + "-value")],
      [TextInput(id + "-name", "Name", Some(Str(DisplayName(id))), Some(id + "-select1")),
       TypeSelect(id)])
  }

  function TextNode(id: string): Definition {
    Definition(
      [Static(Source, Right, id + "-output")],
      [TextInput(id + "-name", "Name", Some(Str(DisplayName(id))), None)])
  }

  /** The two target handles are placed at a third and two thirds of the
      node's height. */
  function LlmNode(id: string): Definition {
    Definition(
      [Handle(Target, Left, id + "-system", None, TopPercent(100.0 / 3.0), false),
       Handle(Target, Left, id + "-prompt", None, TopPercent(200.0 / 3.0), false),
       Static(Source, Right, id + "-response")],
      [])
  }

  function CheckboxNode(id: string): Definition {
    Definition(
      [Static(Source, Right, id + "-source"), Static(Target, Left, id + "-target")],
      [CheckboxInput(id + "-checkbox", "Are you sure you want to accept these terms?", None)])
  }

  function MyNodeDef(id: string): Definition {
    Definition(
      [Static(Source, Right, id + "-source")],
      [TextInput(id + "-text1", "Name", Some(Str(DisplayName(id))), Some(id + "-select1")),
       TypeSelect(id),
       TextInput(id + "-text2", "Description", Some(Str(DisplayName(id))), None),
       SelectInput(id + "-select2", "Fav Food",
         [SelectOption("burger", "Burger"), SelectOption("pizza", "Pizza")], None),
       CheckboxInput(id + "-checkbox", "Are you sure you want to accept these terms?", None)])
  }

  function DefinitionOf(kind: NodeKind, id: string): Definition {
    match kind
    case CustomInput => InputNode(id)
    case Llm => LlmNode(id)
    case CustomOutput => OutputNode(id)
    case TextKind => TextNode(id)
    case CustomCheckbox => CheckboxNode(id)
    case MyNode => MyNodeDef(id)
  }

  // ---------------------------------------------------------------------
  // Facts about the tables

  /** Two ids built from the same node id differ when their suffixes do. */
  lemma SuffixCancel(id: string, a: string, b: string)
    requires id + a == id + b
    ensures a == b
  {
    assert a == (id + a)[|id|..];
    assert b == (id + b)[|id|..];
  }

  /** Every kind declares handles with pairwise distinct ids, and input
      fields with pairwise distinct ids. */
  lemma IdsDistinct(kind: NodeKind, id: string)
    ensures Distinct(Ids(DefinitionOf(kind, id).handles, HandleId))
    ensures Distinct(Ids(DefinitionOf(kind, id).inputs, InputId))
  {
    var hs := Ids(DefinitionOf(kind, id).handles, HandleId);
    var ins := Ids(DefinitionOf(kind, id).inputs, InputId);
    var pair: (seq<string>, seq<string>) := match kind
      case CustomInput => (["-value"], ["-name", "-select1"])
      case Llm => (["-system", "-prompt", "-response"], [])
      case CustomOutput => (["-value"], ["-name", "-select1"])
      case TextKind => (["-output"], ["-name"])
      case CustomCheckbox => (["-source", "-target"], ["-checkbox"])
      case MyNode => (["-source"], ["-text1", "-select1", "-text2", "-select2", "-checkbox"]);
    var suffixes, inSuffixes := pair.0, pair.1;
    assert Distinct(suffixes) && Distinct(inSuffixes);
    assert |hs| == |suffixes| && forall i :: 0 <= i < |hs| ==> hs[i] == id + suffixes[i];
    assert |ins| == |inSuffixes| && forall i :: 0 <= i < |ins| ==> ins[i] == id + inSuffixes[i];
    forall i, j | 0 <= i < j < |hs| ensures hs[i] != hs[j] {
      if hs[i] == hs[j] { SuffixCancel(id, suffixes[i], suffixes[j]); }
    }
    forall i, j | 0 <= i < j < |ins| ensures ins[i] != ins[j] {
      if ins[i] == ins[j] { SuffixCancel(id, inSuffixes[i], inSuffixes[j]); }
    }
  }

  /** Every kind's handles sit on the left or the right, so the reconciler
      keeps all of them and a second pass changes nothing. */
  lemma DefinitionSided(kind: NodeKind, id: string)
    ensures forall h :: h in DefinitionOf(kind, id).handles ==> h.position == Left || h.position == Right
    ensures forall h :: h in DefinitionOf(kind, id).handles ==> !h.customNode && h.caption.None?
  {
  }

  /** Every `dependsOn` names a select field declared in the same list. */
  lemma DependsOnDeclared(kind: NodeKind, id: string)
    ensures var ins := DefinitionOf(kind, id).inputs;
      forall i :: 0 <= i < |ins| && ins[i].TextInput? && ins[i].dependsOn.Some? ==>
        exists j :: 0 <= j < |ins| && ins[j].SelectInput? && ins[j].id == ins[i].dependsOn.value
  {
    var ins := DefinitionOf(kind, id).inputs;
    if kind in {CustomInput, CustomOutput, MyNode} {
      assert ins[1].SelectInput? && ins[1].id == id + "-select1";
    }
  }

  /** The name field of the input, output and text nodes, and the first text
      field of the custom node, start with the node id minus "custom". */
  lemma NameStartsAsDisplayName(kind: NodeKind, id: string)
    requires kind != Llm && kind != CustomCheckbox
    ensures DefinitionOf(kind, id).inputs[0].TextInput?
    ensures DefinitionOf(kind, id).inputs[0].initValue == Some(Str(DisplayName(id)))
  {
  }

  /** The id of a field never reads "undefined", so the property
      `values[undefined]` is never set by a field of these kinds. */
  lemma NoFieldNamedUndefined(kind: NodeKind, id: string)
    ensures forall input :: input in DefinitionOf(kind, id).inputs ==> input.id != "undefined"
  {
    var inputs := DefinitionOf(kind, id).inputs;
    if kind == Llm {
      // the LLM node declares no field at all
      assert inputs == [];
    } else {
      forall input | input in inputs ensures input.id != "undefined" {
        var s := input.id;
        match kind
        case CustomInput => assert s[|s| - 1] != 'd';
        case CustomOutput => assert s[|s| - 1] != 'd';
        case TextKind => assert s[|s| - 1] != 'd';
        case CustomCheckbox => assert s[|s| - 1] != 'd';
        case MyNode => assert s[|s| - 1] != 'd';
      }
    }
  }

  /** With the values a node starts with, the reconciler runs only for the
      text node: the input, output and custom nodes read "text" (truthy, but
      not "Text") from their select, and the LLM and checkbox nodes have no
      text field. */
  lemma GuardAtStart(kind: NodeKind, id: string)
    ensures var d := DefinitionOf(kind, id);
      Guard(d.inputs, StartValues(d.inputs)) <==> kind == TextKind
  {
    var d := DefinitionOf(kind, id);
    var values := StartValues(d.inputs);
    NoFieldNamedUndefined(kind, id);
    StartValuesLookup(d.inputs, "undefined");
    match kind
    case TextKind =>
      assert FirstIdOf(d.inputs, TextType) == Some(id + "-name");
      assert FirstIdOf(d.inputs, SelectType) == None;
    case CustomInput =>
      GuardReadsSelect(d.inputs, id);
    case CustomOutput =>
      GuardReadsSelect(d.inputs, id);
    case MyNode =>
      IdsDistinct(MyNode, id);
      forall i | 0 <= i < |d.inputs| && i != 1 ensures d.inputs[i].id != id + "-select1" {
        assert Ids(d.inputs, InputId)[1] == id + "-select1";
        assert Ids(d.inputs, InputId)[i] == d.inputs[i].id;
      }
      GuardReadsSelect(d.inputs, id);
    case Llm =>
      assert FirstIdOf(d.inputs, TextType) == None;
    case CustomCheckbox =>
      assert FirstIdOf(d.inputs, TextType) == None;
  }

  /** For a list whose first select is the "Text"/"File" select, the guard
      reads that select, whose start value is "text". */
  lemma GuardReadsSelect(inputs: seq<InputConfig>, id: string)
    requires |inputs| >= 2 && inputs[0].TextInput? && inputs[1] == TypeSelect(id)
    requires forall i :: 0 <= i < |inputs| && i != 1 ==> inputs[i].id != id + "-select1"
    ensures FirstIdOf(inputs, SelectType) == Some(id + "-select1")
    ensures Get(StartValues(inputs), id + "-select1") == Some(Str("text"))
    ensures !Guard(inputs, StartValues(inputs))
  {
    var k := id + "-select1";
    AssignAllGet(inputs, TruthyInitialEntry, k);
    assert TruthyInitialEntry(inputs[1]) == Some(Entry(k, Str("text")));
  }

  /** The custom node's guard consults its first text field `-text1` and its
      first select `-select1`. */
  lemma MyNodeConsults(id: string)
    ensures FirstIdOf(MyNodeDef(id).inputs, TextType) == Some(id + "-text1")
    ensures FirstIdOf(MyNodeDef(id).inputs, SelectType) == Some(id + "-select1")
  {
    var ins := MyNodeDef(id).inputs;
    assert TypeOf(ins[0]) == TextType && TypeOf(ins[1]) == SelectType;
  }

  /** The custom node starts with values for `-text1`, `-select1` and
      `-text2` (when the display name is not empty); `-select2` and the
      checkbox have none. */
  lemma MyNodeStartValues(id: string)
    ensures Get(StartValues(MyNodeDef(id).inputs), id + "-select1") == Some(Str("text"))
    ensures Get(StartValues(MyNodeDef(id).inputs), id + "-select2") == None
    ensures Get(StartValues(MyNodeDef(id).inputs), id + "-checkbox") == None
  {
    var ins := MyNodeDef(id).inputs;
    IdsDistinct(MyNode, id);
    StartValuesLookup(ins, id + "-select1");
    StartValuesLookup(ins, id + "-select2");
    StartValuesLookup(ins, id + "-checkbox");
    AssignAllGet(ins, TruthyInitialEntry, id + "-select1");
    assert Ids(ins, InputId)[1] == id + "-select1";
    forall i | 0 <= i < |ins| && i != 1 ensures ins[i].id != id + "-select1" {
      assert Ids(ins, InputId)[i] == ins[i].id;
    }
  }

  /** The checkbox node starts with no values at all. */
  lemma CheckboxStartsEmpty(id: string)
    ensures StartValues(CheckboxNode(id).inputs) == []
  {
    var ins := CheckboxNode(id).inputs;
    assert ins[..|ins| - 1] == [];
    assert AssignAll(ins[..|ins| - 1], TruthyInitialEntry) == [];
    assert TruthyInitialEntry(ins[|ins| - 1]) == None;
  }

  /** Whatever the values, as long as no property is named "undefined",
      the LLM and checkbox nodes are never reconciled: their preset handles
      keep their places. */
  lemma NoTextFieldNoPass(kind: NodeKind, id: string, values: Dict<Value>)
    requires kind == Llm || kind == CustomCheckbox
    requires "undefined" !in KeySet(values)
    ensures !Guard(DefinitionOf(kind, id).inputs, values)
  {
    assert FirstIdOf(DefinitionOf(kind, id).inputs, TextType) == None;
  }

  /** The text node's text field starts as its display name when that name
      is not empty, and holds no `{{...}}` reference when the id has no `{`. */
  lemma TextNodeStartText(id: string)
    requires '{' !in id && DisplayName(id) != ""
    ensures var d := TextNode(id);
      Get(StartValues(d.inputs), Key(FirstIdOf(d.inputs, TextType))) == Some(Str(DisplayName(id))) &&
      Scanner.Scan(DisplayName(id)) == []
  {
    var d := TextNode(id);
    ReplaceKeepsCharacters(id, "custom", '{');
    assert FirstIdOf(d.inputs, TextType) == Some(id + "-name");
    assert Get(StartValues(d.inputs), id + "-name") == Some(Str(DisplayName(id)));
    Scanner.ScanWithoutBraces(DisplayName(id));
  }

  /** The text node's first pass: a non-empty name without `{` holds no reference, so
      no handle is added and the single right handle is placed at half the
      container height. */
  lemma TextNodeFirstPass(id: string, clientHeight: Option<nat>)
    requires '{' !in id && DisplayName(id) != ""
    ensures var d := TextNode(id);
      PassOf(d.inputs, StartValues(d.inputs), d.handles, clientHeight) ==
        Updated([Handle(Source, Right, id + "-output", None,
                        TopPx(ContainerHeight(clientHeight) / 2.0), false)])
  {
    var d := TextNode(id);
    GuardAtStart(TextKind, id);
    TextNodeStartText(id);
    LoneRightHandle(d.handles[0], ContainerHeight(clientHeight));
  }

  /** A text node whose id is exactly "custom" starts with an empty name,
      which is not kept; the guard still holds, so `matchAll` runs on
      `undefined` and throws. */
  lemma TextNodeEmptyNameThrows(clientHeight: Option<nat>)
    ensures var d := TextNode("custom");
      PassOf(d.inputs, StartValues(d.inputs), d.handles, clientHeight) == Threw
  {
    var d := TextNode("custom");
    ReplaceCustomPrefix("");
    assert "custom" + "" == "custom";
    GuardAtStart(TextKind, "custom");
    assert DisplayName("custom") == "";
    assert TypeOf(d.inputs[0]) == TextType;
    assert d.inputs[..|d.inputs| - 1] == [];
    assert AssignAll(d.inputs[..|d.inputs| - 1], TruthyInitialEntry) == [];
    assert TruthyInitialEntry(d.inputs[|d.inputs| - 1]) == None;
    assert StartValues(d.inputs) == [];
  }
}
