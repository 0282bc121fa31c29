/** The shapes of handles (connection ports) and of input declarations that
    node kinds hand to the shared node component. */
module Types {
  import opened Common

  /** A handle either emits (`source`) or receives (`target`) connections. */
  datatype HandleType = Source | Target

  /** reactflow's `Position`: the side of the node a handle sits on. */
  datatype Position = Left | Right | Top | Bottom

  /** The `style` of a handle, reduced to its vertical offset: none, a
      percentage of the node height, or a pixel offset. */
  datatype Style = NoStyle | TopPercent(percent: real) | TopPx(px: real)

  /** `HandleConfig`. `caption` is the optional `label` (a Dafny keyword).
      `customNode` is true on handles the reconciler created; an absent flag
      reads as false. */
  datatype Handle = Handle(
    kind: HandleType,
    position: Position,
    id: string,
    caption: Option<string>,
    style: Style,
    customNode: bool)

  datatype SelectOption = SelectOption(value: string, caption: string)

  /** The three variants of `InputConfig`. `initValue` is `None` when the
      declaration leaves it `undefined`. */
  datatype InputConfig =
    | TextInput(id: string, caption: string, initValue: Option<Value>, dependsOn: Option<string>)
    | SelectInput(id: string, caption: string, options: seq<SelectOption>, initValue: Option<Value>)
    | CheckboxInput(id: string, caption: string, initValue: Option<Value>)

  /** The `type` tag of an input declaration. */
  datatype InputType = TextType | SelectType | CheckboxType

  function TypeOf(input: InputConfig): InputType {
    match input
    case TextInput(_, _, _, _) => TextType
    case SelectInput(_, _, _, _) => SelectType
    case CheckboxInput(_, _, _) => CheckboxType
  }

  function InputId(input: InputConfig): string { input.id }

  function HandleId(h: Handle): string { h.id }

  /** The id of every element of a list, in order: `xs.map(x => x.id)`. */
  function Ids<T>(xs: seq<T>, id: T -> string): (ids: seq<string>)
    ensures |ids| == |xs|
    ensures forall i :: 0 <= i < |xs| ==> ids[i] == id(xs[i])
  {
    seq(|xs|, i requires 0 <= i < |xs| => id(xs[i]))
  }

  predicate Distinct<T(==)>(s: seq<T>) {
    forall i, j :: 0 <= i < j < |s| ==> s[i] != s[j]
  }
}
