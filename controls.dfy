/** Value resolution: how the validator reads the current value of the element
    a rule targets. DOM elements become the `Control` datatype; a radio or
    checkbox input carries the group `document.getElementsByName` would return
    for its name, in document order. */
module Controls {

  /** A value read from a target: null, a string, or the values of the checked
      boxes of a checkbox group. */
  datatype Value = Null | Str(s: string) | List(items: seq<string>)

  /** One element of a named group: whether it is checked, and its value attribute. */
  datatype GroupMember = GroupMember(checked: bool, value: string)

  /** The state of a target element that value resolution looks at:
      `OtherElement` is any element that is not an INPUT, TEXTAREA or SELECT. */
  datatype Control =
    | Input(inputType: string, value: string, group: seq<GroupMember>)
    | TextArea(value: string)
    | Select(options: seq<string>, selectedIndex: int)
    | OtherElement

  /** Reading the element does not throw: a SELECT must have a selected option
      (`options[-1].value` is a TypeError). */
  predicate Resolvable(c: Control) {
    c.Select? ==> 0 <= c.selectedIndex < |c.options|
  }

  /** The value of the first checked member of a radio group, or null. */
  function FirstChecked(g: seq<GroupMember>): (v: Value)
    ensures v.Null? <==> forall j :: 0 <= j < |g| ==> !g[j].checked
    ensures v.Str? ==> exists i :: 0 <= i < |g| && g[i].checked && v.s == g[i].value
                                   && forall j :: 0 <= j < i ==> !g[j].checked
    ensures !v.List?
  {
    if g == [] then Null
    else if g[0].checked then Str(g[0].value)
    else
      var v := FirstChecked(g[1..]);
      assert v.Str? ==> exists i :: 0 <= i < |g[1..]| && g[1..][i].checked && v.s == g[1..][i].value
                                    && forall j :: 0 <= j < i ==> !g[1..][j].checked;
      assert forall j :: 1 <= j < |g| ==> g[j] == g[1..][j - 1];
      v
  }

  /** The values of the checked members of a checkbox group, in group order. */
  function CheckedValues(g: seq<GroupMember>): (vs: seq<string>)
    ensures |vs| <= |g|
    ensures forall v :: v in vs <==> exists i :: 0 <= i < |g| && g[i].checked && g[i].value == v
  {
    if g == [] then []
    else
      var last := g[|g| - 1];
      var prefix := CheckedValues(g[..|g| - 1]);
      assert forall i :: 0 <= i < |g| - 1 ==> g[..|g| - 1][i] == g[i];
      prefix + (if last.checked then [last.value] else [])
  }

  /** CheckedValues keeps group order: it distributes over concatenation. */
  lemma {:induction false} CheckedValuesAppend(g1: seq<GroupMember>, g2: seq<GroupMember>)
    ensures CheckedValues(g1 + g2) == CheckedValues(g1) + CheckedValues(g2)
    decreases |g2|
  {
    if g2 != [] {
      var g2' := g2[..|g2| - 1];
      assert (g1 + g2)[..|g1 + g2| - 1] == g1 + g2';
      CheckedValuesAppend(g1, g2');
    } else {
      assert g1 + g2 == g1;
    }
  }

  /** `get_input_value`: dispatch on the input's type attribute; unknown types give null. */
  function InputValue(c: Control): (v: Value)
    requires c.Input?
    ensures v.List? <==> c.inputType == "checkbox"
    ensures v.Str? && c.inputType != "radio" ==> v.s == c.value
  {
    if c.inputType == "text" || c.inputType == "number" || c.inputType == "password" then Str(c.value)
    else if c.inputType == "radio" then FirstChecked(c.group)
    else if c.inputType == "checkbox" then List(CheckedValues(c.group))
    else Null
  }

  /** `get_target_value`: dispatch on the element's node name; unknown elements give null. */
  function TargetValue(c: Control): (v: Value)
    requires Resolvable(c)
    ensures v.List? <==> c.Input? && c.inputType == "checkbox"
  {
    match c
    case Input(_, _, _) => InputValue(c)
    case TextArea(value) => Str(value)
    case Select(options, selectedIndex) => Str(options[selectedIndex])
    case OtherElement => Null
  }

  /** Which kinds of value each kind of element yields. */
  lemma TargetValueKinds(c: Control)
    requires Resolvable(c)
    ensures TargetValue(c).List? <==> c.Input? && c.inputType == "checkbox"
    ensures c.OtherElement? ==> TargetValue(c) == Null
    ensures c.Input? && c.inputType !in ["text", "number", "password", "radio", "checkbox"]
            ==> TargetValue(c) == Null
    ensures c.TextArea? || c.Select? ==> TargetValue(c).Str?
  {
  }

  /** `get_radio_value`: scan the group in order and return the first checked value. */
  method GetRadioValue(g: seq<GroupMember>) returns (v: Value)
    ensures v == FirstChecked(g)
    ensures v.Null? <==> forall j :: 0 <= j < |g| ==> !g[j].checked
    ensures v.Str? ==> exists i :: 0 <= i < |g| && g[i].checked && v.s == g[i].value
                                   && forall j :: 0 <= j < i ==> !g[j].checked
  {
    var i := 0;
    while i < |g|
      invariant 0 <= i <= |g|
      invariant forall j :: 0 <= j < i ==> !g[j].checked
    {
      if g[i].checked {
        return Str(g[i].value);
      }
      i := i + 1;
    }
    return Null;
  }

  /** `get_checkbox_values`: push the value of every checked member, in group order. */
  method GetCheckboxValues(g: seq<GroupMember>) returns (values: seq<string>)
    ensures values == CheckedValues(g)
  {
    values := [];
    var i := 0;
    while i < |g|
      invariant 0 <= i <= |g|
      invariant values == CheckedValues(g[..i])
    {
      assert g[..i + 1][..i] == g[..i];
      if g[i].checked {
        values := values + [g[i].value];
      }
      i := i + 1;
    }
    assert g[..i] == g;
  }
}
