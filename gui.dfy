/** gui.py: GUI_Menu, the description of one of the application's button
    menus: a name, the button labels, the handlers they are bound to and
    whether each button starts enabled. */
module Gui {
  import opened Wrappers
  import opened Strings

  datatype GuiError = ValueError(message: string)

  /** A menu whose handlers are values of type Bind. The fields are set
      once by the constructor and never reassigned. */
  datatype GuiMenu<Bind> = GuiMenu(name: string, texts: seq<string>, binds: seq<Bind>, states: seq<bool>)
  {
    function GetButtonTexts(): seq<string> { texts }

    function GetButtonCommands(): seq<Bind> { binds }

    function GetName(): string { name }

    /** get_button_states: "normal" for an enabled button, "disabled" for
        any other, in the buttons' order. */
    method GetButtonStates() returns (r: seq<string>)
      ensures |r| == |states|
      ensures forall i :: 0 <= i < |r| ==>
                (r[i] == "normal" <==> states[i]) && (r[i] == "disabled" <==> !states[i])
    {
      r := [];
      var i := 0;
      while i < |states|
        invariant 0 <= i <= |states| && |r| == i
        invariant forall k :: 0 <= k < i ==> r[k] == (if states[k] then "normal" else "disabled")
      {
        if states[i] {
          r := r + ["normal"];
        } else {
          r := r + ["disabled"];
        }
        i := i + 1;
      }
    }
  }

  /** The message of the constructor's ValueError. */
  function LengthMessage(textCount: nat, bindCount: nat): string
  {
    "Lists button_text and button_binds must be of the same size. Got lists of length "
      + NatToString(textCount) + " and " + NatToString(bindCount) + " instead."
  }

  /** GUI_Menu(...): a ValueError exactly when there are not as many
      handlers as labels (the states are not checked against either);
      otherwise a menu whose getters return what was passed in. */
  function NewGuiMenu<Bind>(name: string, texts: seq<string>, binds: seq<Bind>, states: seq<bool>)
    : (r: Result<GuiMenu<Bind>, GuiError>)
    ensures r.Err? <==> |texts| != |binds|
    ensures r.Err? ==> r.error == ValueError(LengthMessage(|texts|, |binds|))
    ensures r.Ok? ==> r.value.GetName() == name && r.value.GetButtonTexts() == texts &&
                      r.value.GetButtonCommands() == binds && r.value.states == states
  {
    if |texts| != |binds| then Err(ValueError(LengthMessage(|texts|, |binds|)))
    else Ok(GuiMenu(name, texts, binds, states))
  }

  /** A menu whose states list is shorter or longer than its labels is
      still accepted, and its states map one-to-one onto the labels only
      when the lengths agree. */
  lemma StatesUnchecked<Bind>(name: string, texts: seq<string>, binds: seq<Bind>, states: seq<bool>)
    requires |texts| == |binds| && |states| != |texts|
    ensures NewGuiMenu(name, texts, binds, states).Ok?
    ensures |NewGuiMenu(name, texts, binds, states).value.states| != |texts|
  {
  }
}
