/**
 * The new-army form: a name, a list of detachment names that starts with
 * one blank field, and the submit that posts both and clears the form when
 * the server accepts them.
 */
module AddArmyState {

  /** The form's `armyName` and `detachments` state. */
  class AddArmy {
    var armyName: string
    var detachments: seq<string>

    /** The first render: an empty name and a single empty detachment field. */
    constructor ()
      ensures armyName == "" && detachments == [""]
    {
      armyName, detachments := "", [""];
    }

    /** The name field's `onChange`. */
    method ArmyNameChange(newVal: string)
      modifies this
      ensures armyName == newVal && detachments == old(detachments)
    {
      armyName := newVal;
    }

    /** `handleAddDetachment`: one more, empty, detachment field at the end. */
    method AddDetachment()
      modifies this
      ensures detachments == old(detachments) + [""]
      ensures armyName == old(armyName)
    {
      detachments := detachments + [""];
    }

    /** `handleDetachmentsChange(index, value)`: the field at `index` takes the value; the others and the length stay. */
    method DetachmentsChange(index: nat, value: string)
      requires index < |detachments|
      modifies this
      ensures |detachments| == |old(detachments)| && detachments[index] == value
      ensures forall i :: 0 <= i < |detachments| && i != index ==> detachments[i] == old(detachments)[i]
      ensures armyName == old(armyName)
    {
      detachments := detachments[index := value];
    }

    /**
     * `handleSubmit`: posts the name and every detachment field, blank ones
     * included; only an ok response resets the form to its first state.
     */
    method Submit(responseOk: bool) returns (name: string, names: seq<string>)
      modifies this
      ensures name == old(armyName) && names == old(detachments)
      ensures responseOk ==> armyName == "" && detachments == [""]
      ensures !responseOk ==> armyName == old(armyName) && detachments == old(detachments)
    {
      name, names := armyName, detachments;
      if responseOk {
        armyName, detachments := "", [""];
      }
    }
  }
}
