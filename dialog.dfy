/** The add/edit dialog: two text fields, OK and Cancel. */
module Dialog {
  import opened Wrappers
  import opened Commands

  class CommandDialog {
    var nameText: string
    var commandText: string
    /** `None` until OK is pressed with both fields filled in. */
    var result: Option<Command>
    var isOpen: bool

    /** Opens with the fields pre-filled (empty for "Add", the entry's
        values for "Edit") and no result. */
    constructor (name: string, command: string)
      ensures nameText == name && commandText == command
      ensures result == None && isOpen
    {
      nameText, commandText := name, command;
      result, isOpen := None, true;
    }

    /** OK: on valid input the stripped pair becomes the result and the
        dialog closes; otherwise a warning is shown and nothing changes. */
    method OkClicked() returns (warning: Option<string>)
      modifies this`result, this`isOpen
      ensures var v := Validate(nameText, commandText);
              if v.Accepted? then result == Some(v.entry) && !isOpen && warning == None
              else result == old(result) && isOpen == old(isOpen) && warning == Some(v.warning)
    {
      var v := Validate(nameText, commandText);
      if v.Accepted? {
        result := Some(v.entry);
        isOpen := false;
        warning := None;
      } else {
        warning := Some(v.warning);
      }
    }

    /** Cancel closes the dialog and leaves the result as it is. */
    method CancelClicked()
      modifies this`isOpen
      ensures !isOpen
    {
      isOpen := false;
    }
  }
}
