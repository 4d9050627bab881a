/** The tool palette's form for adding a tool name to the list of tools. */
module ToolPalette {
  import opened Wrappers
  import opened Text

  const EmptyToolMessage := "Tool name cannot be empty."
  const DuplicateToolMessage := "Tool name must be unique."

  predicate NoDuplicates(tools: seq<string>) {
    forall i, j :: 0 <= i < j < |tools| ==> tools[i] != tools[j]
  }

  /** The palette's input field and error line. */
  class ToolForm {
    var newToolName: string
    var error: string

    constructor()
      ensures newToolName == "" && error == ""
    {
      newToolName := "";
      error := "";
    }

    /** `handleAddTool()`: a blank name and a name whose trimmed form is already
        a tool are refused with a message and the input is kept; otherwise the
        trimmed name is handed to `onAddTool` and the input and error clear. */
    method HandleAddTool(tools: seq<string>) returns (added: Option<string>)
      modifies this
      ensures IsBlank(old(newToolName)) ==>
        added == None && error == EmptyToolMessage && newToolName == old(newToolName)
      ensures !IsBlank(old(newToolName)) && Trim(old(newToolName)) in tools ==>
        added == None && error == DuplicateToolMessage && newToolName == old(newToolName)
      ensures !IsBlank(old(newToolName)) && Trim(old(newToolName)) !in tools ==>
        added == Some(Trim(old(newToolName))) && newToolName == "" && error == ""
    {
      if Trim(newToolName) == [] {
        error := EmptyToolMessage;
        return None;
      }
      if Trim(newToolName) in tools {
        error := DuplicateToolMessage;
        return None;
      }
      added := Some(Trim(newToolName));
      newToolName := "";
      error := "";
    }
  }

  /** A name the palette accepts is a new, non-empty tool name without white
      space at either end, so appending it keeps the tools free of repeats,
      and the same input is refused as a duplicate afterwards. */
  lemma AcceptedToolIsNew(tools: seq<string>, name: string)
    requires NoDuplicates(tools)
    requires !IsBlank(name) && Trim(name) !in tools
    ensures Trim(name) != [] && Trim(Trim(name)) == Trim(name)
    ensures NoDuplicates(tools + [Trim(name)])
    ensures Trim(name) in tools + [Trim(name)]
  {
    TrimIdempotent(name);
  }
}
