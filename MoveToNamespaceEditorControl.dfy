/** Command routing of the namespace box's editor control. The control answers `QueryStatus`
    and `Exec` for the two standard command groups: editing and navigation commands are passed
    to the next command target, Cut, Copy and Paste are reported as supported (but never
    enabled) and not executed, and every other command is unsupported. The next command target
    and the casts of raw ids to the command enumerations are parameters. */
module MoveToNamespaceEditorControl {

  datatype CommandGroup = StandardCommandSet2K | StandardCommandSet97 | OtherGroup(guid: nat)

  /** The `VSStd2KCmdID` members the control looks at; `OtherStd2K` is any other id. */
  datatype Std2KCommand =
    | COMPLETEWORD | TYPECHAR | BACKSPACE | TAB | BACKTAB | DELETE | DELETEWORDRIGHT | DELETEWORDLEFT
    | DELETETOBOL | DELETETOEOL | UP | DOWN | LEFT | LEFT_EXT | LEFT_EXT_COL | RIGHT | RIGHT_EXT
    | RIGHT_EXT_COL | EditorLineFirstColumn | EditorLineFirstColumnExtend | BOL | BOL_EXT | BOL_EXT_COL
    | EOL | EOL_EXT | EOL_EXT_COL | SELECTALL | CANCEL | WORDPREV | WORDPREV_EXT | WORDPREV_EXT_COL
    | WORDNEXT | WORDNEXT_EXT | WORDNEXT_EXT_COL | SELECTCURRENTWORD | TOGGLE_OVERTYPE_MODE
    | CUT | COPY | PASTE | OtherStd2K

  /** The `VSStd97CmdID` members (and `StandardCommands` ids) the control looks at. */
  datatype Std97Command = Delete | SelectAll | Undo | Redo | Cut | Copy | Paste | OtherStd97

  /** What a raw command id means in each standard group. */
  datatype CommandIds = CommandIds(std2K: nat -> Std2KCommand, std97: nat -> Std97Command)

  const S_OK: int := 0
  /** `OLECMDERR_E_UNKNOWNGROUP`, 0x80040104 as a signed 32-bit value. */
  const OLECMDERR_E_UNKNOWNGROUP: int := -2147221244
  /** `OLECMDERR_E_NOTSUPPORTED`, 0x80040100 as a signed 32-bit value. */
  const OLECMDERR_E_NOTSUPPORTED: int := -2147221248
  const OLECMDF_SUPPORTED: nat := 1
  const OLECMDF_ENABLED: nat := 2

  predicate IsKnownGroup(group: CommandGroup)
  {
    group.StandardCommandSet2K? || group.StandardCommandSet97?
  }

  /** `ErrorHandler.Failed`. */
  predicate Failed(hr: int)
  {
    hr < 0
  }

  /** `IsPassThroughCommand`: the listed editing and navigation commands of the 2K group, and
      Delete, SelectAll, Undo and Redo of the 97 group. */
  predicate IsPassThroughCommand(group: CommandGroup, cmdID: nat, ids: CommandIds)
  {
    match group
    case StandardCommandSet2K =>
      var c := ids.std2K(cmdID);
      !(c.CUT? || c.COPY? || c.PASTE? || c.OtherStd2K?)
    case StandardCommandSet97 =>
      var c := ids.std97(cmdID);
      c.Delete? || c.SelectAll? || c.Undo? || c.Redo?
    case OtherGroup(_) => false
  }

  /** Cut, Copy or Paste, in either group. */
  predicate IsClipboardCommand(group: CommandGroup, cmdID: nat, ids: CommandIds)
  {
    || (group.StandardCommandSet97? && (ids.std97(cmdID).Cut? || ids.std97(cmdID).Copy? || ids.std97(cmdID).Paste?))
    || (group.StandardCommandSet2K? && (ids.std2K(cmdID).CUT? || ids.std2K(cmdID).COPY? || ids.std2K(cmdID).PASTE?))
  }

  /** An `OLECMD` entry: the command id and its status flags. */
  datatype OleCmd = OleCmd(cmdID: nat, cmdf: nat)

  /** The flags `QueryStatus` leaves in one entry of a known group: the next target's flags for
      a pass-through command (the old flags if the next target fails), `OLECMDF_SUPPORTED` for
      the clipboard commands, and 0 otherwise. `nextQueryStatus` gives the next target's result
      and the flags it writes for a single command. */
  function CommandStatus(group: CommandGroup, cmd: OleCmd, ids: CommandIds,
                         nextQueryStatus: (CommandGroup, nat) -> (int, nat)): nat
  {
    if IsPassThroughCommand(group, cmd.cmdID, ids) then
      var (hr, flags) := nextQueryStatus(group, cmd.cmdID);
      if Failed(hr) then cmd.cmdf else flags
    else if IsClipboardCommand(group, cmd.cmdID, ids) then OLECMDF_SUPPORTED
    else 0
  }

  /** `QueryStatus`: an unknown group is refused with the array untouched; for a known group
      each of the first `cmdCount` entries gets its status and the rest are not written. */
  method QueryStatus(group: CommandGroup, cmdCount: nat, prgCmds: array<OleCmd>, ids: CommandIds,
                     nextQueryStatus: (CommandGroup, nat) -> (int, nat))
    returns (r: int)
    requires cmdCount <= prgCmds.Length
    modifies prgCmds
    ensures !IsKnownGroup(group) ==> r == OLECMDERR_E_UNKNOWNGROUP && prgCmds[..] == old(prgCmds[..])
    ensures IsKnownGroup(group) ==> r == S_OK
    ensures IsKnownGroup(group) ==>
              forall i :: 0 <= i < cmdCount ==>
                prgCmds[i] == old(prgCmds[i]).(cmdf := CommandStatus(group, old(prgCmds[i]), ids, nextQueryStatus))
    ensures forall i :: cmdCount <= i < prgCmds.Length ==> prgCmds[i] == old(prgCmds[i])
  {
    if !IsKnownGroup(group) {
      return OLECMDERR_E_UNKNOWNGROUP;
    }
    for i := 0 to cmdCount
      invariant forall j :: 0 <= j < i ==>
                  prgCmds[j] == old(prgCmds[j]).(cmdf := CommandStatus(group, old(prgCmds[j]), ids, nextQueryStatus))
      invariant forall j :: i <= j < prgCmds.Length ==> prgCmds[j] == old(prgCmds[j])
    {
      if IsPassThroughCommand(group, prgCmds[i].cmdID, ids) {
        var (hr, flags) := nextQueryStatus(group, prgCmds[i].cmdID);
        if Failed(hr) {
          continue;
        }
        prgCmds[i] := prgCmds[i].(cmdf := flags);
      } else if IsClipboardCommand(group, prgCmds[i].cmdID, ids) {
        prgCmds[i] := prgCmds[i].(cmdf := OLECMDF_SUPPORTED);
      } else {
        prgCmds[i] := prgCmds[i].(cmdf := 0);
      }
    }
    return S_OK;
  }

  /** `Exec`: an unknown group is refused, a pass-through command is executed by the next target
      (`nextExec`) and its result returned, and everything else is not supported. */
  function Exec(group: CommandGroup, cmdID: nat, cmdExecOpt: nat, ids: CommandIds,
                nextExec: (CommandGroup, nat, nat) -> int): int
  {
    if !IsKnownGroup(group) then OLECMDERR_E_UNKNOWNGROUP
    else if IsPassThroughCommand(group, cmdID, ids) then nextExec(group, cmdID, cmdExecOpt)
    else OLECMDERR_E_NOTSUPPORTED
  }

  /** The clipboard commands are never passed through, in either group. */
  lemma ClipboardCommandsAreNotPassedThrough(group: CommandGroup, cmdID: nat, ids: CommandIds)
    requires IsClipboardCommand(group, cmdID, ids)
    ensures IsKnownGroup(group) && !IsPassThroughCommand(group, cmdID, ids)
  {
  }

  /** A command of a known group that the control answers itself is never reported enabled and
      is refused by `Exec`; it is reported supported exactly when it is Cut, Copy or Paste.
      A pass-through command is in both calls the next target's business. */
  lemma ExecAgreesWithQueryStatus(group: CommandGroup, cmd: OleCmd, cmdExecOpt: nat, ids: CommandIds,
                                  nextQueryStatus: (CommandGroup, nat) -> (int, nat),
                                  nextExec: (CommandGroup, nat, nat) -> int)
    requires IsKnownGroup(group)
    ensures !IsPassThroughCommand(group, cmd.cmdID, ids) ==>
              && Exec(group, cmd.cmdID, cmdExecOpt, ids, nextExec) == OLECMDERR_E_NOTSUPPORTED
              && (CommandStatus(group, cmd, ids, nextQueryStatus) / OLECMDF_ENABLED) % 2 == 0
              && (CommandStatus(group, cmd, ids, nextQueryStatus) == OLECMDF_SUPPORTED
                  <==> IsClipboardCommand(group, cmd.cmdID, ids))
    ensures IsPassThroughCommand(group, cmd.cmdID, ids) ==>
              && Exec(group, cmd.cmdID, cmdExecOpt, ids, nextExec) == nextExec(group, cmd.cmdID, cmdExecOpt)
              && CommandStatus(group, cmd, ids, nextQueryStatus)
                 == (if Failed(nextQueryStatus(group, cmd.cmdID).0) then cmd.cmdf else nextQueryStatus(group, cmd.cmdID).1)
  {
  }

  /** In the 97 group exactly Delete, SelectAll, Undo and Redo pass through; the 2K group passes
      none of its clipboard commands and no unlisted command. */
  lemma PassThroughSet(cmdID: nat, ids: CommandIds)
    ensures IsPassThroughCommand(StandardCommandSet97, cmdID, ids)
            <==> ids.std97(cmdID) in {Delete, SelectAll, Undo, Redo}
    ensures ids.std2K(cmdID) in {CUT, COPY, PASTE, OtherStd2K}
            ==> !IsPassThroughCommand(StandardCommandSet2K, cmdID, ids)
    ensures forall g :: !IsKnownGroup(g) ==> !IsPassThroughCommand(g, cmdID, ids)
  {
  }
}
