/** `OpenFileCommand`: a single-item command that opens a file, in preview
    unless the same file was opened less than 500 ms before. The wall clock
    is an integer millisecond argument and the existence test on the file is
    a boolean argument. */
module OpenFile {
  import opened Wrappers
  import Actions

  /** The part of a tree item the command reads: its path, if any. */
  datatype FileItem = FileItem(path: Option<string>)

  /** The `OpenFile` action: open `path`, in preview or pinned. */
  datatype OpenAction = OpenAction(path: string, preview: bool)

  /** The command's memory of the last file it opened and when. */
  datatype ClickState = ClickState(lastOpenedFile: Option<string>, lastOpenedDate: Option<int>)

  const NeverOpened: ClickState := ClickState(None, None)

  /** Two opens of one file closer than this many milliseconds are a
      double click. */
  const DoubleClickWindow: int := 500

  /** JavaScript truthiness of an optional string: defined and non-empty. */
  predicate Truthy(s: Option<string>) {
    s.Some? && s.value != ""
  }

  datatype ClickOutcome = ClickOutcome(doubleClick: bool, next: ClickState)

  /** `checkDoubleClick(item)` at time `now`. */
  function CheckDoubleClick(state: ClickState, item: FileItem, now: int): (o: ClickOutcome)
    ensures o.next == ClickState(item.path, Some(now))
    ensures o.doubleClick <==>
      && Truthy(state.lastOpenedFile)
      && state.lastOpenedDate.Some?
      && item.path == state.lastOpenedFile
      && now - state.lastOpenedDate.value < DoubleClickWindow
  {
    var result :=
      if Truthy(state.lastOpenedFile) && state.lastOpenedDate.Some? then
        var isTheSameFile := state.lastOpenedFile == item.path;
        var dateDiff := now - state.lastOpenedDate.value;
        isTheSameFile && dateDiff < DoubleClickWindow
      else false;
    ClickOutcome(result, ClickState(item.path, Some(now)))
  }

  /** The first open ever is never a double click. */
  lemma FirstOpenIsSingle(item: FileItem, now: int)
    ensures !CheckDoubleClick(NeverOpened, item, now).doubleClick
  {
  }

  /** Opening one file twice within the window reports a double click the
      second time, whatever came before; opening another file never does. */
  lemma SecondOpenWithinWindow(state: ClickState, item: FileItem, other: FileItem, t1: int, t2: int)
    requires Truthy(item.path)
    ensures t2 - t1 < DoubleClickWindow ==>
      CheckDoubleClick(CheckDoubleClick(state, item, t1).next, item, t2).doubleClick
    ensures t2 - t1 >= DoubleClickWindow ==>
      !CheckDoubleClick(CheckDoubleClick(state, item, t1).next, item, t2).doubleClick
    ensures other.path != item.path ==>
      !CheckDoubleClick(CheckDoubleClick(state, item, t1).next, other, t2).doubleClick
  {
  }

  /** `shouldRun(item)`: `!!item && !!item.path`. */
  function ShouldRun(item: Option<FileItem>): (b: bool)
    ensures b <==> item.Some? && item.value.path.Some? && |item.value.path.value| > 0
  {
    item.Some? && Truthy(item.value.path)
  }

  datatype Opened = Opened(actions: seq<OpenAction>, next: ClickState)

  /** `getActions(item)`, given whether the item's path exists. */
  function GetActions(state: ClickState, item: Option<FileItem>, fileExists: bool, now: int): (r: Opened)
    ensures !ShouldRun(item) || !fileExists ==> r == Opened([], state)
    ensures ShouldRun(item) && fileExists ==>
      && |r.actions| == 1
      && r.actions[0].path == item.value.path.value
      && r.next == ClickState(item.value.path, Some(now))
      && (r.actions[0].preview <==>
            !(state.lastOpenedFile == item.value.path && state.lastOpenedDate.Some?
              && now - state.lastOpenedDate.value < DoubleClickWindow))
  {
    if !ShouldRun(item) then Opened([], state)
    else if !fileExists then Opened([], state)
    else
      var o := CheckDoubleClick(state, item.value, now);
      Opened([OpenAction(item.value.path.value, !o.doubleClick)], o.next)
  }

  /** `getActionsBase(ctx)` for this command: pick the target item, then
      open it if the gate lets it through. */
  function Run(state: ClickState, ctx: Actions.CommandContext<FileItem>, fileExists: bool, now: int): (r: Opened)
    ensures var item := Actions.TargetItem(ctx);
      !ShouldRun(item) || !fileExists ==> r == Opened([], state)
    ensures var item := Actions.TargetItem(ctx);
      ShouldRun(item) && fileExists ==>
        && r.actions == [OpenAction(item.value.path.value, !CheckDoubleClick(state, item.value, now).doubleClick)]
        && r.next == ClickState(item.value.path, Some(now))
  {
    var item := Actions.TargetItem(ctx);
    if ShouldRun(item) then GetActions(state, item, fileExists, now) else Opened([], state)
  }

  /** `Run` produces exactly the actions of the generic single-item rule
      with this command's gate and getter. */
  lemma RunIsActionsBase(state: ClickState, ctx: Actions.CommandContext<FileItem>, fileExists: bool, now: int)
    ensures Run(state, ctx, fileExists, now).actions
      == Actions.ActionsBase(ctx, ShouldRun, (i: Option<FileItem>) => GetActions(state, i, fileExists, now).actions)
  {
  }

  /** Opening an existing file twice within the window, starting afresh:
      the first open is a preview, the second is pinned. */
  lemma OpenTwicePins(path: string, t1: int, t2: int)
    requires path != ""
    requires t2 - t1 < DoubleClickWindow
    ensures var first := GetActions(NeverOpened, Some(FileItem(Some(path))), true, t1);
      && first.actions == [OpenAction(path, true)]
      && GetActions(first.next, Some(FileItem(Some(path))), true, t2).actions == [OpenAction(path, false)]
  {
  }

  /** The gate and the getter agree: when the file exists, `getActions`
      opens something exactly for the items `shouldRun` lets through. */
  lemma GateMatchesGetter(state: ClickState, item: Option<FileItem>, now: int)
    ensures ShouldRun(item) <==> GetActions(state, item, true, now).actions != []
  {
  }

  /** A request the gate or the existence test refuses between two opens of
      one file does not break the double click: the second open still pins
      the file. */
  lemma RefusedOpenKeepsDoubleClick(state: ClickState, path: string, refused: Option<FileItem>,
                                    refusedExists: bool, t1: int, t: int, t2: int)
    requires path != ""
    requires !ShouldRun(refused) || !refusedExists
    requires t2 - t1 < DoubleClickWindow
    ensures var first := GetActions(state, Some(FileItem(Some(path))), true, t1);
      var middle := GetActions(first.next, refused, refusedExists, t);
      && middle.actions == []
      && GetActions(middle.next, Some(FileItem(Some(path))), true, t2).actions == [OpenAction(path, false)]
  {
  }
}
