/** The action layer's pure decisions: expanding context options into a
    context-key to getter table (`prepareContextActionGetters`), and the
    choice of the one item a single-item command acts on
    (`SingleItemActionsCommand.getActionsBase`). Getters and items are
    opaque type parameters. */
module Actions {
  import opened Wrappers

  /** The context types a three-element option may name. */
  datatype ContextType = Standard | Cps | Fs

  function TypeName(t: ContextType): string
  {
    match t
    case Standard => "standard"
    case Cps => "cps"
    case Fs => "fs"
  }

  /** One option: `[context, getter]` or `[context, type, getter]`. */
  datatype GetterOption<G> =
    | AnyType(context: string, getter: G)
    | OfType(context: string, contextType: ContextType, getter: G)

  /** The context keys an option is registered under. */
  function AllowedContexts<G>(option: GetterOption<G>): seq<string>
  {
    match option
    case AnyType(c, _) => [c, c + "-standard", c + "-cps"]
    case OfType(c, t, _) => [c + "-" + TypeName(t)]
  }

  /** Every key an option registers starts with its context. A two-element
      option covers the bare context and its `standard` and `cps` variants,
      but not `fs`; a three-element option covers only its own type. */
  lemma AllowedContextsCover<G>(option: GetterOption<G>)
    ensures forall k :: k in AllowedContexts(option) ==> option.context <= k
    ensures option.AnyType? ==>
      AllowedContexts(option) == [option.context, option.context + "-" + TypeName(Standard), option.context + "-" + TypeName(Cps)]
    ensures option.AnyType? ==> option.context + "-" + TypeName(Fs) !in AllowedContexts(option)
    ensures option.OfType? ==> AllowedContexts(option) == [option.context + "-" + TypeName(option.contextType)]
  {
    var c := option.context;
    assert c + "-" + TypeName(Standard) == c + ("-" + "standard") == c + "-standard";
    assert c + "-" + TypeName(Cps) == c + ("-" + "cps") == c + "-cps";
    assert c <= c + "-standard" && c <= c + "-cps";
    if option.OfType? {
      assert c <= c + "-" + TypeName(option.contextType);
    }
    var fs := c + "-" + TypeName(Fs);
    assert |fs| == |c| + 3;
    assert |c + "-standard"| == |c| + 9 && |c + "-cps"| == |c| + 4;
  }

  /** The one-option table: each allowed context mapped to its getter. */
  function OptionTable<G>(option: GetterOption<G>): (m: map<string, G>)
    ensures forall k :: k in m <==> k in AllowedContexts(option)
    ensures forall k :: k in m ==> m[k] == option.getter
  {
    map k | k in AllowedContexts(option) :: option.getter
  }

  /** Whether option `i` registers key `k`. */
  predicate Registers<G>(options: seq<GetterOption<G>>, i: int, k: string)
  {
    0 <= i < |options| && k in AllowedContexts(options[i])
  }

  /** The last option that registers `k`, or -1 when none does. */
  function LastRegistering<G>(options: seq<GetterOption<G>>, k: string): (i: int)
    ensures -1 <= i < |options|
    ensures i >= 0 ==> Registers(options, i, k)
    ensures i >= 0 ==> forall j :: i < j < |options| ==> !Registers(options, j, k)
    ensures i == -1 <==> forall j :: 0 <= j < |options| ==> !Registers(options, j, k)
    decreases |options|
  {
    if |options| == 0 then -1
    else if k in AllowedContexts(options[|options| - 1]) then
      assert Registers(options, |options| - 1, k);
      |options| - 1
    else
      var r := LastRegistering(options[..|options| - 1], k);
      LastRegisteringSkipsLast(options, options[..|options| - 1], k, r);
      r
  }

  /** When the last option does not register `k`, the last option that
      registers it is the last one among the others. */
  lemma LastRegisteringSkipsLast<G>(options: seq<GetterOption<G>>, init: seq<GetterOption<G>>, k: string, r: int)
    requires |options| > 0 && init == options[..|options| - 1]
    requires k !in AllowedContexts(options[|options| - 1])
    requires -1 <= r < |init|
    requires r >= 0 ==> Registers(init, r, k)
    requires r >= 0 ==> forall j :: r < j < |init| ==> !Registers(init, j, k)
    requires r == -1 <==> forall j :: 0 <= j < |init| ==> !Registers(init, j, k)
    ensures r >= 0 ==> Registers(options, r, k)
    ensures r >= 0 ==> forall j :: r < j < |options| ==> !Registers(options, j, k)
    ensures r == -1 <==> forall j :: 0 <= j < |options| ==> !Registers(options, j, k)
  {
    var n := |init|;
    assert forall j :: 0 <= j < n ==> options[j] == init[j];
    assert !Registers(options, n, k);
    if r == -1 {
      forall j | 0 <= j < |options|
        ensures !Registers(options, j, k)
      {
        if j < n {
          assert !Registers(init, j, k);
        }
      }
    } else {
      assert Registers(init, r, k) && options[r] == init[r];
      assert Registers(options, r, k);
      forall j | r < j < |options|
        ensures !Registers(options, j, k)
      {
        if j < n {
          assert !Registers(init, j, k);
        }
      }
    }
  }

  /** `prepareContextActionGetters(options)`: the union of every option's
      keys, where a key registered by several options keeps the getter of
      the last one (`Object.assign` applies them in order). */
  function PrepareContextActionGetters<G>(options: seq<GetterOption<G>>): (r: map<string, G>)
    ensures |options| == 0 ==> r == map[]
    ensures forall k :: k in r <==> exists i :: 0 <= i < |options| && Registers(options, i, k)
    ensures forall k :: k in r ==> r[k] == options[LastRegistering(options, k)].getter
    decreases |options|
  {
    if |options| == 0 then map[]
    else
      var init := options[..|options| - 1];
      var last := options[|options| - 1];
      var earlier := PrepareContextActionGetters(init);
      LastOptionWins(init, last, earlier);
      assert options == init + [last];
      earlier + OptionTable(last)
  }

  lemma LastOptionWins<G>(init: seq<GetterOption<G>>, last: GetterOption<G>, earlier: map<string, G>)
    requires forall k :: k in earlier <==> exists i :: 0 <= i < |init| && Registers(init, i, k)
    requires forall k :: k in earlier ==> earlier[k] == init[LastRegistering(init, k)].getter
    ensures forall k :: k in earlier + OptionTable(last) <==>
      exists i :: 0 <= i < |init + [last]| && Registers(init + [last], i, k)
    ensures forall k :: k in earlier + OptionTable(last) ==>
      (earlier + OptionTable(last))[k] == (init + [last])[LastRegistering(init + [last], k)].getter
  {
    AppendedKeys(init, last, earlier);
    AppendedValues(init, last, earlier);
  }

  lemma AppendedKeys<G>(init: seq<GetterOption<G>>, last: GetterOption<G>, earlier: map<string, G>)
    requires forall k :: k in earlier <==> exists i :: 0 <= i < |init| && Registers(init, i, k)
    ensures forall k :: k in earlier + OptionTable(last) <==>
      exists i :: 0 <= i < |init + [last]| && Registers(init + [last], i, k)
  {
    forall k
      ensures k in earlier + OptionTable(last) <==> exists i :: 0 <= i < |init + [last]| && Registers(init + [last], i, k)
    {
      AppendedKey(init, last, earlier, k);
    }
  }

  lemma AppendedValues<G>(init: seq<GetterOption<G>>, last: GetterOption<G>, earlier: map<string, G>)
    requires forall k :: k in earlier <==> exists i :: 0 <= i < |init| && Registers(init, i, k)
    requires forall k :: k in earlier ==> earlier[k] == init[LastRegistering(init, k)].getter
    ensures forall k :: k in earlier + OptionTable(last) ==>
      (earlier + OptionTable(last))[k] == (init + [last])[LastRegistering(init + [last], k)].getter
  {
    forall k | k in earlier + OptionTable(last)
      ensures LastRegistering(init + [last], k) >= 0
      ensures (earlier + OptionTable(last))[k] == (init + [last])[LastRegistering(init + [last], k)].getter
    {
      AppendedValue(init, last, earlier, k);
    }
  }

  lemma AppendedKey<G>(init: seq<GetterOption<G>>, last: GetterOption<G>, earlier: map<string, G>, k: string)
    requires k in earlier <==> exists i :: 0 <= i < |init| && Registers(init, i, k)
    ensures k in earlier + OptionTable(last) <==>
      exists i :: 0 <= i < |init + [last]| && Registers(init + [last], i, k)
  {
    var options := init + [last];
    var n := |init|;
    if k in OptionTable(last) {
      assert Registers(options, n, k);
    } else if k in earlier {
      var i :| 0 <= i < n && Registers(init, i, k);
      assert options[i] == init[i];
      assert Registers(options, i, k);
    } else {
      forall i | 0 <= i < |options|
        ensures !Registers(options, i, k)
      {
        if i < n {
          assert options[i] == init[i];
          assert !Registers(init, i, k);
        }
      }
    }
  }

  lemma AppendedValue<G>(init: seq<GetterOption<G>>, last: GetterOption<G>, earlier: map<string, G>, k: string)
    requires k in earlier <==> exists i :: 0 <= i < |init| && Registers(init, i, k)
    requires k in earlier ==> earlier[k] == init[LastRegistering(init, k)].getter
    requires k in earlier + OptionTable(last)
    ensures LastRegistering(init + [last], k) >= 0
    ensures (earlier + OptionTable(last))[k] == (init + [last])[LastRegistering(init + [last], k)].getter
  {
    var options := init + [last];
    assert options[..|options| - 1] == init;
    assert options[|options| - 1] == last;
  }

  /** A two-element option on its own registers exactly its context and the
      `-standard` and `-cps` variants, all with its getter. */
  lemma AnyTypeOptionKeys<G>(c: string, g: G)
    ensures PrepareContextActionGetters([AnyType(c, g)]).Keys == {c, c + "-standard", c + "-cps"}
    ensures forall k :: k in PrepareContextActionGetters([AnyType(c, g)]) ==>
      PrepareContextActionGetters([AnyType(c, g)])[k] == g
  {
    var options := [AnyType(c, g)];
    assert forall k :: Registers(options, 0, k) <==> k in {c, c + "-standard", c + "-cps"};
  }

  /** A three-element option on its own registers exactly `context-type`. */
  lemma OfTypeOptionKeys<G>(c: string, t: ContextType, g: G)
    ensures PrepareContextActionGetters([OfType(c, t, g)]) == map[c + "-" + TypeName(t) := g]
  {
    var options := [OfType(c, t, g)];
    assert Registers(options, 0, c + "-" + TypeName(t));
  }

  // ---------------------------------------------------------------------
  // Single-item commands

  /** What a command receives: the clicked item and the selection, either
      of which may be undefined. */
  datatype CommandContext<I> = CommandContext(clickedItem: Option<I>, selectedItems: Option<seq<I>>)

  /** The item a single-item command acts on: the clicked item when there is
      one, otherwise the selection's only element, otherwise nothing. */
  function TargetItem<I>(ctx: CommandContext<I>): (item: Option<I>)
    ensures ctx.clickedItem.Some? ==> item == ctx.clickedItem
    ensures ctx.clickedItem.None? ==>
      (item.Some? <==> ctx.selectedItems.Some? && |ctx.selectedItems.value| == 1)
    ensures ctx.clickedItem.None? && item.Some? ==> item.value == ctx.selectedItems.value[0]
  {
    match ctx.clickedItem
    case Some(_) => ctx.clickedItem
    case None =>
      if ctx.selectedItems.Some? && |ctx.selectedItems.value| == 1 then Some(ctx.selectedItems.value[0])
      else None
  }

  /** With nothing clicked, a selection of exactly one item acts like a
      click on that item, and a selection of any other size acts like no
      selection at all; a click makes the selection irrelevant. */
  lemma SingleSelectionActsAsClick<I, A>(x: I, selection: Option<seq<I>>, many: seq<I>,
                                         shouldRun: Option<I> -> bool, getActions: Option<I> -> seq<A>)
    ensures ActionsBase(CommandContext(None, Some([x])), shouldRun, getActions)
      == ActionsBase(CommandContext(Some(x), selection), shouldRun, getActions)
    ensures ActionsBase(CommandContext(Some(x), selection), shouldRun, getActions)
      == ActionsBase(CommandContext(Some(x), None), shouldRun, getActions)
    ensures |many| != 1 ==>
      ActionsBase(CommandContext(None, Some(many)), shouldRun, getActions)
        == ActionsBase(CommandContext(None, None), shouldRun, getActions)
  {
  }

  /** `getActionsBase(ctx)`: the command's actions for the target item when
      its gate lets that item through, and none otherwise. */
  function ActionsBase<I, A>(ctx: CommandContext<I>, shouldRun: Option<I> -> bool,
                             getActions: Option<I> -> seq<A>): (r: seq<A>)
    ensures ctx.clickedItem.Some? ==>
      r == (if shouldRun(ctx.clickedItem) then getActions(ctx.clickedItem) else [])
    ensures ctx.clickedItem.None? && ctx.selectedItems.Some? && |ctx.selectedItems.value| == 1 ==>
      r == (if shouldRun(Some(ctx.selectedItems.value[0])) then getActions(Some(ctx.selectedItems.value[0])) else [])
    ensures ctx.clickedItem.None? && !(ctx.selectedItems.Some? && |ctx.selectedItems.value| == 1) ==>
      r == (if shouldRun(None) then getActions(None) else [])
  {
    var item := TargetItem(ctx);
    if shouldRun(item) then getActions(item) else []
  }
}
