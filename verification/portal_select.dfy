/** `PortalSelect`: the dropdown's open/closed state, the highlighted option
    moved by the arrow keys over enabled options, Enter/Escape, the label on
    the trigger, and closing on an outside click. */
module PortalSelect {
  import opened Common

  /** One entry of `options`; `disabled` is `false` when not given. */
  datatype Choice = Choice(value: string, caption: string, disabled: bool)

  /** `open` and `highlightedIndex` (`None` for `null`). */
  datatype SelectState = SelectState(open: bool, highlighted: Option<int>)

  /** Where the arrow-key loop leaves the highlight, or that it never ends. */
  datatype Move = Lands(index: int) | Hangs

  /** `options[next] && options[next].disabled`: an existing, disabled option. */
  predicate Blocked(options: seq<Choice>, next: int) {
    0 <= next < |options| && options[next].disabled
  }

  /** One turn of the loop: down adds one and wraps to 0, up subtracts one
      and wraps to the last index. */
  function Advance(next: int, count: nat, down: bool): int {
    if down then (if next + 1 >= count then 0 else next + 1)
    else (if next - 1 < 0 then count - 1 else next - 1)
  }

  /** The `do ... while` loop from `from`, with `fuel` further turns allowed
      before it is known to repeat itself. */
  function Walk(options: seq<Choice>, down: bool, from: int, fuel: nat): (m: Move)
    decreases fuel
  {
    var next := Advance(from, |options|, down);
    if !Blocked(options, next) then Lands(next)
    else if fuel == 0 then Hangs
    else Walk(options, down, next, fuel - 1)
  }

  /** Where each arrow key starts: the highlight, or one before the first
      (down) or one past the last (up) option. */
  function Start(options: seq<Choice>, down: bool, highlighted: Option<int>): int {
    match highlighted
    case Some(i) => i
    case None => if down then -1 else |options|
  }

  /** The arrow key's effect on the highlight; `|options|` turns are enough
      to try every option once more. */
  function ArrowMove(options: seq<Choice>, down: bool, highlighted: Option<int>): Move {
    Walk(options, down, Start(options, down, highlighted), |options|)
  }

  /** Where the loop stands after `j` turns from `from`. */
  function Visit(from: int, j: nat, count: nat, down: bool): int {
    if j == 0 then from else Advance(Visit(from, j - 1, count, down), count, down)
  }

  /** Turning once and then `j` times is turning `j + 1` times. */
  lemma {:induction false} VisitShift(from: int, j: nat, count: nat, down: bool)
    ensures Visit(Advance(from, count, down), j, count, down) == Visit(from, j + 1, count, down)
  {
    if j > 0 {
      VisitShift(from, j - 1, count, down);
    }
  }

  /** Every option the loop passes before its `j`-th turn is blocked. */
  predicate PassedBlocked(options: seq<Choice>, from: int, down: bool, j: nat) {
    forall k: nat :: 1 <= k < j ==> Blocked(options, Visit(from, k, |options|, down))
  }

  /** The loop passes the options in turn and stops at the first that is
      not blocked; when it runs out of fuel, every one it passed was blocked. */
  lemma {:induction false} WalkVisits(options: seq<Choice>, down: bool, from: int, fuel: nat)
    ensures var m := Walk(options, down, from, fuel);
      && (m.Hangs? ==> forall j: nat :: 1 <= j <= fuel + 1 ==> Blocked(options, Visit(from, j, |options|, down)))
      && (m.Lands? ==> exists j: nat :: 1 <= j <= fuel + 1 && m.index == Visit(from, j, |options|, down)
                         && !Blocked(options, m.index)
                         && PassedBlocked(options, from, down, j))
    decreases fuel
  {
    var n := |options|;
    var next := Advance(from, n, down);
    assert next == Visit(from, 1, n, down);
    if Blocked(options, next) && fuel > 0 {
      WalkVisits(options, down, next, fuel - 1);
      forall j: nat ensures Visit(next, j, n, down) == Visit(from, j + 1, n, down) {
        VisitShift(from, j, n, down);
      }
      var m := Walk(options, down, from, fuel);
      assert m == Walk(options, down, next, fuel - 1);
      if m.Lands? {
        var j: nat :| 1 <= j <= fuel && m.index == Visit(next, j, n, down) && !Blocked(options, m.index)
                 && PassedBlocked(options, next, down, j);
        assert m.index == Visit(from, j + 1, n, down);
        forall k: nat | 1 <= k < j + 1 ensures Blocked(options, Visit(from, k, n, down)) {
          if k > 1 {
            assert Visit(next, k - 1, n, down) == Visit(from, k, n, down);
          }
        }
      } else {
        forall j | 1 <= j <= fuel + 1 ensures Blocked(options, Visit(from, j, n, down)) {
          if j > 1 {
            assert Visit(next, j - 1, n, down) == Visit(from, j, n, down);
          }
        }
      }
    }
  }

  /** Inside the range where it wraps cleanly, `j` turns down from `from`
      stand at `from + j`, less the count once it has wrapped. */
  lemma {:induction false} VisitDown(from: int, j: nat, count: nat)
    requires -1 <= from < count && j <= count
    ensures Visit(from, j, count, true) == if from + j < count then from + j else from + j - count
  {
    if j > 0 {
      VisitDown(from, j - 1, count);
    }
  }

  /** `j` turns up from `from` stand at `from - j`, plus the count once it
      has wrapped. */
  lemma {:induction false} VisitUp(from: int, j: nat, count: nat)
    requires 0 <= from <= count && j <= count
    ensures Visit(from, j, count, false) == if from - j >= 0 then from - j else from - j + count
  {
    if j > 0 {
      VisitUp(from, j - 1, count);
    }
  }

  /** From the start of either key, `count` turns reach every option. */
  lemma VisitsEveryOption(from: int, count: nat, down: bool, i: int) returns (j: nat)
    requires 0 <= i < count
    requires if down then -1 <= from < count else 0 <= from <= count
    ensures 1 <= j <= count && Visit(from, j, count, down) == i
  {
    if down {
      j := if i > from then i - from else i - from + count;
      VisitDown(from, j, count);
    } else {
      j := if i < from then from - i else from - i + count;
      VisitUp(from, j, count);
    }
  }

  /** The termination fact: the arrow-key loop ends unless the options are
      all disabled, and then it never ends. An empty list ends at once. */
  lemma ArrowHangsIffAllDisabled(options: seq<Choice>, down: bool, highlighted: Option<int>)
    requires highlighted.Some? ==> 0 <= highlighted.value < |options|
    ensures ArrowMove(options, down, highlighted).Hangs?
        <==> |options| > 0 && forall i :: 0 <= i < |options| ==> options[i].disabled
  {
    var n := |options|;
    var from := Start(options, down, highlighted);
    var m := ArrowMove(options, down, highlighted);
    WalkVisits(options, down, from, n);
    assert m == Walk(options, down, from, n);
    if m.Hangs? {
      forall i | 0 <= i < n ensures options[i].disabled {
        var j := VisitsEveryOption(from, n, down, i);
        assert Blocked(options, Visit(from, j, n, down));
      }
    } else if n > 0 {
      var j: nat :| 1 <= j <= n + 1 && m.index == Visit(from, j, n, down) && !Blocked(options, m.index);
      VisitInRange(from, j, n, down);
      assert !options[m.index].disabled;
    }
  }

  /** Where an arrow key lands from a highlight inside the list: an enabled
      option, and every option passed over on the way is disabled. */
  lemma ArrowLandsOnNextEnabled(options: seq<Choice>, down: bool, highlighted: Option<int>)
    requires highlighted.Some? ==> 0 <= highlighted.value < |options|
    requires |options| > 0
    ensures var m := ArrowMove(options, down, highlighted);
      m.Lands? ==>
        (&& 0 <= m.index < |options| && !options[m.index].disabled
         && exists j: nat :: 1 <= j <= |options| + 1
              && m.index == Visit(Start(options, down, highlighted), j, |options|, down)
              && PassedBlocked(options, Start(options, down, highlighted), down, j))
  {
    var from := Start(options, down, highlighted);
    var n := |options|;
    WalkVisits(options, down, from, n);
    var m := ArrowMove(options, down, highlighted);
    assert m == Walk(options, down, from, n);
    if m.Lands? {
      var j: nat :| 1 <= j <= n + 1 && m.index == Visit(from, j, n, down) && !Blocked(options, m.index)
               && PassedBlocked(options, from, down, j);
      VisitInRange(from, j, n, down);
    }
  }

  /** From the start of either key, one to `count + 1` turns over a
      non-empty list stand on an option. */
  lemma VisitInRange(from: int, j: nat, count: nat, down: bool)
    requires count > 0 && 1 <= j <= count + 1
    requires if down then -1 <= from < count else 0 <= from <= count
    ensures 0 <= Visit(from, j, count, down) < count
  {
    var i := if j <= count then j else count;
    if down { VisitDown(from, i, count); } else { VisitUp(from, i, count); }
  }

  /** An empty list: ArrowDown highlights 0 and ArrowUp highlights -1, both
      past the options. */
  lemma ArrowOnEmptyList(highlighted: Option<int>)
    requires highlighted.None?
    ensures ArrowMove([], true, highlighted) == Lands(0)
    ensures ArrowMove([], false, highlighted) == Lands(-1)
  {
  }

  /** The component's loop, run as written; it is given only lists on which
      it ends. */
  method ArrowLoop(options: seq<Choice>, down: bool, highlighted: Option<int>) returns (next: int)
    requires highlighted.Some? ==> 0 <= highlighted.value < |options|
    requires |options| == 0 || exists i :: 0 <= i < |options| && !options[i].disabled
    ensures ArrowMove(options, down, highlighted) == Lands(next)
    ensures |options| > 0 ==> 0 <= next < |options| && !options[next].disabled
  {
    ArrowHangsIffAllDisabled(options, down, highlighted);
    if |options| > 0 {
      ArrowLandsOnNextEnabled(options, down, highlighted);
    }
    var target := ArrowMove(options, down, highlighted);
    var from := Start(options, down, highlighted);
    ghost var fuel: nat := |options|;
    next := Advance(from, |options|, down);
    while 0 <= next < |options| && options[next].disabled
      invariant Walk(options, down, from, fuel) == target
      invariant next == Advance(from, |options|, down)
      decreases fuel
    {
      from := next;
      fuel := fuel - 1;
      next := Advance(from, |options|, down);
    }
  }

  // ---------------------------------------------------------------- events

  /** The keys the handler tells apart. */
  datatype Key = Escape | ArrowDown | ArrowUp | Enter | OtherKey

  /** The state after an event and the value passed to `onChange`, if any;
      `Frozen` is the arrow loop that never returns. */
  datatype Reaction = Reaction(state: SelectState, emitted: Option<string>) | Frozen

  function OnKey(options: seq<Choice>, s: SelectState, key: Key): (r: Reaction)
    ensures !s.open ==> r == Reaction(s, None)
    ensures s.open && key == Escape ==> r == Reaction(s.(open := false), None)
    ensures r.Reaction? && r.emitted.Some? ==>
      s.open && key == Enter && s.highlighted.Some? && 0 <= s.highlighted.value < |options|
      && !options[s.highlighted.value].disabled
      && r.emitted.value == options[s.highlighted.value].value && !r.state.open
    ensures s.open && (key == ArrowDown || key == ArrowUp) ==>
      (r.Frozen? <==> ArrowMove(options, key == ArrowDown, s.highlighted).Hangs?)
    ensures s.open && (key == ArrowDown || key == ArrowUp) && ArrowMove(options, key == ArrowDown, s.highlighted).Lands?
            ==> r == Reaction(s.(highlighted := Some(ArrowMove(options, key == ArrowDown, s.highlighted).index)), None)
    ensures r.Reaction? && (key == ArrowDown || key == ArrowUp) ==> r.state.open == s.open
  {
    if !s.open then Reaction(s, None)
    else match key
      case Escape => Reaction(s.(open := false), None)
      case ArrowDown =>
        (match ArrowMove(options, true, s.highlighted)
         case Lands(i) => Reaction(s.(highlighted := Some(i)), None)
         case Hangs => Frozen)
      case ArrowUp =>
        (match ArrowMove(options, false, s.highlighted)
         case Lands(i) => Reaction(s.(highlighted := Some(i)), None)
         case Hangs => Frozen)
      case Enter =>
        (match s.highlighted
         case Some(i) =>
           if 0 <= i < |options| && !options[i].disabled then Reaction(s.(open := false), Some(options[i].value))
           else Reaction(s, None)
         case None => Reaction(s, None))
      case OtherKey => Reaction(s, None)
  }

  /** On an open list with an enabled option, an arrow key keeps the list
      open, emits nothing, and moves the highlight onto an enabled option. */
  lemma ArrowHighlightsEnabled(options: seq<Choice>, s: SelectState, key: Key)
    requires s.open && (key == ArrowDown || key == ArrowUp)
    requires s.highlighted.Some? ==> 0 <= s.highlighted.value < |options|
    requires exists i :: 0 <= i < |options| && !options[i].disabled
    ensures var r := OnKey(options, s, key);
      && r.Reaction? && r.emitted.None? && r.state.open
      && r.state.highlighted.Some? && 0 <= r.state.highlighted.value < |options|
      && !options[r.state.highlighted.value].disabled
  {
    ArrowHangsIffAllDisabled(options, key == ArrowDown, s.highlighted);
    ArrowLandsOnNextEnabled(options, key == ArrowDown, s.highlighted);
  }

  /** Enter selects exactly when the highlight is an enabled option. */
  lemma EnterSelectsIffEnabled(options: seq<Choice>, s: SelectState)
    requires s.open
    ensures var r := OnKey(options, s, Enter);
      r.Reaction? && (r.emitted.Some? <==> s.highlighted.Some? && 0 <= s.highlighted.value < |options|
                                           && !options[s.highlighted.value].disabled)
    ensures var r := OnKey(options, s, Enter);
      r.emitted.None? ==> r.state == s
  {
  }

  /** `onMouseEnter` on the option at `idx`. The options are on screen only
      while the list is open, and the handler highlights the option without
      looking at `disabled`. */
  function Hover(options: seq<Choice>, s: SelectState, idx: int): (r: SelectState)
    requires 0 <= idx < |options|
    ensures !s.open ==> r == s
    ensures s.open ==> r.open && r.highlighted == Some(idx)
  {
    if s.open then s.(highlighted := Some(idx)) else s
  }

  /** Enter after hovering an option picks it exactly when it is enabled,
      and picking closes the list. */
  lemma HoverThenEnter(options: seq<Choice>, s: SelectState, idx: int)
    requires s.open && 0 <= idx < |options|
    ensures var r := OnKey(options, Hover(options, s, idx), Enter);
      && r.Reaction?
      && (r.emitted.Some? <==> !options[idx].disabled)
      && (r.emitted.Some? ==> r.emitted.value == options[idx].value && !r.state.open)
      && (r.emitted.None? ==> r.state == Hover(options, s, idx))
  {
    EnterSelectsIffEnabled(options, Hover(options, s, idx));
  }

  /** `options.findIndex(o => o.value === value)`. */
  function FindIndex(options: seq<Choice>, value: Option<string>): (r: Option<int>)
    ensures r.Some? ==> 0 <= r.value < |options| && Some(options[r.value].value) == value
                        && forall j :: 0 <= j < r.value ==> Some(options[j].value) != value
    ensures r.None? ==> forall j :: 0 <= j < |options| ==> Some(options[j].value) != value
  {
    if options == [] then None
    else if Some(options[0].value) == value then Some(0)
    else match FindIndex(options[1..], value)
      case Some(k) => Some(k + 1)
      case None => None
  }

  /** The label on the trigger: the matching option's label, or the
      placeholder when none matches or its label is empty. */
  function SelectedLabel(options: seq<Choice>, value: Option<string>, placeholder: string): (r: string)
    ensures FindIndex(options, value).None? ==> r == placeholder
    ensures FindIndex(options, value).Some? ==>
      var c := options[FindIndex(options, value).value].caption;
      r == if c != "" then c else placeholder
  {
    match FindIndex(options, value)
    case Some(i) => if options[i].caption != "" then options[i].caption else placeholder
    case None => placeholder
  }

  /** `handleToggle`, together with the effect that highlights the current
      value whenever the popup opens. */
  function Toggle(options: seq<Choice>, value: Option<string>, disabled: bool, s: SelectState): (r: SelectState)
    ensures disabled ==> r == s
    ensures !disabled ==> r.open == !s.open
    ensures !disabled && !s.open ==> r.highlighted == FindIndex(options, value)
    ensures !disabled && s.open ==> r.highlighted == s.highlighted
  {
    if disabled then s
    else if s.open then s.(open := false)
    else SelectState(true, FindIndex(options, value))
  }

  /** `handleSelect`: a click on an enabled option reports it and closes. */
  function Select(s: SelectState, opt: Choice): (r: Reaction)
    ensures r.Reaction?
    ensures opt.disabled <==> r.emitted.None?
    ensures opt.disabled ==> r.state == s
    ensures !opt.disabled ==> r.emitted == Some(opt.value) && !r.state.open
  {
    if opt.disabled then Reaction(s, None) else Reaction(s.(open := false), Some(opt.value))
  }

  /** Where a `mousedown` lands. */
  datatype Target = InTrigger | InPopup | Elsewhere

  function OnMouseDown(s: SelectState, t: Target): (r: SelectState)
    ensures r.open <==> s.open && t != Elsewhere
    ensures r.highlighted == s.highlighted
  {
    if s.open && t == Elsewhere then s.(open := false) else s
  }

  /** Opening highlights the current value, and a press of Enter right
      after reports that same value back. */
  lemma OpenThenEnterKeepsValue(options: seq<Choice>, value: Option<string>, s: SelectState)
    requires !s.open
    requires FindIndex(options, value).Some? && !options[FindIndex(options, value).value].disabled
    ensures var shown := Toggle(options, value, false, s);
      var r := OnKey(options, shown, Enter);
      r.Reaction? && r.emitted == value && !r.state.open
  {
  }
}
