/** The curses checklist used to choose albums (spelt/picker.py), with the terminal taken
    away: a picker is an immutable `State`, one key press is the pure transition `Step`,
    and what `redraw` shows is a set of functions of the state. */
module Picker {
  import opened Common
  import Text

  /** Class constant `window_height`: the viewport shows rows 0 .. WindowHeight. */
  const WindowHeight: int := 15

  /** One entry of `all_options`, the dictionary `{"label": ..., "selected": ...}`. */
  datatype Choice = Choice(text: string, selected: bool)

  datatype State = State(
    options: seq<Choice>,
    cursor: int,    // viewport row of the highlighted option
    offset: int,    // index of the option shown on the first row
    selected: int,  // absolute index of the highlighted option, recomputed after each key
    selcount: int,  // checked-option count shown in the title bar
    aborted: bool)

  datatype Key = Quit | Up | Down | Toggle | Accept | Other

  /** What `curses_loop` does with one key: keep looping, leave the loop, or raise
      (`all_options[selected]` on an empty list is an IndexError). */
  datatype Outcome = Running(state: State) | Done(state: State) | Crashed

  /** `get_selected()`: `False` after a cancel, otherwise the checked labels. */
  datatype Selection = Cancelled | Chosen(labels: seq<string>)

  /** `curses.KEY_UP` and `curses.KEY_DOWN` in ncurses. */
  const KeyUp: int := 259
  const KeyDown: int := 258

  /** The `getch` codes `curses_loop` distinguishes (`KEY_UP`/`KEY_DOWN` are the ncurses values). */
  function KeyOf(code: int): (r: Key)
    ensures r == Quit <==> code == 'q' as int || code == 'Q' as int
    ensures r == Toggle <==> code == ' ' as int
    ensures r == Accept <==> code == '\n' as int
    ensures r == Up <==> code == KeyUp
    ensures r == Down <==> code == KeyDown
  {
    if code == 113 || code == 81 then Quit        // 'q', 'Q'
    else if code == 259 then Up
    else if code == 258 then Down
    else if code == 32 then Toggle                // ' '
    else if code == 10 then Accept                // Enter
    else Other
  }

  function LabelOf(c: Choice): string { c.text }

  function IsChecked(c: Choice): bool { c.selected }

  function Labels(options: seq<Choice>): seq<string> {
    Map(LabelOf, options)
  }

  /** The list `get_selected` builds when not aborted. */
  function CheckedLabels(options: seq<Choice>): seq<string> {
    Map(LabelOf, Filter(IsChecked, options))
  }

  /** Every state the loop can be in between two key presses. */
  predicate Valid(s: State) {
    && !s.aborted
    && s.selected == s.cursor + s.offset
    && s.selcount == |CheckedLabels(s.options)|
    && if s.options == [] then -1 <= s.cursor <= 0 && s.offset == 0
       else
         && 0 <= s.cursor <= WindowHeight
         && 0 <= s.offset
         && s.selected < |s.options|
         && (s.offset > 0 ==> s.offset + WindowHeight < |s.options|)
  }

  /** `Picker.__init__` before the loop starts. */
  function Init(labels: seq<string>): (r: State)
    ensures Valid(r)
    ensures Labels(r.options) == labels
    ensures forall i :: 0 <= i < |r.options| ==> !r.options[i].selected
    ensures r.cursor == 0 && r.offset == 0
  {
    var options := Map((l: string) => Choice(l, false), labels);
    assert Filter(IsChecked, options) == [] by {
      FilterNone(options);
    }
    assert Labels(options) == labels;
    State(options, 0, 0, 0, 0, false)
  }

  lemma {:induction false} FilterNone(options: seq<Choice>)
    requires forall i :: 0 <= i < |options| ==> !options[i].selected
    ensures Filter(IsChecked, options) == []
    decreases |options|
  {
    if options != [] {
      FilterNone(options[1..]);
    }
  }

  /** `check_cursor_up`. */
  function CheckCursorUp(s: State): (r: State)
    ensures r.(cursor := s.cursor, offset := s.offset) == s
    ensures 0 <= r.cursor && (s.cursor < 0 || r.cursor == s.cursor)
    ensures s.offset - 1 <= r.offset <= s.offset
    ensures r.offset < s.offset ==> s.cursor < 0 && 0 <= r.offset
  {
    if s.cursor < 0 then
      s.(cursor := 0, offset := if s.offset > 0 then s.offset - 1 else s.offset)
    else s
  }

  /** `check_cursor_down`. */
  function CheckCursorDown(s: State): (r: State)
    ensures r.(cursor := s.cursor, offset := s.offset) == s
    ensures r.cursor <= s.cursor && r.cursor <= WindowHeight
    ensures s.offset <= r.offset <= s.offset + 1
    ensures s.cursor < |s.options| && s.cursor <= WindowHeight ==> r == s
  {
    var s1 := if s.cursor >= |s.options| then s.(cursor := s.cursor - 1) else s;
    if s1.cursor > WindowHeight then
      var s2 := s1.(cursor := WindowHeight, offset := s1.offset + 1);
      if s2.offset + s2.cursor >= |s2.options| then s2.(offset := s2.offset - 1) else s2
    else s1
  }

  /** The tail of one loop iteration: clamp, then recompute `selected` and `selcount`. */
  function Settle(s: State): (r: State)
    ensures r.options == s.options && r.aborted == s.aborted
    ensures r.cursor <= WindowHeight
    ensures r.selected == r.cursor + r.offset
    ensures r.selcount == |CheckedLabels(s.options)|
  {
    var t := CheckCursorDown(CheckCursorUp(s));
    t.(selected := t.cursor + t.offset, selcount := |CheckedLabels(t.options)|)
  }

  /** Negates the flag of option `i`. */
  function Flip(options: seq<Choice>, i: int): seq<Choice>
    requires 0 <= i < |options|
  {
    options[i := options[i].(selected := !options[i].selected)]
  }

  /** Clamping leaves an unmoved valid state as it is (an empty list parks the cursor on -1). */
  lemma SettleKeeps(s: State)
    requires Valid(s)
    ensures Valid(Settle(s)) && Settle(s).options == s.options
    ensures s.options != [] ==> Settle(s) == s
  {
  }

  /** Clamping after `cursor -= 1`. */
  lemma SettleAfterUp(s: State)
    requires Valid(s)
    ensures var t := Settle(s.(cursor := s.cursor - 1));
      && Valid(t) && t.options == s.options
      && (s.options != [] ==>
            && (s.cursor == 0 ==> t.cursor == 0 && t.offset == (if s.offset > 0 then s.offset - 1 else 0))
            && (s.cursor > 0 ==> t.cursor == s.cursor - 1 && t.offset == s.offset))
  {
    var u := CheckCursorUp(s.(cursor := s.cursor - 1));
    if s.options != [] {
      assert CheckCursorDown(u) == u;
    }
  }

  /** Clamping after `cursor += 1`. */
  lemma SettleAfterDown(s: State)
    requires Valid(s)
    ensures var t := Settle(s.(cursor := s.cursor + 1));
      && Valid(t) && t.options == s.options
      && (s.options != [] ==>
            && (s.cursor == WindowHeight ==>
                  t.cursor == WindowHeight &&
                  t.offset == (if s.selected == |s.options| - 1 then s.offset else s.offset + 1))
            && (s.cursor < WindowHeight ==>
                  t.offset == s.offset &&
                  t.cursor == (if s.selected + 1 < |s.options| then s.cursor + 1 else s.cursor)))
  {
    var u := s.(cursor := s.cursor + 1);
    assert CheckCursorUp(u) == u;
  }

  /** Flipping one flag keeps every label. */
  lemma FlipKeepsLabels(options: seq<Choice>, i: int)
    requires 0 <= i < |options|
    ensures Labels(Flip(options, i)) == Labels(options)
  {
    assert forall k :: 0 <= k < |options| ==> Flip(options, i)[k].text == options[k].text;
  }

  /** Clamping after Space flips the highlighted option: nothing moves. */
  lemma SettleAfterFlip(s: State)
    requires Valid(s) && s.options != []
    ensures var t := Settle(s.(options := Flip(s.options, s.selected)));
      && Valid(t) && t.options == Flip(s.options, s.selected)
      && t.cursor == s.cursor && t.offset == s.offset
      && Labels(t.options) == Labels(s.options)
  {
    FlipKeepsLabels(s.options, s.selected);
  }

  /** The option `all_options[selected]` names: Python counts a negative index from the end. */
  function OptionIndex(s: State): (r: Option<nat>)
    ensures r.Some? <==> -|s.options| <= s.selected < |s.options|
    ensures r.Some? ==> r.value < |s.options| && r.value % |s.options| == s.selected % |s.options|
  {
    if 0 <= s.selected < |s.options| then Some(s.selected)
    else if -|s.options| <= s.selected < 0 then Some(s.selected + |s.options|)
    else None
  }

  /** One iteration of `curses_loop`, from the key press to the recount. */
  function Step(s: State, key: Key): (r: Outcome)
    ensures r.Crashed? <==> (key == Toggle && OptionIndex(s).None?) ||
                            (s.aborted && key != Quit && key != Accept)
    ensures r.Done? <==> key == Quit || key == Accept
    ensures r.Done? ==> r.state.aborted == (key == Quit || s.aborted) && r.state.options == s.options
    ensures !r.Crashed? ==> Labels(r.state.options) == Labels(s.options)
  {
    if key == Quit then Done(s.(aborted := true))
    else if key == Accept then Done(s)
    else if s.aborted then Crashed  // the recount takes `len(False)`
    else if key == Up then Running(Settle(s.(cursor := s.cursor - 1)))
    else if key == Down then Running(Settle(s.(cursor := s.cursor + 1)))
    else if key == Toggle then
      match OptionIndex(s)
      case None => Crashed
      case Some(i) =>
        FlipKeepsLabels(s.options, i);
        Running(Settle(s.(options := Flip(s.options, i))))
    else Running(Settle(s))
  }

  /** From a valid state, Space crashes exactly on an empty list, and a running result is
      valid again. */
  lemma StepKeepsValid(s: State, key: Key)
    requires Valid(s)
    ensures Step(s, key).Crashed? <==> key == Toggle && s.options == []
    ensures Step(s, key).Running? ==> Valid(Step(s, key).state)
    ensures Step(s, key).Done? ==> Step(s, key).state.aborted == (key == Quit)
  {
    match key
    case Up => SettleAfterUp(s);
    case Down => SettleAfterDown(s);
    case Other => SettleKeeps(s);
    case Toggle =>
      if s.options != [] {
        assert OptionIndex(s) == Some(s.selected);
        SettleAfterFlip(s);
      }
    case Quit =>
    case Accept =>
  }

  /** The loop over a sequence of key presses; `Running` when the keys run out before
      Enter or `q` (the real loop would wait for the next key). */
  function Run(s: State, keys: seq<Key>): (r: Outcome)
    ensures !r.Crashed? ==> Labels(r.state.options) == Labels(s.options)
    decreases |keys|
  {
    if keys == [] then Running(s)
    else
      match Step(s, keys[0])
      case Running(t) => Run(t, keys[1..])
      case Done(t) => Done(t)
      case Crashed => Crashed
  }

  /** From a valid state, the loop only ever rests in valid states, and it finishes either
      cancelled or valid. */
  lemma {:induction false} RunKeepsValid(s: State, keys: seq<Key>)
    requires Valid(s)
    ensures Run(s, keys).Running? ==> Valid(Run(s, keys).state)
    ensures Run(s, keys).Done? ==> Run(s, keys).state.aborted || Valid(Run(s, keys).state)
    decreases |keys|
  {
    if keys != [] {
      StepKeepsValid(s, keys[0]);
      if Step(s, keys[0]).Running? {
        RunKeepsValid(Step(s, keys[0]).state, keys[1..]);
      }
    }
  }

  /** `get_selected`. */
  function GetSelected(s: State): (r: Selection)
    ensures r.Cancelled? <==> s.aborted
    ensures r.Chosen? ==> IsSubsequence(r.labels, Labels(s.options))
    ensures r.Chosen? ==> forall i :: 0 <= i < |s.options| && s.options[i].selected ==>
                            s.options[i].text in r.labels
    ensures r.Chosen? ==> forall k :: 0 <= k < |r.labels| ==>
                            exists i :: 0 <= i < |s.options| && s.options[i].selected &&
                                        s.options[i].text == r.labels[k]
    ensures r.Chosen? ==> exists kept: seq<Choice> :: IsSubsequence(kept, s.options) &&
                            (forall k :: 0 <= k < |kept| ==> kept[k].selected) &&
                            |kept| == multiset(Map(IsChecked, s.options))[true] &&
                            r.labels == Map(LabelOf, kept)
  {
    if s.aborted then Cancelled
    else
      CheckedLabelsSound(s.options);
      CheckedLabelsWitness(s.options);
      Chosen(CheckedLabels(s.options))
  }

  /** Every ticked row's label is reported, and every reported label is a ticked row's. */
  lemma CheckedLabelsSound(options: seq<Choice>)
    ensures IsSubsequence(CheckedLabels(options), Labels(options))
    ensures forall i :: 0 <= i < |options| && options[i].selected ==>
              options[i].text in CheckedLabels(options)
    ensures forall k :: 0 <= k < |CheckedLabels(options)| ==>
              exists i :: 0 <= i < |options| && options[i].selected &&
                          options[i].text == CheckedLabels(options)[k]
  {
    var kept := Filter(IsChecked, options);
    FilterMembers(IsChecked, options);
    FilterIsSubsequence(IsChecked, options);
    MapIsSubsequence(LabelOf, kept, options);
    forall i | 0 <= i < |options| && options[i].selected
      ensures options[i].text in CheckedLabels(options)
    {
      assert IsChecked(options[i]);
      var j :| 0 <= j < |kept| && kept[j] == options[i];
      assert CheckedLabels(options)[j] == options[i].text;
    }
    assert forall k :: 0 <= k < |kept| ==> kept[k] in options && kept[k].selected;
  }

  /** The reported labels are those of the ticked rows, in order, one per ticked row. */
  lemma CheckedLabelsWitness(options: seq<Choice>)
    ensures exists kept: seq<Choice> :: IsSubsequence(kept, options) &&
              (forall k :: 0 <= k < |kept| ==> kept[k].selected) &&
              |kept| == multiset(Map(IsChecked, options))[true] &&
              CheckedLabels(options) == Map(LabelOf, kept)
  {
    var kept := Filter(IsChecked, options);
    FilterIsSubsequence(IsChecked, options);
    FilterLength(IsChecked, options);
    assert forall k :: 0 <= k < |kept| ==> IsChecked(kept[k]);
  }

  // ----- what `redraw` shows -----

  /** The rows drawn: `all_options[offset:offset + window_height + 1]`. */
  function Visible(s: State): (r: seq<Choice>)
    ensures 0 <= s.offset ==> |r| <= WindowHeight + 1
    ensures 0 <= s.offset ==> forall i :: 0 <= i < |r| ==>
              s.offset + i < |s.options| && r[i] == s.options[s.offset + i]
    ensures 0 <= s.offset <= |s.options| ==>
              |r| == WindowHeight + 1 || s.offset + |r| == |s.options|
  {
    Text.PySlice(s.options, s.offset, s.offset + WindowHeight + 1)
  }

  /** The "..." hint above the first row. */
  predicate MoreAbove(s: State) {
    s.offset > 0
  }

  /** The "..." hint below the last row. */
  predicate MoreBelow(s: State) {
    s.offset + WindowHeight <= |s.options| - 2
  }

  /** The " selcount/length " counter in the top border. */
  function Counter(s: State): string {
    Text.IntToString(s.selcount) + "/" + Text.IntToString(|s.options|)
  }

  /** The counter splits at its only `/` into the checked count and the option count. */
  lemma CounterReadsBack(s: State)
    requires Valid(s)
    ensures var c := Counter(s);
      var k := Text.Find(c, "/");
      && 0 <= k
      && Text.ParseInt(c[..k]) == Some(s.selcount)
      && Text.ParseInt(c[k + 1..]) == Some(|s.options|)
  {
    var a := Text.IntToString(s.selcount);
    var b := Text.IntToString(|s.options|);
    var c := Counter(s);
    assert c == a + "/" + b;
    forall i | 0 <= i < |a|
      ensures !Text.OccursAt(c, "/", i)
    {
      Text.OccursAtChar(c, '/', i);
      assert c[i] == a[i];
    }
    Text.OccursAtChar(c, '/', |a|);
    Text.FindIsFirst(c, "/", |a|);
    assert c[..|a|] == a && c[|a| + 1..] == b;
    Text.IntToStringRoundTrip(s.selcount);
    Text.IntToStringRoundTrip(|s.options|);
  }

  // ----- properties -----

  /** The arrow is drawn next to the highlighted option, which is the one Space toggles. */
  lemma HighlightIsVisible(s: State)
    requires Valid(s) && s.options != []
    ensures s.cursor < |Visible(s)|
    ensures Visible(s)[s.cursor] == s.options[s.selected]
  {
  }

  /** The hints appear exactly when some option lies outside the drawn rows. */
  lemma HintsMatchHiddenOptions(s: State)
    requires Valid(s)
    ensures MoreAbove(s) <==> s.options[..s.offset] != []
    ensures MoreBelow(s) <==> s.offset + |Visible(s)| < |s.options|
  {
  }

  /** Once the list has scrolled, every row of the viewport is in use. */
  lemma ScrolledViewportIsFull(s: State)
    requires Valid(s) && MoreAbove(s)
    ensures |Visible(s)| == WindowHeight + 1
  {
  }

  /** The counter shows the number of checked options. */
  lemma SelcountCountsChecked(s: State)
    requires Valid(s)
    ensures s.selcount == multiset(Map(IsChecked, s.options))[true]
  {
    FilterLength(IsChecked, s.options);
  }

  /** The arrow keys move the cursor by one, then clamp. */
  lemma StepMoves(s: State)
    requires Valid(s)
    ensures Step(s, Up) == Running(Settle(s.(cursor := s.cursor - 1)))
    ensures Step(s, Down) == Running(Settle(s.(cursor := s.cursor + 1)))
  {
  }

  /** Up moves the highlight one option back, scrolling at the top row, never before 0. */
  lemma UpMovesBack(s: State)
    requires Valid(s) && s.options != []
    ensures Step(s, Up).Running?
    ensures var t := Step(s, Up).state;
      && t.options == s.options
      && t.selected == (if s.selected > 0 then s.selected - 1 else 0)
      && (s.cursor == 0 ==> t.cursor == 0 && t.offset == (if s.offset > 0 then s.offset - 1 else 0))
      && (s.cursor > 0 ==> t.cursor == s.cursor - 1 && t.offset == s.offset)
  {
    SettleAfterUp(s);
    StepMoves(s);
    var t := Settle(s.(cursor := s.cursor - 1));
    assert t.selected == t.cursor + t.offset;
  }

  /** Down moves the highlight one option forward, scrolling at the bottom row, never
      past the last option. */
  lemma DownMovesForward(s: State)
    requires Valid(s) && s.options != []
    ensures Step(s, Down).Running?
    ensures var t := Step(s, Down).state;
      && t.options == s.options
      && t.selected == (if s.selected + 1 < |s.options| then s.selected + 1 else s.selected)
      && (s.cursor == WindowHeight ==>
            t.cursor == WindowHeight &&
            t.offset == (if s.selected == |s.options| - 1 then s.offset else s.offset + 1))
      && (s.cursor < WindowHeight ==> t.offset == s.offset)
  {
    SettleAfterDown(s);
    StepMoves(s);
    var t := Settle(s.(cursor := s.cursor + 1));
    assert t.selected == t.cursor + t.offset;
  }

  /** Space flips the flag of the highlighted option and nothing else. */
  lemma ToggleFlipsOne(s: State)
    requires Valid(s) && s.options != []
    ensures Step(s, Toggle).Running?
    ensures var t := Step(s, Toggle).state;
      && |t.options| == |s.options|
      && t.cursor == s.cursor && t.offset == s.offset && t.selected == s.selected
      && t.options[s.selected].text == s.options[s.selected].text
      && t.options[s.selected].selected == !s.options[s.selected].selected
      && forall i :: 0 <= i < |s.options| && i != s.selected ==> t.options[i] == s.options[i]
  {
  }

  /** Pressing Space twice on the same option restores the picker exactly. */
  lemma ToggleTwiceRestores(s: State)
    requires Valid(s) && s.options != []
    ensures Step(s, Toggle).Running?
    ensures Step(Step(s, Toggle).state, Toggle) == Running(s)
  {
    ToggleFlipsOne(s);
    var t := Step(s, Toggle).state;
    ToggleFlipsOne(t);
    var u := Step(t, Toggle).state;
    assert u.options == s.options;
  }

  lemma {:induction false} FilterOnlyOne(options: seq<Choice>, k: int)
    requires 0 <= k < |options|
    requires forall i :: 0 <= i < |options| ==> options[i].selected == (i == k)
    ensures Filter(IsChecked, options) == [options[k]]
    decreases |options|
  {
    if k == 0 {
      FilterNone(options[1..]);
    } else {
      FilterOnlyOne(options[1..], k - 1);
    }
  }

  /** With one option checked, the selection is its label alone. */
  lemma OnlyOneChecked(options: seq<Choice>, k: int)
    requires 0 <= k < |options|
    requires forall i :: 0 <= i < |options| ==> options[i].selected == (i == k)
    ensures CheckedLabels(options) == [options[k].text]
  {
    FilterOnlyOne(options, k);
  }

  /** On a fresh picker, Down, Space, Enter chooses exactly the second label. */
  lemma PickSecond(labels: seq<string>)
    requires |labels| >= 2
    ensures Run(Init(labels), [Down, Toggle, Accept]).Done?
    ensures GetSelected(Run(Init(labels), [Down, Toggle, Accept]).state) == Chosen([labels[1]])
  {
    var s0 := Init(labels);
    DownMovesForward(s0);
    var s1 := Step(s0, Down).state;
    assert s1.selected == 1 && s1.options == s0.options;
    ToggleFlipsOne(s1);
    var s2 := Step(s1, Toggle).state;
    assert forall i :: 0 <= i < |s2.options| ==> s2.options[i].selected == (i == 1);
    assert s2.options[1].text == labels[1] by {
      assert Labels(s0.options)[1] == labels[1];
    }
    assert Run(s2, [Accept]) == Done(s2);
    assert [Toggle, Accept][1..] == [Accept];
    assert Run(s1, [Toggle, Accept]) == Run(s2, [Accept]);
    assert [Down, Toggle, Accept][1..] == [Toggle, Accept];
    assert Run(s0, [Down, Toggle, Accept]) == Run(s1, [Toggle, Accept]);
    OnlyOneChecked(s2.options, 1);
    assert !s2.aborted;
    assert GetSelected(s2) == Chosen([labels[1]]);
  }

  /** Picking from A, B, C with Down, Space, Enter yields B. */
  lemma PickSecondOfThree(labels: seq<string>)
    requires labels == ["A", "B", "C"]
    ensures Run(Init(labels), [Down, Toggle, Accept]).Done?
    ensures GetSelected(Run(Init(labels), [Down, Toggle, Accept]).state) == Chosen(["B"])
  {
    PickSecond(labels);
  }

  /** Cancelling is reported apart from accepting with nothing checked. */
  lemma CancelIsNotEmptyChoice(labels: seq<string>)
    ensures Run(Init(labels), [Quit]).Done?
    ensures GetSelected(Run(Init(labels), [Quit]).state) == Cancelled
    ensures GetSelected(Run(Init(labels), [Accept]).state) == Chosen([])
  {
    var s0 := Init(labels);
    FilterNone(s0.options);
    assert [Quit][1..] == [] && [Accept][1..] == [];
  }
}
