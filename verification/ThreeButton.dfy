/** The emulation of a middle button by a chord of the outer two: moused's states table and
    r_statetrans. */
module ThreeButton {

  const MAX_MOVE: nat := 3

  /** Which of the three buttons are reported down. */
  datatype Buttons = Buttons(b1: bool, b2: bool, b3: bool)

  /** A row of the table: the next state on input none, button 3, button 1, both, timeout. */
  datatype Row = Row(next: seq<nat>, buttons: Buttons)

  type Input = i: nat | i < 5
  const NONE: Input := 0
  const B3: Input := 1
  const B1: Input := 2
  const BOTH: Input := 3
  const TIMEOUT: Input := 4

  type St = s: nat | s < 10

  function Table(s: St): (row: Row)
    ensures |row.next| == 5 && forall i :: 0 <= i < 5 ==> row.next[i] < 10
  {
    match s
    case 0 => Row([0, 2, 1, 3, 0], Buttons(false, false, false))
    case 1 => Row([4, 2, 1, 3, 5], Buttons(false, false, false))
    case 2 => Row([8, 2, 1, 3, 6], Buttons(false, false, false))
    case 3 => Row([0, 9, 9, 3, 3], Buttons(false, true, false))
    case 4 => Row([0, 2, 1, 3, 0], Buttons(true, false, false))
    case 5 => Row([0, 2, 5, 7, 5], Buttons(true, false, false))
    case 6 => Row([0, 6, 1, 7, 6], Buttons(false, false, true))
    case 7 => Row([0, 6, 5, 7, 7], Buttons(true, false, true))
    case 8 => Row([0, 2, 1, 3, 0], Buttons(false, false, true))
    case _ => Row([0, 9, 9, 3, 9], Buttons(false, false, false))
  }

  function Next(s: St, trans: Input): St {
    Table(s).next[trans]
  }

  function Reported(s: St): Buttons {
    Table(s).buttons
  }

  /** S_DELAYED: a button event is held back in this state. */
  predicate Delayed(s: St) {
    Next(s, TIMEOUT) != s
  }

  /** One call of r_statetrans: the input, and whether it comes with movement. */
  datatype Event = Event(trans: Input, moves: bool)

  datatype Machine = Machine(state: St, moveDelayed: nat)

  /** The machine after an event, and whether the event's movement is thrown away. */
  function Step(m: Machine, e: Event): (Machine, bool) {
    if e.moves && Delayed(Next(m.state, e.trans)) then
      if m.moveDelayed + 1 > MAX_MOVE then (Machine(Next(Next(m.state, TIMEOUT), e.trans), 0), false)
      else (Machine(Next(m.state, e.trans), m.moveDelayed + 1), true)
    else (Machine(Next(m.state, e.trans), 0), false)
  }

  class Emulator {
    var state: St
    var moveDelayed: nat
    var reported: Buttons

    ghost function Now(): Machine
      reads this
    {
      Machine(state, moveDelayed)
    }

    constructor ()
      ensures Now() == Machine(0, 0)
    {
      state, moveDelayed, reported := 0, 0, Buttons(false, false, false);
    }

    /** r_statetrans; dx and dy are what is left of the movement. */
    method Transition(trans: Input, dx: int, dy: int) returns (changed: bool, dx': int, dy': int)
      modifies this
      ensures Now() == Step(old(Now()), Event(trans, dx != 0 || dy != 0)).0
      ensures (dx', dy') == if Step(old(Now()), Event(trans, dx != 0 || dy != 0)).1 then (0, 0) else (dx, dy)
      ensures reported == Reported(state)
      ensures changed <==> (state != old(state) ||
        ((dx != 0 || dy != 0) && Delayed(Next(old(state), trans)) && old(moveDelayed) >= MAX_MOVE))
    {
      dx', dy', changed := dx, dy, false;
      if (dx != 0 || dy != 0) && Delayed(Next(state, trans)) {
        moveDelayed := moveDelayed + 1;
        if moveDelayed > MAX_MOVE {
          moveDelayed := 0;
          state := Next(state, TIMEOUT);
          changed := true;
        } else {
          dx', dy' := 0, 0;
        }
      } else {
        moveDelayed := 0;
      }
      if state != Next(state, trans) {
        changed := true;
      }
      state := Next(state, trans);
      reported := Reported(state);
    }
  }

  // ---------- Runs ----------

  function After(m: Machine, es: seq<Event>): Machine {
    if es == [] then m else Step(After(m, es[..|es| - 1]), es[|es| - 1]).0
  }

  const REST: Machine := Machine(0, 0)

  /** The last input that was not a timeout; none before the first. */
  function LastInput(es: seq<Event>): Input {
    if es == [] then NONE
    else if es[|es| - 1].trans != TIMEOUT then es[|es| - 1].trans
    else LastInput(es[..|es| - 1])
  }

  /** The states in which the buttons of an input are physically down. */
  predicate Matches(s: St, input: Input) {
    match input
    case 0 => s in {0, 4, 8}
    case 1 => s in {2, 6, 9}
    case 2 => s in {1, 5, 9}
    case 3 => s in {3, 7}
    case _ => false
  }

  /** In every run the state matches the last physical input, and button 2 is reported exactly in the
      chord state. */
  lemma {:induction false} StateMatchesInput(es: seq<Event>)
    ensures Matches(After(REST, es).state, LastInput(es))
    ensures Reported(After(REST, es).state).b2 <==> After(REST, es).state == 3
  {
    if es != [] {
      StateMatchesInput(es[..|es| - 1]);
    }
  }

  /** The chord state is entered exactly by both buttons while neither is reported on its own. */
  lemma ChordEntered(m: Machine, e: Event)
    ensures e.trans != TIMEOUT && !(e.moves && Delayed(Next(m.state, e.trans))) ==>
      (Step(m, e).0.state == 3 <==> e.trans == BOTH && m.state !in {5, 6, 7})
  {
  }

  /** Two inputs with all buttons up, with any timeouts between and after, lead back to rest. */
  lemma {:induction false} AllUpRests(m: Machine, moves1: bool, waits1: seq<Event>, moves2: bool, waits2: seq<Event>)
    requires forall w :: w in waits1 + waits2 ==> w.trans == TIMEOUT
    ensures var up := [Event(NONE, moves1)] + waits1;
      After(After(After(m, up), [Event(NONE, moves2)]), waits2).state == 0
  {
    var up := [Event(NONE, moves1)] + waits1;
    var m1 := After(m, [Event(NONE, moves1)]);
    AfterOne(m, Event(NONE, moves1));
    assert m1.state in {0, 4, 8};
    AfterAppend(m, [Event(NONE, moves1)], waits1);
    assert forall w :: w in waits1 ==> w in waits1 + waits2;
    WaitsKeepUp(m1, waits1);
    var m2 := After(After(m, up), [Event(NONE, moves2)]);
    AfterOne(After(m, up), Event(NONE, moves2));
    assert m2.state == 0;
    assert forall w :: w in waits2 ==> w in waits1 + waits2;
    WaitsKeepUp(m2, waits2);
  }

  lemma AfterOne(m: Machine, e: Event)
    ensures After(m, [e]) == Step(m, e).0
  {
    assert [e][..0] == [];
  }

  lemma {:induction false} AfterAppend(m: Machine, a: seq<Event>, b: seq<Event>)
    ensures After(m, a + b) == After(After(m, a), b)
  {
    if b == [] {
      assert a + b == a;
    } else {
      AfterAppend(m, a, b[..|b| - 1]);
      assert (a + b)[..|a + b| - 1] == a + b[..|b| - 1];
    }
  }

  lemma {:induction false} WaitsKeepUp(m: Machine, waits: seq<Event>)
    requires m.state in {0, 4, 8} && forall w :: w in waits ==> w.trans == TIMEOUT
    ensures After(m, waits).state in {0, 4, 8} && (m.state == 0 ==> After(m, waits).state == 0)
  {
    if waits != [] {
      assert waits[|waits| - 1] in waits;
      WaitsKeepUp(m, waits[..|waits| - 1]);
    }
  }

  // ---------- What is reported, from the history of inputs ----------

  function LastOf(inputs: seq<Input>): Input {
    if inputs == [] then NONE
    else if inputs[|inputs| - 1] != TIMEOUT then inputs[|inputs| - 1]
    else LastOf(inputs[..|inputs| - 1])
  }

  /** Both buttons have been down together, with neither reported on its own, since all were up. */
  predicate Chorded(inputs: seq<Input>)
    decreases |inputs|
  {
    inputs != [] &&
    var was, input := inputs[..|inputs| - 1], inputs[|inputs| - 1];
    input != NONE && (Chorded(was) || (input == BOTH && !Over(B1, was) && !Over(B3, was)))
  }

  /** The button has been held long enough: a timeout came while it was down alone and no chord had been
      entered. From then on it stays so while it is down, and a button joining it is so at once. */
  predicate Over(b: Input, inputs: seq<Input>)
    decreases |inputs|
  {
    inputs != [] &&
    var was, input := inputs[..|inputs| - 1], inputs[|inputs| - 1];
    || (input == TIMEOUT && (Over(b, was) || (LastOf(was) == b && !Chorded(was))))
    || (input == BOTH && (Over(B1, was) || Over(B3, was)))
    || (input == b && Over(b, was))
  }

  /** The button is down alone and its press is held back. */
  predicate Pressed(b: Input, inputs: seq<Input>) {
    LastOf(inputs) == b && !Chorded(inputs) && !Over(b, inputs)
  }

  /** The last input released a button whose press was held back. */
  predicate JustReleased(b: Input, inputs: seq<Input>) {
    inputs != [] && inputs[|inputs| - 1] == NONE && Pressed(b, inputs[..|inputs| - 1])
  }

  predicate Shown(b: Input, inputs: seq<Input>) {
    Over(b, inputs) || JustReleased(b, inputs)
  }

  predicate ShownMiddle(inputs: seq<Input>) {
    Chorded(inputs) && LastOf(inputs) == BOTH
  }

  /** A press or a click is held back. */
  predicate Waits(inputs: seq<Input>) {
    Pressed(B1, inputs) || Pressed(B3, inputs) || JustReleased(B1, inputs) || JustReleased(B3, inputs)
  }

  /** The inputs of a run with the timeouts that movement forces: the fourth movement in a row that comes while
      something is held back. */
  function Taken(es: seq<Event>): seq<Input> {
    if es == [] then []
    else
      var front, e := es[..|es| - 1], es[|es| - 1];
      Taken(front)
      + (if e.moves && Waits(Taken(front) + [e.trans]) && Dropped(front) == 3 then [TIMEOUT] else [])
      + [e.trans]
  }

  /** How many events in a row have lost their movement. */
  function Dropped(es: seq<Event>): nat {
    if es == [] then 0
    else
      var front, e := es[..|es| - 1], es[|es| - 1];
      if e.moves && Waits(Taken(front) + [e.trans]) && Dropped(front) < 3 then Dropped(front) + 1 else 0
  }

  /** The state that a history leads to: for no button down a click held back or rest, for one the chord's rest,
      the button over its delay or not, for both the chord or both buttons. */
  function StateOf(inputs: seq<Input>): St {
    match LastOf(inputs)
    case 0 => if JustReleased(B1, inputs) then 4 else if JustReleased(B3, inputs) then 8 else 0
    case 1 => if Chorded(inputs) then 9 else if Over(B3, inputs) then 6 else 2
    case 2 => if Chorded(inputs) then 9 else if Over(B1, inputs) then 5 else 1
    case _ => if Chorded(inputs) then 3 else 7
  }

  /** A button over its delay is down, there has been no chord, and of both neither or both are. */
  lemma {:induction false} HistoryFits(inputs: seq<Input>)
    ensures LastOf(inputs) != TIMEOUT
    ensures Over(B1, inputs) ==> LastOf(inputs) in {B1, BOTH} && !Chorded(inputs)
    ensures Over(B3, inputs) ==> LastOf(inputs) in {B3, BOTH} && !Chorded(inputs)
    ensures LastOf(inputs) == BOTH && !Chorded(inputs) ==> Over(B1, inputs) && Over(B3, inputs)
    ensures LastOf(inputs) == NONE ==> !Chorded(inputs)
  {
    if inputs != [] { HistoryFits(inputs[..|inputs| - 1]); }
  }

  /** One more input moves the state as the table says. */
  lemma StateOfNext(was: seq<Input>, input: Input)
    ensures StateOf(was + [input]) == Next(StateOf(was), input)
  {
    var now := was + [input];
    assert now[..|now| - 1] == was;
    HistoryFits(was);
    HistoryFits(now);
  }

  /** What the states report, and which of them hold something back. */
  lemma StateReports(inputs: seq<Input>)
    ensures Reported(StateOf(inputs)) == Buttons(Shown(B1, inputs), ShownMiddle(inputs), Shown(B3, inputs))
    ensures Delayed(StateOf(inputs)) <==> Waits(inputs)
  {
    HistoryFits(inputs);
  }

  lemma {:induction false} RunState(es: seq<Event>)
    ensures After(REST, es) == Machine(StateOf(Taken(es)), Dropped(es)) && Dropped(es) <= 3
  {
    if es != [] {
      var front, e := es[..|es| - 1], es[|es| - 1];
      RunState(front);
      var was := Taken(front);
      StateOfNext(was, e.trans);
      StateReports(was + [e.trans]);
      StateOfNext(was, TIMEOUT);
      StateOfNext(was + [TIMEOUT], e.trans);
      assert was + [TIMEOUT] + [e.trans] == was + ([TIMEOUT] + [e.trans]);
      assert was + [] == was;
    }
  }

  /** In every run, from the inputs alone: button 1 and likewise 3 is reported exactly when it has been held
      long enough and no chord came before, or right after a press was released that had been held back;
      button 2 exactly while both are down in a chord. */
  lemma ReportsExactly(es: seq<Event>)
    ensures Reported(After(REST, es).state) ==
      Buttons(Shown(B1, Taken(es)), ShownMiddle(Taken(es)), Shown(B3, Taken(es)))
    ensures After(REST, es).moveDelayed == Dropped(es)
  {
    RunState(es);
    StateReports(Taken(es));
  }

  /** Once the chord has been entered, neither outer button is reported until all buttons are up. */
  lemma {:induction false} ChordSilences(es: seq<Event>, more: seq<Event>)
    requires After(REST, es).state == 3 && forall e :: e in more ==> e.trans != NONE
    ensures Chorded(Taken(es + more))
    ensures var r := Reported(After(REST, es + more).state); !r.b1 && !r.b3
  {
    if more == [] {
      assert es + more == es;
      RunState(es);
      HistoryFits(Taken(es));
    } else {
      var front, e := more[..|more| - 1], more[|more| - 1];
      assert (es + more)[..|es + more| - 1] == es + front && e in more;
      ChordSilences(es, front);
      var was := Taken(es + front);
      ChordStays(was, TIMEOUT);
      ChordStays(was, e.trans);
      ChordStays(was + [TIMEOUT], e.trans);
      assert was + [TIMEOUT] + [e.trans] == was + ([TIMEOUT] + [e.trans]);
      assert was + [] == was;
    }
    ReportsExactly(es + more);
    HistoryFits(Taken(es + more));
    NotReleased(Taken(es + more));
  }

  lemma ChordStays(was: seq<Input>, input: Input)
    requires Chorded(was) && input != NONE
    ensures Chorded(was + [input])
  {
    assert (was + [input])[..|was|] == was;
  }

  lemma NotReleased(inputs: seq<Input>)
    requires Chorded(inputs)
    ensures !JustReleased(B1, inputs) && !JustReleased(B3, inputs)
  {
  }

  // ---------- Movement ----------

  /** Whether event k of a run loses its movement. */
  function Discarded(m: Machine, es: seq<Event>, k: nat): bool
    requires k < |es|
  {
    Step(After(m, es[..k]), es[k]).1
  }

  /** The counter never exceeds three, and counts the discards since the last event that kept or
      had no movement; so of four events in a row at most three lose their movement. */
  lemma {:induction false} DiscardsCounted(es: seq<Event>, k: nat)
    requires k < |es|
    ensures After(REST, es[..k]).moveDelayed <= MAX_MOVE
    ensures After(REST, es[..k + 1]).moveDelayed ==
      if Discarded(REST, es, k) then After(REST, es[..k]).moveDelayed + 1 else 0
  {
    assert es[..k + 1][..k] == es[..k];
    if k > 0 {
      DiscardsCounted(es, k - 1);
    } else {
      assert es[..0] == [];
    }
  }

  lemma AtMostThreeDiscarded(es: seq<Event>, k: nat)
    requires k + 3 < |es|
    ensures exists j :: k <= j <= k + 3 && !Discarded(REST, es, j)
  {
    DiscardsCounted(es, k);
    DiscardsCounted(es, k + 1);
    DiscardsCounted(es, k + 2);
    DiscardsCounted(es, k + 3);
  }

  // ---------- A lone click ----------

  /** An outer button, the state in which its press is delayed and the one in which it is down. */
  predicate Outer(b: Input) { b == B1 || b == B3 }

  function DelayedState(b: Input): St
    requires Outer(b)
  {
    if b == B1 then 1 else 2
  }

  function DownState(b: Input): St
    requires Outer(b)
  {
    if b == B1 then 5 else 6
  }

  predicate ReportsDown(b: Input, s: St)
    requires Outer(b)
  {
    if b == B1 then Reported(s).b1 else Reported(s).b3
  }

  /** The button pressed from rest, held through `hold`, and released. */
  ghost predicate LoneClick(b: Input, press: Event, hold: seq<Event>, release: Event) {
    && Outer(b) && press.trans == b && release.trans == NONE
    && forall h :: h in hold ==> h.trans == b || h.trans == TIMEOUT
  }

  /** Some state of the run reports the button down. */
  predicate Clicked(b: Input, es: seq<Event>)
    requires Outer(b)
  {
    es != [] && (Clicked(b, es[..|es| - 1]) || ReportsDown(b, After(REST, es).state))
  }

  /** While held, the button is either still delayed or reported. */
  lemma {:induction false} Holding(b: Input, press: Event, hold: seq<Event>, release: Event)
    requires LoneClick(b, press, hold, release)
    ensures var m := After(REST, [press] + hold);
      && m.state == (if Clicked(b, [press] + hold) then DownState(b) else DelayedState(b))
      && m.moveDelayed <= MAX_MOVE
  {
    var es := [press] + hold;
    if hold == [] {
      assert es == [press] && es[..0] == [];
    } else {
      var front, last := hold[..|hold| - 1], hold[|hold| - 1];
      assert last in hold && es[..|es| - 1] == [press] + front;
      Holding(b, press, front, release);
      var m := After(REST, [press] + front);
      assert After(REST, es) == Step(m, last).0;
    }
  }

  /** A lone click of an outer button is reported down at least once, except when it was still
      delayed and the release itself comes with the fourth movement in a row: then it is lost. */
  lemma ClickReported(b: Input, press: Event, hold: seq<Event>, release: Event)
    requires LoneClick(b, press, hold, release)
    ensures var m := After(REST, [press] + hold);
      Clicked(b, [press] + hold + [release]) <==>
        !(m.state == DelayedState(b) && m.moveDelayed == MAX_MOVE && release.moves)
  {
    var es := [press] + hold;
    var all := es + [release];
    Holding(b, press, hold, release);
    assert all[..|all| - 1] == es;
    assert After(REST, all) == Step(After(REST, es), release).0;
  }

  /** Such a lost click: three movements while the button is delayed, and one with the release. */
  lemma LostClick()
    ensures var move := Event(B1, true);
      LoneClick(B1, Event(B1, false), [move, move, move], Event(NONE, true)) &&
      !Clicked(B1, [Event(B1, false), move, move, move, Event(NONE, true)])
  {
    var press, move, release := Event(B1, false), Event(B1, true), Event(NONE, true);
    var hold := [move, move, move];
    var es := [press] + hold;
    assert es == [press, move, move, move];
    assert es[..3] == [press, move, move] && es[..3][..2] == [press, move] && [press, move][..1] == [press];
    AfterOne(REST, press);
    assert After(REST, [press, move]) == Machine(1, 1);
    assert After(REST, es[..3]) == Machine(1, 2);
    assert After(REST, es) == Machine(1, 3);
    ClickReported(B1, press, hold, release);
    assert es + [release] == [press, move, move, move, release];
  }
}
