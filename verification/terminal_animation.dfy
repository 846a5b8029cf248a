/**
 The typing animation of the hero terminal: a fixed script of segments is revealed
 one unit of work per scheduled callback. The mutable closure variables of the
 page script (`lineIndex`, `charIndex`, `currentSpan`) become an immutable `State`,
 the callback becomes the pure function `Step`, and `setTimeout` becomes the
 optional delay `Step` returns.
 */
module TerminalAnimation {
  import opened Wrappers

  /** The styling tag of a typed segment; its span gets the class `terminal-<kind>`. */
  datatype Kind = Prompt | Command | Output

  /** One entry of the script. Only typed segments carry text and a delay;
      a missing delay and a zero delay behave alike (both are falsy). */
  datatype Segment =
    | Newline
    | Text(kind: Kind, text: string, delay: Option<nat>)

  /** What a step does to the terminal. Closing a span is not an action:
      the engine merely forgets the span, which stays in the terminal. */
  datatype Action = OpenSpan(kind: Kind) | AppendChar(c: char) | LineBreak

  /** The closure variables of the animation; `spanOpen` says whether
      `currentSpan` is non-null. */
  datatype State = State(lineIndex: nat, charIndex: nat, spanOpen: bool)

  /** One callback's outcome: the new state, the surface actions in order,
      and the delay of the next callback, if one is scheduled. */
  datatype StepResult = StepResult(state: State, actions: seq<Action>, next: Option<nat>)

  const Initial: State := State(0, 0, false)

  const StartDelay: nat := 500
  const NewlineDelay: nat := 100
  const DefaultCharDelay: nat := 30
  const SegmentEndDelay: nat := 200

  /** The script the hero terminal plays. */
  const HeroScript: seq<Segment> := [
    Text(Prompt, "$ ", None),
    Text(Command, "mkunit service myapp --exec \"./server\" --restart on-failure --install", Some(50)),
    Newline,
    Text(Output, "Created myapp.service", Some(20)),
    Newline,
    Text(Output, "Installed to ~/.config/systemd/user/myapp.service", Some(20)),
    Newline,
    Text(Output, "Run: systemctl --user start myapp", Some(20))
  ]

  /** The pause after typing one character: the segment's own delay when it is
      truthy, the default otherwise. */
  function CharDelay(delay: Option<nat>): (r: nat)
    ensures r > 0
    ensures delay.Some? && delay.value > 0 ==> r == delay.value
    ensures delay.None? || delay.value == 0 ==> r == DefaultCharDelay
  {
    if delay.Some? && delay.value != 0 then delay.value else DefaultCharDelay
  }

  /** Number of scheduled steps a segment takes from its start: one per
      character plus the closing step, or one for a line break. */
  function Cost(seg: Segment): nat
  {
    match seg
    case Newline => 1
    case Text(_, text, _) => |text| + 1
  }

  /** Number of scheduled steps the segments from index `i` on take. */
  function SuffixCost(script: seq<Segment>, i: nat): nat
    decreases |script| - i
  {
    if i >= |script| then 0 else Cost(script[i]) + SuffixCost(script, i + 1)
  }

  /** Steps still to be scheduled from `st`: what is left of the current
      segment plus all later segments. From a reachable state it is exactly
      the number of delays the run will still schedule. */
  function Remaining(script: seq<Segment>, st: State): nat
  {
    if st.lineIndex >= |script| then 0
    else
      var here :=
        match script[st.lineIndex]
        case Newline => 1
        case Text(_, text, _) => (if st.charIndex < |text| then |text| - st.charIndex else 0) + 1;
      here + SuffixCost(script, st.lineIndex + 1)
  }

  /** The states the animation can reach from `Initial`: the segment index
      stays within bounds, a span is open exactly while some characters of the
      current segment have been typed, and only on a typed segment whose text
      the character index has not passed. In particular no span is open on a
      line-break segment or past the end. */
  predicate Inv(script: seq<Segment>, st: State)
  {
    && st.lineIndex <= |script|
    && (st.spanOpen <==> st.charIndex > 0)
    && (st.spanOpen ==>
          && st.lineIndex < |script|
          && script[st.lineIndex].Text?
          && st.charIndex <= |script[st.lineIndex].text|)
  }

  /** Characters of the current segment not yet typed. */
  function CharsLeft(script: seq<Segment>, st: State): nat
  {
    if st.lineIndex < |script| && script[st.lineIndex].Text? && st.charIndex < |script[st.lineIndex].text|
    then |script[st.lineIndex].text| - st.charIndex
    else 0
  }

  /** A successor state is closer to the end of the script: either it moved
      to a later segment, or it stayed on the segment with fewer characters
      left to type. */
  predicate Advances(script: seq<Segment>, st: State, st': State)
  {
    && st'.lineIndex <= |script|
    && (|| st'.lineIndex > st.lineIndex
        || (st'.lineIndex == st.lineIndex && CharsLeft(script, st') < CharsLeft(script, st)))
  }

  /** One callback of the animation. Its properties are stated by the
      `Step…` lemmas below. */
  function Step(script: seq<Segment>, st: State): StepResult
  {
    if st.lineIndex >= |script| then StepResult(st, [], None)
    else
      match script[st.lineIndex]
      case Newline =>
        StepResult(st.(lineIndex := st.lineIndex + 1), [LineBreak], Some(NewlineDelay))
      case Text(kind, text, delay) =>
        var opening := if st.spanOpen then [] else [OpenSpan(kind)];
        if st.charIndex < |text| then
          StepResult(State(st.lineIndex, st.charIndex + 1, true),
                     opening + [AppendChar(text[st.charIndex])],
                     Some(CharDelay(delay)))
        else
          StepResult(State(st.lineIndex + 1, 0, false), opening, Some(SegmentEndDelay))
  }

  /** Everything one run does from `st` on: the actions of all steps in order,
      the delays each step scheduled, and the state the last (stopping) step saw. */
  datatype Trace = Trace(actions: seq<Action>, delays: seq<nat>, final: State)

  /** Drive the callbacks until one schedules nothing. */
  function Run(script: seq<Segment>, st: State): (t: Trace)
    ensures t.final.lineIndex >= |script|
    ensures t.delays == [] <==> st.lineIndex >= |script|
    decreases |script| - st.lineIndex, CharsLeft(script, st)
  {
    var r := Step(script, st);
    StepAdvances(script, st);
    match r.next
    case None => Trace(r.actions, [], r.state)
    case Some(d) =>
      var rest := Run(script, r.state);
      Trace(r.actions + rest.actions, [d] + rest.delays, rest.final)
  }

  /** A step schedules a successor exactly when the script is not exhausted;
      the delay it schedules is positive and the successor is strictly closer
      to the end, so the chain of callbacks ends. This holds from every
      state, reachable or not. */
  lemma StepAdvances(script: seq<Segment>, st: State)
    ensures Step(script, st).next.None? <==> st.lineIndex >= |script|
    ensures Step(script, st).next.Some? ==> Step(script, st).next.value > 0
    ensures Step(script, st).next.Some? ==> Advances(script, st, Step(script, st).state)
  {
  }

  /** Every step keeps a reachable state reachable. */
  lemma StepPreservesInv(script: seq<Segment>, st: State)
    requires Inv(script, st)
    ensures Inv(script, Step(script, st).state)
  {
  }

  /** From a reachable state, every step that schedules a successor uses up
      exactly one of the remaining steps. */
  lemma StepCountsDown(script: seq<Segment>, st: State)
    requires Inv(script, st)
    requires st.lineIndex < |script|
    ensures Step(script, st).next.Some?
    ensures Remaining(script, Step(script, st).state) + 1 == Remaining(script, st)
  {
  }

  /** A run from a reachable state schedules exactly `Remaining` delays and
      ends with the script exhausted, no span open and the character index
      back at zero. */
  lemma {:induction false} RunEnds(script: seq<Segment>, st: State)
    requires Inv(script, st)
    ensures |Run(script, st).delays| == Remaining(script, st)
    ensures Run(script, st).final == State(|script|, 0, false)
    decreases |script| - st.lineIndex, CharsLeft(script, st)
  {
    var r := Step(script, st);
    if st.lineIndex < |script| {
      StepPreservesInv(script, st);
      StepCountsDown(script, st);
      RunEnds(script, r.state);
    }
  }

  /** The run stops at the first callback that finds the script exhausted:
      it changes nothing and schedules nothing. */
  lemma StepPastEnd(script: seq<Segment>, st: State)
    requires st.lineIndex >= |script|
    ensures Step(script, st) == StepResult(st, [], None)
  {
  }

  /** A line-break segment inserts exactly one break, moves to the next segment,
      keeps the (closed) span and character index, and waits 100 ms. */
  lemma StepNewline(script: seq<Segment>, st: State)
    requires Inv(script, st)
    requires st.lineIndex < |script| && script[st.lineIndex].Newline?
    ensures Step(script, st) == StepResult(State(st.lineIndex + 1, 0, false), [LineBreak], Some(100))
  {
  }

  /** While characters remain, a typed segment opens its span if none is open,
      appends exactly the next character, and waits for the segment's delay. */
  lemma StepTypesChar(script: seq<Segment>, st: State)
    requires st.lineIndex < |script| && script[st.lineIndex].Text?
    requires st.charIndex < |script[st.lineIndex].text|
    ensures var seg := script[st.lineIndex];
            var r := Step(script, st);
            && r.actions == (if st.spanOpen then [] else [OpenSpan(seg.kind)]) + [AppendChar(seg.text[st.charIndex])]
            && r.state == State(st.lineIndex, st.charIndex + 1, true)
            && r.state.charIndex <= |seg.text|
            && r.next == Some(if seg.delay.Some? && seg.delay.value != 0 then seg.delay.value else 30)
  {
  }

  /** Once the text is typed, the span is forgotten, the character index reset,
      the next segment selected, and the pause is 200 ms. An empty segment opens
      its span in this very step, so it leaves one empty span behind. */
  lemma StepClosesSegment(script: seq<Segment>, st: State)
    requires Inv(script, st)
    requires st.lineIndex < |script| && script[st.lineIndex].Text?
    requires st.charIndex == |script[st.lineIndex].text|
    ensures var r := Step(script, st);
            && r.actions == (if st.spanOpen then [] else [OpenSpan(script[st.lineIndex].kind)])
            && r.state == State(st.lineIndex + 1, 0, false)
            && r.next == Some(200)
            && (script[st.lineIndex].text == "" ==> r.actions == [OpenSpan(script[st.lineIndex].kind)])
  {
  }

  /** Every run starts inside the invariant. */
  lemma InitialInv(script: seq<Segment>)
    ensures Inv(script, Initial)
    ensures Remaining(script, Initial) == SuffixCost(script, 0)
  {
  }
}
