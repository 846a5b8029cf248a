/**
 A reference description of a whole animation run, written segment by segment
 without any state, and the proof that the step-by-step engine produces
 exactly it: the same surface actions in the same order, and the same delays.
 */
module TerminalTrace {
  import opened TerminalAnimation

  /** Appending the characters of `text` from index `from` on, in order. */
  function Typed(text: string, from: nat): seq<Action>
    decreases |text| - from
  {
    if from >= |text| then [] else [AppendChar(text[from])] + Typed(text, from + 1)
  }

  /** `n` copies of the delay `d`. */
  function Repeat(d: nat, n: nat): seq<nat>
  {
    if n == 0 then [] else [d] + Repeat(d, n - 1)
  }

  /** What playing one segment does to the terminal: a line break, or a new
      span of the segment's kind followed by its characters. */
  function SegmentActions(seg: Segment): seq<Action>
  {
    match seg
    case Newline => [LineBreak]
    case Text(kind, text, _) => [OpenSpan(kind)] + Typed(text, 0)
  }

  /** The delays playing one segment schedules: one after each character and
      one after the segment, or one after a line break. */
  function SegmentDelays(seg: Segment): seq<nat>
  {
    match seg
    case Newline => [NewlineDelay]
    case Text(_, text, delay) => Repeat(CharDelay(delay), |text|) + [SegmentEndDelay]
  }

  function ScriptActions(script: seq<Segment>): seq<Action>
  {
    if script == [] then [] else SegmentActions(script[0]) + ScriptActions(script[1..])
  }

  function ScriptDelays(script: seq<Segment>): seq<nat>
  {
    if script == [] then [] else SegmentDelays(script[0]) + ScriptDelays(script[1..])
  }

  /** A run that has not reached the end is its first step followed by the
      run from the state that step leaves. */
  lemma RunUnfold(script: seq<Segment>, st: State)
    requires st.lineIndex < |script|
    ensures var r := Step(script, st);
            && r.next.Some?
            && Run(script, st).actions == r.actions + Run(script, r.state).actions
            && Run(script, st).delays == [r.next.value] + Run(script, r.state).delays
  {
    StepAdvances(script, st);
  }

  /** From `st`, inside a typed segment, the run opens the segment's span if
      it is not open yet, types the characters left, and continues with the
      run from the start of the next segment. */
  predicate FinishesSegment(script: seq<Segment>, st: State)
    requires st.lineIndex < |script| && script[st.lineIndex].Text?
  {
    Run(script, st).actions
    == (if st.spanOpen then [] else [OpenSpan(script[st.lineIndex].kind)])
       + Typed(script[st.lineIndex].text, st.charIndex)
       + Run(script, State(st.lineIndex + 1, 0, false)).actions
  }

  /** Along the same stretch, each character left is followed by the
      segment's delay, and the segment's end by 200 ms. */
  predicate PacesSegment(script: seq<Segment>, st: State)
    requires st.lineIndex < |script| && script[st.lineIndex].Text?
    requires st.charIndex <= |script[st.lineIndex].text|
  {
    Run(script, st).delays
    == Repeat(CharDelay(script[st.lineIndex].delay), |script[st.lineIndex].text| - st.charIndex)
       + [SegmentEndDelay]
       + Run(script, State(st.lineIndex + 1, 0, false)).delays
  }

  /** From any reachable state inside a typed segment, the run finishes that
      segment as `FinishesSegment` and `PacesSegment` describe. */
  lemma {:induction false} TypingRun(script: seq<Segment>, st: State)
    requires Inv(script, st)
    requires st.lineIndex < |script| && script[st.lineIndex].Text?
    ensures FinishesSegment(script, st)
    ensures PacesSegment(script, st)
    decreases |script[st.lineIndex].text| - st.charIndex
  {
    if st.charIndex < |script[st.lineIndex].text| {
      TypingRun(script, State(st.lineIndex, st.charIndex + 1, true));
      TypeOneChar(script, st);
      PaceOneChar(script, st);
    } else {
      CloseSegment(script, st);
    }
  }

  /** The inductive step of `TypingRun` for the actions: one character typed. */
  lemma TypeOneChar(script: seq<Segment>, st: State)
    requires st.lineIndex < |script| && script[st.lineIndex].Text?
    requires st.charIndex < |script[st.lineIndex].text|
    requires FinishesSegment(script, State(st.lineIndex, st.charIndex + 1, true))
    ensures FinishesSegment(script, st)
  {
    var text := script[st.lineIndex].text;
    var c := st.charIndex;
    var opening := if st.spanOpen then [] else [OpenSpan(script[st.lineIndex].kind)];
    var x := AppendChar(text[c]);
    var r := Step(script, st);
    var tail := Typed(text, c + 1);
    var rest := Run(script, State(st.lineIndex + 1, 0, false)).actions;
    RunUnfold(script, st);
    StepTypesChar(script, st);
    assert Run(script, r.state).actions == tail + rest;
    Regroup(opening, [x], tail, rest);
  }

  /** The inductive step of `TypingRun` for the delays. */
  lemma PaceOneChar(script: seq<Segment>, st: State)
    requires st.lineIndex < |script| && script[st.lineIndex].Text?
    requires st.charIndex < |script[st.lineIndex].text|
    requires PacesSegment(script, State(st.lineIndex, st.charIndex + 1, true))
    ensures PacesSegment(script, st)
  {
    RunUnfold(script, st);
    StepTypesChar(script, st);
  }

  /** The base case of `TypingRun`: the closing step of a typed segment. */
  lemma CloseSegment(script: seq<Segment>, st: State)
    requires Inv(script, st)
    requires st.lineIndex < |script| && script[st.lineIndex].Text?
    requires st.charIndex >= |script[st.lineIndex].text|
    ensures FinishesSegment(script, st)
    ensures PacesSegment(script, st)
  {
    var seg := script[st.lineIndex];
    var opening := if st.spanOpen then [] else [OpenSpan(seg.kind)];
    var next := State(st.lineIndex + 1, 0, false);
    RunUnfold(script, st);
    StepClosesSegment(script, st);
    assert Run(script, st).actions == opening + Run(script, next).actions;
    assert Typed(seg.text, st.charIndex) == [];
    assert opening + [] == opening;
    assert Run(script, st).delays == [SegmentEndDelay] + Run(script, next).delays;
    assert Repeat(CharDelay(seg.delay), 0) == [];
  }

  lemma Regroup<T>(a: seq<T>, b: seq<T>, c: seq<T>, d: seq<T>)
    ensures (a + b) + (c + d) == a + (b + c) + d
  {
  }

  /** A line-break segment contributes one break and a 100 ms pause. */
  lemma BreakLine(script: seq<Segment>, i: nat)
    requires i < |script| && script[i].Newline?
    ensures Run(script, State(i, 0, false)).actions == [LineBreak] + Run(script, State(i + 1, 0, false)).actions
    ensures Run(script, State(i, 0, false)).delays == [NewlineDelay] + Run(script, State(i + 1, 0, false)).delays
  {
    StepNewline(script, State(i, 0, false));
    RunUnfold(script, State(i, 0, false));
  }

  /** From the start of segment `i`, the run emits exactly the reference
      actions and delays of the segments from `i` on. */
  lemma {:induction false} RunFrom(script: seq<Segment>, i: nat)
    requires i <= |script|
    ensures Run(script, State(i, 0, false)).actions == ScriptActions(script[i..])
    ensures Run(script, State(i, 0, false)).delays == ScriptDelays(script[i..])
    decreases |script| - i
  {
    if i < |script| {
      assert script[i..][1..] == script[i + 1..];
      RunFrom(script, i + 1);
      if script[i].Newline? {
        BreakLine(script, i);
      } else {
        TypingRun(script, State(i, 0, false));
      }
    }
  }

  /** Run to completion from the initial state emits the script, segment by
      segment, schedules its delays in order, and ends past the last segment
      with no span open. */
  lemma RunEmitsScript(script: seq<Segment>)
    ensures Run(script, Initial).actions == ScriptActions(script)
    ensures Run(script, Initial).delays == ScriptDelays(script)
    ensures Run(script, Initial).final == State(|script|, 0, false)
  {
    RunFrom(script, 0);
    assert script[0..] == script;
    InitialInv(script);
    RunEnds(script, Initial);
  }

  /** The characters appended, in order. */
  function Chars(actions: seq<Action>): string
  {
    if actions == [] then []
    else (if actions[0].AppendChar? then [actions[0].c] else []) + Chars(actions[1..])
  }

  function LineBreaks(actions: seq<Action>): nat
  {
    if actions == [] then 0
    else (if actions[0].LineBreak? then 1 else 0) + LineBreaks(actions[1..])
  }

  /** The texts of the typed segments, concatenated in script order. */
  function ScriptText(script: seq<Segment>): string
  {
    if script == [] then []
    else (if script[0].Text? then script[0].text else []) + ScriptText(script[1..])
  }

  function NewlineCount(script: seq<Segment>): nat
  {
    if script == [] then 0
    else (if script[0].Newline? then 1 else 0) + NewlineCount(script[1..])
  }

  lemma {:induction false} CharsAppend(a: seq<Action>, b: seq<Action>)
    ensures Chars(a + b) == Chars(a) + Chars(b)
    decreases |a|
  {
    if a == [] {
      assert a + b == b;
    } else {
      assert (a + b)[0] == a[0];
      assert (a + b)[1..] == a[1..] + b;
      CharsAppend(a[1..], b);
    }
  }

  lemma {:induction false} LineBreaksAppend(a: seq<Action>, b: seq<Action>)
    ensures LineBreaks(a + b) == LineBreaks(a) + LineBreaks(b)
    decreases |a|
  {
    if a == [] {
      assert a + b == b;
    } else {
      assert (a + b)[0] == a[0];
      assert (a + b)[1..] == a[1..] + b;
      LineBreaksAppend(a[1..], b);
    }
  }

  lemma {:induction false} TypedChars(text: string, from: nat)
    requires from <= |text|
    ensures Chars(Typed(text, from)) == text[from..]
    ensures LineBreaks(Typed(text, from)) == 0
    decreases |text| - from
  {
    if from < |text| {
      TypedChars(text, from + 1);
      CharsAppend([AppendChar(text[from])], Typed(text, from + 1));
      LineBreaksAppend([AppendChar(text[from])], Typed(text, from + 1));
      assert text[from..] == [text[from]] + text[from + 1..];
    }
  }

  /** The reference actions append exactly the script's text and insert one
      break per line-break segment. */
  lemma {:induction false} ScriptActionsContent(script: seq<Segment>)
    ensures Chars(ScriptActions(script)) == ScriptText(script)
    ensures LineBreaks(ScriptActions(script)) == NewlineCount(script)
    decreases |script|
  {
    if script != [] {
      ScriptActionsContent(script[1..]);
      CharsAppend(SegmentActions(script[0]), ScriptActions(script[1..]));
      LineBreaksAppend(SegmentActions(script[0]), ScriptActions(script[1..]));
      if script[0].Text? {
        CharsAppend([OpenSpan(script[0].kind)], Typed(script[0].text, 0));
        LineBreaksAppend([OpenSpan(script[0].kind)], Typed(script[0].text, 0));
        TypedChars(script[0].text, 0);
      }
    }
  }

  /** A complete run types the concatenated texts of the typed segments, in
      order, and inserts as many line breaks as the script has line-break
      segments. */
  lemma RunTypesScriptText(script: seq<Segment>)
    ensures Chars(Run(script, Initial).actions) == ScriptText(script)
    ensures LineBreaks(Run(script, Initial).actions) == NewlineCount(script)
  {
    RunEmitsScript(script);
    ScriptActionsContent(script);
  }

  /** Unfolds `ScriptText` and `NewlineCount` by one segment. */
  lemma ScriptHead(s: seq<Segment>)
    requires s != []
    ensures ScriptText(s) == (if s[0].Text? then s[0].text else []) + ScriptText(s[1..])
    ensures NewlineCount(s) == (if s[0].Newline? then 1 else 0) + NewlineCount(s[1..])
  {
  }

  /** The hero terminal types the prompt, the command and the three output
      lines, in this order, with three line breaks in between. */
  lemma HeroScriptContent()
    ensures NewlineCount(HeroScript) == 3
    ensures ScriptText(HeroScript)
            == HeroScript[0].text + HeroScript[1].text + HeroScript[3].text
               + HeroScript[5].text + HeroScript[7].text
  {
    var s := HeroScript;
    assert s[0].Text? && s[1].Text? && s[2].Newline? && s[3].Text?;
    assert s[4].Newline? && s[5].Text? && s[6].Newline? && s[7].Text?;
    Shape(s);
  }

  /** Text and line breaks of any script laid out like the hero script. */
  lemma Shape(s: seq<Segment>)
    requires |s| == 8
    requires s[0].Text? && s[1].Text? && s[2].Newline? && s[3].Text?
    requires s[4].Newline? && s[5].Text? && s[6].Newline? && s[7].Text?
    ensures NewlineCount(s) == 3
    ensures ScriptText(s) == s[0].text + s[1].text + s[3].text + s[5].text + s[7].text
  {
    var t := s;
    ScriptHead(t); t := t[1..];
    ScriptHead(t); t := t[1..];
    ScriptHead(t); t := t[1..];
    ScriptHead(t); t := t[1..];
    ScriptHead(t); t := t[1..];
    ScriptHead(t); t := t[1..];
    ScriptHead(t); t := t[1..];
    ScriptHead(t); t := t[1..];
    assert t == [];
  }
}
