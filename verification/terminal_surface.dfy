/**
 The terminal body the animation writes into, the idempotence guard in front
 of it, and the whole session: guard, clear, then the run of callbacks. The
 terminal's children are modelled as a sequence of nodes; `setTimeout` chains
 are replaced by running the steps in order and adding up their delays.
 */
module TerminalSurface {
  import opened Wrappers
  import opened TerminalAnimation
  import opened TerminalTrace

  /** A child of the terminal body: a styled span with its text, or a `<br>`. */
  datatype Node = Span(kind: Kind, text: string) | Br

  /** Carries out one action on the terminal's children. A character goes to
      the last child, which is the open span whenever the animation appends
      (`Run` opens a span before its first character and appends nothing
      else while it is open). */
  function Apply(children: seq<Node>, a: Action): seq<Node>
  {
    match a
    case OpenSpan(kind) => children + [Span(kind, "")]
    case LineBreak => children + [Br]
    case AppendChar(c) =>
      if |children| > 0 && children[|children| - 1].Span? then
        var last := children[|children| - 1];
        children[..|children| - 1] + [Span(last.kind, last.text + [c])]
      else children
  }

  /** Carries out the actions in order. */
  function Render(children: seq<Node>, actions: seq<Action>): seq<Node>
    decreases |actions|
  {
    if actions == [] then children else Render(Apply(children, actions[0]), actions[1..])
  }

  /** The node a segment leaves behind once it is fully played. */
  function NodeOf(seg: Segment): Node
  {
    match seg
    case Newline => Br
    case Text(kind, text, _) => Span(kind, text)
  }

  /** One node per segment, in script order: what a finished terminal shows. */
  function Nodes(script: seq<Segment>): seq<Node>
  {
    if script == [] then [] else [NodeOf(script[0])] + Nodes(script[1..])
  }

  /** `Nodes` keeps positions: node `j` comes from segment `j`. */
  lemma {:induction false} NodesAt(script: seq<Segment>)
    ensures |Nodes(script)| == |script|
    ensures forall j :: 0 <= j < |script| ==> Nodes(script)[j] == NodeOf(script[j])
    decreases |script|
  {
    if script != [] {
      NodesAt(script[1..]);
      forall j | 0 <= j < |script|
        ensures Nodes(script)[j] == NodeOf(script[j])
      {
        if j > 0 {
          assert Nodes(script)[j] == Nodes(script[1..])[j - 1];
        }
      }
    }
  }

  lemma {:induction false} RenderAppend(children: seq<Node>, a: seq<Action>, b: seq<Action>)
    ensures Render(children, a + b) == Render(Render(children, a), b)
    decreases |a|
  {
    if a == [] {
      assert a + b == b;
    } else {
      assert (a + b)[0] == a[0];
      assert (a + b)[1..] == a[1..] + b;
      RenderAppend(Apply(children, a[0]), a[1..], b);
    }
  }

  /** Typing the characters of `text` from `from` on into an open span at the
      end of the terminal extends exactly that span's text. */
  lemma {:induction false} RenderTyped(children: seq<Node>, kind: Kind, prefix: string, text: string, from: nat)
    requires from <= |text|
    ensures Render(children + [Span(kind, prefix)], Typed(text, from)) == children + [Span(kind, prefix + text[from..])]
    decreases |text| - from
  {
    if from < |text| {
      var spanned := children + [Span(kind, prefix)];
      assert spanned[..|spanned| - 1] == children;
      assert Apply(spanned, AppendChar(text[from])) == children + [Span(kind, prefix + [text[from]])];
      RenderTyped(children, kind, prefix + [text[from]], text, from + 1);
      assert (prefix + [text[from]]) + text[from + 1..] == prefix + text[from..];
    } else {
      assert prefix + text[from..] == prefix;
    }
  }

  /** Playing a segment from scratch appends exactly that segment's node. */
  lemma RenderSegment(children: seq<Node>, seg: Segment)
    ensures Render(children, SegmentActions(seg)) == children + [NodeOf(seg)]
  {
    match seg
    case Newline =>
    case Text(kind, text, _) =>
      RenderAppend(children, [OpenSpan(kind)], Typed(text, 0));
      RenderTyped(children, kind, "", text, 0);
      assert "" + text[0..] == text;
  }

  /** The reference actions of a script append one node per segment. */
  lemma {:induction false} RenderScript(children: seq<Node>, script: seq<Segment>)
    ensures Render(children, ScriptActions(script)) == children + Nodes(script)
    decreases |script|
  {
    if script == [] {
      assert children + [] == children;
    } else {
      var head := SegmentActions(script[0]);
      var tail := ScriptActions(script[1..]);
      var node := NodeOf(script[0]);
      assert ScriptActions(script) == head + tail;
      RenderAppend(children, head, tail);
      RenderSegment(children, script[0]);
      RenderScript(children + [node], script[1..]);
      assert Nodes(script) == [node] + Nodes(script[1..]);
      assert (children + [node]) + Nodes(script[1..]) == children + ([node] + Nodes(script[1..]));
    }
  }

  /** A complete run on an empty terminal leaves one node per segment, each
      at its script position: a `<br>` exactly where the script has a line
      break, and elsewhere a span of the segment's kind holding exactly the
      segment's text (an empty span for an empty text). */
  lemma RunRendersScript(script: seq<Segment>)
    ensures Render([], Run(script, Initial).actions) == Nodes(script)
    ensures |Nodes(script)| == |script|
    ensures forall j :: 0 <= j < |script| ==>
              (Nodes(script)[j] == Br <==> script[j].Newline?)
    ensures forall j :: 0 <= j < |script| && script[j].Text? ==>
              Nodes(script)[j] == Span(script[j].kind, script[j].text)
  {
    RunEmitsScript(script);
    RenderScript([], script);
    assert [] + Nodes(script) == Nodes(script);
    NodesAt(script);
  }

  /** The terminal body element as the animation sees it: its `data-animated`
      attribute and its children. */
  datatype Element = Element(animated: Option<string>, children: seq<Node>)

  /** JavaScript truthiness of an attribute read through `dataset`: absent and
      empty both count as false. */
  predicate Truthy(attr: Option<string>)
  {
    attr.Some? && attr.value != ""
  }

  /** The synchronous effects of the entry point, in program order. */
  datatype Effect = MarkAnimated | ClearChildren | Schedule(delay: nat)

  /** The entry point of the animation, given the terminal the page query
      found (or none). */
  function StartEffects(terminal: Option<Element>): (effects: seq<Effect>)
    ensures effects == [] <==> terminal.None? || Truthy(terminal.value.animated)
    ensures effects != [] ==>
              && effects[0] == MarkAnimated
              && effects[|effects| - 1] == Schedule(StartDelay)
              && ClearChildren in effects
              && forall k :: 0 <= k < |effects| - 1 ==> !effects[k].Schedule?
  {
    if terminal.None? || Truthy(terminal.value.animated) then []
    else [MarkAnimated, ClearChildren, Schedule(StartDelay)]
  }

  function ApplyEffect(e: Element, effect: Effect): Element
  {
    match effect
    case MarkAnimated => e.(animated := Some("true"))
    case ClearChildren => e.(children := [])
    case Schedule(_) => e
  }

  function ApplyEffects(e: Element, effects: seq<Effect>): Element
    decreases |effects|
  {
    if effects == [] then e else ApplyEffects(ApplyEffect(e, effects[0]), effects[1..])
  }

  /** An entry point that gets past the guard leaves the terminal marked and
      empty. */
  lemma StartClears(terminal: Element)
    requires !Truthy(terminal.animated)
    ensures ApplyEffects(terminal, StartEffects(Some(terminal))) == Element(Some("true"), [])
  {
    var effects := StartEffects(Some(terminal));
    assert effects[1..] == [ClearChildren, Schedule(StartDelay)];
    assert effects[1..][1..] == [Schedule(StartDelay)];
    assert effects[1..][1..][1..] == [];
    var marked := terminal.(animated := Some("true"));
    var cleared := marked.(children := []);
    assert ApplyEffects(cleared, effects[1..][1..]) == cleared;
    assert ApplyEffects(marked, effects[1..]) == cleared;
  }

  /** Once the entry point has run on a terminal, a second call finds the
      mark set and does nothing at all. */
  lemma StartIsGuarded(terminal: Element)
    ensures var e := ApplyEffects(terminal, StartEffects(Some(terminal)));
            && Truthy(e.animated)
            && StartEffects(Some(e)) == []
  {
    if StartEffects(Some(terminal)) != [] {
      StartClears(terminal);
    }
  }

  /** The whole session on the terminal found on the page: the guarded entry
      point, then every scheduled callback in order. */
  function Animate(terminal: Option<Element>, script: seq<Segment>): Option<Element>
  {
    var effects := StartEffects(terminal);
    if effects == [] then terminal
    else
      var e := ApplyEffects(terminal.value, effects);
      Some(e.(children := Render(e.children, Run(script, Initial).actions)))
  }

  /** A session on an unmarked terminal replaces its content with the
      script's nodes and marks it; on an absent or marked terminal it changes
      nothing. */
  lemma AnimateOutcome(terminal: Option<Element>, script: seq<Segment>)
    ensures terminal.None? || Truthy(terminal.value.animated) ==> Animate(terminal, script) == terminal
    ensures terminal.Some? && !Truthy(terminal.value.animated) ==>
              Animate(terminal, script) == Some(Element(Some("true"), Nodes(script)))
  {
    if terminal.Some? && !Truthy(terminal.value.animated) {
      StartClears(terminal.value);
      RunRendersScript(script);
    }
  }

  /** Starting twice renders the same as starting once. */
  lemma AnimateIdempotent(terminal: Option<Element>, script: seq<Segment>)
    ensures Animate(Animate(terminal, script), script) == Animate(terminal, script)
  {
    AnimateOutcome(terminal, script);
    AnimateOutcome(Animate(terminal, script), script);
  }

  function Sum(delays: seq<nat>): nat
  {
    if delays == [] then 0 else delays[0] + Sum(delays[1..])
  }

  /** Plays `script` on a freshly cleared terminal, one callback per loop
      iteration, and returns the terminal's children when the run stops and
      the time (from the entry point) of the last, stopping callback. */
  method RunToCompletion(script: seq<Segment>) returns (children: seq<Node>, clock: nat)
    ensures children == Nodes(script)
    ensures clock == StartDelay + Sum(ScriptDelays(script))
  {
    var st := Initial;
    children := [];
    clock := StartDelay;
    RunRendersScript(script);
    RunEmitsScript(script);
    InitialInv(script);
    while st.lineIndex < |script|
      invariant Inv(script, st)
      invariant Render(children, Run(script, st).actions) == Nodes(script)
      invariant clock + Sum(Run(script, st).delays) == StartDelay + Sum(ScriptDelays(script))
      decreases Remaining(script, st)
    {
      var r := Step(script, st);
      RunUnfold(script, st);
      StepCountsDown(script, st);
      StepPreservesInv(script, st);
      RenderAppend(children, r.actions, Run(script, r.state).actions);
      children := Render(children, r.actions);
      clock := clock + r.next.value;
      st := r.state;
    }
  }
}
