/** `RichTextParser` of scripts/translation/ts_utils.py, on the events that Python's HTML tokenizer
    gives it: when it finds no problem exactly if the tags nest. */
module RichText {
  import opened Bytes
  import opened Wrappers

  const VOID: set<string> := {"br", "hr", "img"}

  /** A tag; `recognized` says that its text is one of the known rich-text tags. Links are its href and
      src attributes. */
  datatype Event =
    | Start(tag: string, recognized: bool, links: seq<(string, string)>)
    | StartEnd(tag: string, recognized: bool, links: seq<(string, string)>)
    | End(tag: string, recognized: bool)

  datatype Problem = Nesting(tag: string) | Unclosed(tags: seq<string>)

  datatype Status = Status(stack: seq<string>, problems: seq<Problem>, links: multiset<(string, string, string)>)

  // ---------------------------------------------------------------- the parser

  function Counted(tag: string, links: seq<(string, string)>): multiset<(string, string, string)> {
    if links == [] then multiset{} else multiset{(tag, links[0].0, links[0].1)} + Counted(tag, links[1..])
  }

  function Opened(s: Status, tag: string, recognized: bool, links: seq<(string, string)>): Status {
    if !recognized then s
    else s.(links := s.links + Counted(tag, links), stack := if tag in VOID then s.stack else s.stack + [tag])
  }

  predicate OnTop(stack: seq<string>, tag: string) {
    stack != [] && stack[|stack| - 1] == tag
  }

  /** The stack below the last occurrence of a tag. */
  function Below(stack: seq<string>, tag: string): (below: seq<string>)
    requires tag in stack
    ensures below < stack && stack[|below|] == tag && tag !in stack[|below| + 1..]
  {
    if stack[|stack| - 1] == tag then stack[..|stack| - 1]
    else
      assert tag in stack[..|stack| - 1] by {
        assert stack == stack[..|stack| - 1] + [stack[|stack| - 1]];
      }
      Below(stack[..|stack| - 1], tag)
  }

  /** Where the stack is cut is determined by the tag's last occurrence. */
  lemma {:induction false} BelowAt(stack: seq<string>, tag: string, at: nat)
    requires at < |stack| && stack[at] == tag && tag !in stack[at + 1..]
    ensures Below(stack, tag) == stack[..at]
  {
    if at < |stack| - 1 {
      var rest := stack[..|stack| - 1];
      assert stack[|stack| - 1] in stack[at + 1..];
      assert stack[at + 1..] == rest[at + 1..] + [stack[|stack| - 1]];
      BelowAt(rest, tag, at);
      assert rest[..at] == stack[..at];
    }
  }

  /** Python: `len(stack) - 1 - stack[::-1].index(tag)`. */
  method LastIndex(stack: seq<string>, tag: string) returns (at: nat)
    requires tag in stack
    ensures at < |stack| && stack[at] == tag && tag !in stack[at + 1..]
  {
    at := |stack| - 1;
    while stack[at] != tag
      invariant at < |stack| && forall k :: at < k < |stack| ==> stack[k] != tag
      decreases at
    {
      if at == 0 {
        assert forall k :: 0 <= k < |stack| ==> stack[k] != tag;
      }
      at := at - 1;
    }
  }

  function Closed(s: Status, tag: string): Status {
    var problems := if OnTop(s.stack, tag) then s.problems else s.problems + [Nesting(tag)];
    s.(problems := problems, stack := if tag in s.stack then Below(s.stack, tag) else s.stack)
  }

  function Step(s: Status, e: Event): Status {
    match e
    case Start(tag, recognized, links) => Opened(s, tag, recognized, links)
    case StartEnd(tag, recognized, links) =>
      var o := Opened(s, tag, recognized, links);
      if OnTop(o.stack, tag) then o.(stack := o.stack[..|o.stack| - 1]) else o
    case End(tag, recognized) => if !recognized || tag in VOID then s else Closed(s, tag)
  }

  function Fed(events: seq<Event>): Status {
    if events == [] then Status([], [], multiset{}) else Step(Fed(events[..|events| - 1]), events[|events| - 1])
  }

  function ProblemsOf(s: Status): seq<Problem> {
    if s.stack == [] then s.problems else s.problems + [Unclosed(s.stack)]
  }

  class RichTextParser {
    var stack: seq<string>
    var problems: seq<Problem>
    var links: multiset<(string, string, string)>

    ghost function Now(): Status
      reads this
    {
      Status(stack, problems, links)
    }

    constructor (events: seq<Event>)
      ensures problems == ProblemsOf(Fed(events)) && links == Fed(events).links
    {
      stack, problems, links := [], [], multiset{};
      new;
      for k := 0 to |events|
        invariant Now() == Fed(events[..k])
      {
        assert events[..k + 1][..k] == events[..k];
        match events[k] {
          case Start(tag, recognized, found) => HandleStart(tag, recognized, found);
          case StartEnd(tag, recognized, found) => HandleStartEnd(tag, recognized, found);
          case End(tag, recognized) => HandleEnd(tag, recognized);
        }
      }
      assert events[..|events|] == events;
      if stack != [] {
        problems := problems + [Unclosed(stack)];
      }
    }

    method HandleStart(tag: string, recognized: bool, found: seq<(string, string)>)
      modifies this
      ensures Now() == Step(old(Now()), Start(tag, recognized, found))
    {
      if !recognized {
        return;
      }
      for k := 0 to |found|
        invariant stack == old(stack) && problems == old(problems)
        invariant links + Counted(tag, found[k..]) == old(links) + Counted(tag, found)
      {
        assert found[k..][1..] == found[k + 1..];
        links := links + multiset{(tag, found[k].0, found[k].1)};
      }
      assert Counted(tag, found[|found|..]) == multiset{};
      if tag !in VOID {
        stack := stack + [tag];
      }
    }

    method HandleStartEnd(tag: string, recognized: bool, found: seq<(string, string)>)
      modifies this
      ensures Now() == Step(old(Now()), StartEnd(tag, recognized, found))
    {
      HandleStart(tag, recognized, found);
      if stack != [] && stack[|stack| - 1] == tag {
        stack := stack[..|stack| - 1];
      }
    }

    method HandleEnd(tag: string, recognized: bool)
      modifies this
      ensures Now() == Step(old(Now()), End(tag, recognized))
    {
      if !recognized || tag in VOID {
        return;
      }
      if stack == [] || stack[|stack| - 1] != tag {
        problems := problems + [Nesting(tag)];
      }
      if tag in stack {
        var at := LastIndex(stack, tag);
        BelowAt(stack, tag, at);
        stack := stack[..at];
      }
    }
  }

  // ---------------------------------------------------------------- what nests

  /** What a self-closing tag that is no known tag is taken for: ordinarily it is a label and means
      nothing; the parser takes one for the end of an innermost element of the same name. */
  datatype Reading = AsLabel | AsEnd

  predicate Unknown(e: Event) {
    e.StartEnd? && !e.recognized
  }

  /** A document: elements with their opening and closing events, and events that open nothing. */
  datatype Node = Element(open: Event, body: seq<Node>, close: Event) | Leaf(event: Event)

  ghost function Render(nodes: seq<Node>): seq<Event> {
    if nodes == [] then [] else Render(nodes[..|nodes| - 1]) + RenderNode(nodes[|nodes| - 1])
  }

  ghost function RenderNode(node: Node): seq<Event> {
    match node
    case Element(open, body, close) => [open] + Render(body) + [close]
    case Leaf(event) => [event]
  }

  predicate Opens(e: Event) {
    e.Start? && e.recognized && e.tag !in VOID
  }

  predicate Ends(e: Event) {
    e.End? && e.recognized && e.tag !in VOID
  }

  predicate Closes(how: Reading, e: Event, tag: string) {
    e.tag == tag && (Ends(e) || (how.AsEnd? && Unknown(e)))
  }

  /** What neither opens nor closes, directly inside an element of the enclosing tag. */
  predicate Inert(how: Reading, e: Event, enclosing: Option<string>) {
    !Opens(e) && !Ends(e) && (how.AsEnd? && Unknown(e) ==> enclosing != Some(e.tag))
  }

  ghost predicate Nested(how: Reading, nodes: seq<Node>, enclosing: Option<string>) {
    nodes != [] ==> Nested(how, nodes[..|nodes| - 1], enclosing) && NestedNode(how, nodes[|nodes| - 1], enclosing)
  }

  ghost predicate NestedNode(how: Reading, node: Node, enclosing: Option<string>) {
    match node
    case Element(open, body, close) =>
      Opens(open) && Nested(how, body, Some(open.tag)) && Closes(how, close, open.tag)
    case Leaf(event) => Inert(how, event, enclosing)
  }

  ghost predicate WellNested(how: Reading, events: seq<Event>) {
    exists nodes :: Nested(how, nodes, None) && Render(nodes) == events
  }

  /** Ordinary nesting: every element is closed by its own end tag, and nothing else closes one. */
  ghost predicate StrictlyNested(events: seq<Event>) {
    WellNested(AsLabel, events)
  }

  // ---------------------------------------------------------------- the parser, and one that reads labels

  ghost function StepAs(how: Reading, s: Status, e: Event): Status {
    if how.AsLabel? && Unknown(e) then s else Step(s, e)
  }

  ghost function RunFrom(how: Reading, s: Status, events: seq<Event>): Status {
    if events == [] then s else StepAs(how, RunFrom(how, s, events[..|events| - 1]), events[|events| - 1])
  }

  ghost function FedAs(how: Reading, events: seq<Event>): Status {
    RunFrom(how, Status([], [], multiset{}), events)
  }

  lemma {:induction false} FedIsRun(events: seq<Event>)
    ensures Fed(events) == FedAs(AsEnd, events)
  {
    hide Step;
    if events != [] {
      FedIsRun(events[..|events| - 1]);
    }
  }

  lemma {:induction false} RunAppend(how: Reading, s: Status, a: seq<Event>, b: seq<Event>)
    ensures RunFrom(how, s, a + b) == RunFrom(how, RunFrom(how, s, a), b)
  {
    hide StepAs;
    if b == [] {
      assert a + b == a;
    } else {
      RunAppend(how, s, a, b[..|b| - 1]);
      assert (a + b)[..|a + b| - 1] == a + b[..|b| - 1];
    }
  }

  lemma RunOne(how: Reading, s: Status, e: Event)
    ensures RunFrom(how, s, [e]) == StepAs(how, s, e)
  {
    hide StepAs;
    assert [e][..0] == [];
    assert RunFrom(how, s, [e][..0]) == s;
  }

  ghost function Top(stack: seq<string>): Option<string> {
    if stack == [] then None else Some(stack[|stack| - 1])
  }

  /** The stack holds names of elements, which are never void. */
  ghost predicate Proper(stack: seq<string>) {
    forall t | t in stack :: t !in VOID
  }

  lemma StepInert(how: Reading, s: Status, e: Event)
    requires Proper(s.stack) && Inert(how, e, Top(s.stack))
    ensures StepAs(how, s, e).stack == s.stack && StepAs(how, s, e).problems == s.problems
  {
    hide Counted;
    if OnTop(s.stack, e.tag) {
      assert s.stack[|s.stack| - 1] in s.stack;
    }
  }

  lemma StepOpens(how: Reading, s: Status, e: Event)
    requires Opens(e)
    ensures StepAs(how, s, e).stack == s.stack + [e.tag] && StepAs(how, s, e).problems == s.problems
  {
    hide Counted;
  }

  lemma StepCloses(how: Reading, s: Status, e: Event)
    requires s.stack != [] && Closes(how, e, s.stack[|s.stack| - 1])
    ensures StepAs(how, s, e).stack == s.stack[..|s.stack| - 1] && StepAs(how, s, e).problems == s.problems
  {
    hide Counted;
    assert s.stack[|s.stack| - 1] in s.stack;
  }

  /** Without a problem, an event opens, closes the innermost element, or does neither. */
  lemma StepCases(how: Reading, s: Status, e: Event)
    requires StepAs(how, s, e).problems == s.problems
    ensures || Opens(e) || Inert(how, e, Top(s.stack))
            || (s.stack != [] && Closes(how, e, s.stack[|s.stack| - 1]))
  {
    hide Counted;
    hide Below;
  }

  lemma StepProblems(how: Reading, s: Status, e: Event)
    ensures s.problems <= StepAs(how, s, e).problems
    ensures Proper(s.stack) ==> Proper(StepAs(how, s, e).stack)
  {
    hide Counted;
  }

  // ---------------------------------------------------------------- documents raise no problem

  /** The events of a document raise no problem and leave the stack as it was. */
  lemma {:induction false} NestedRuns(how: Reading, s: Status, nodes: seq<Node>)
    requires Proper(s.stack) && Nested(how, nodes, Top(s.stack))
    ensures RunFrom(how, s, Render(nodes)).stack == s.stack
    ensures RunFrom(how, s, Render(nodes)).problems == s.problems
    decreases nodes, 0
  {
    hide StepAs;
    hide Inert;
    hide Opens;
    hide Closes;
    hide Proper;
    hide Top;
    if nodes != [] {
      var front, last := nodes[..|nodes| - 1], nodes[|nodes| - 1];
      NestedRuns(how, s, front);
      var t := RunFrom(how, s, Render(front));
      match last
      case Leaf(event) =>
        RunAppend(how, s, Render(front), [event]);
        RunOne(how, t, event);
        StepInert(how, t, event);
      case Element(open, body, close) =>
        RunAppend(how, s, Render(front), [open] + Render(body) + [close]);
        ElementRuns(how, t, open, body, close);
    }
  }

  lemma OpenedTop(stack: seq<string>, tag: string)
    requires Proper(stack) && tag !in VOID
    ensures Proper(stack + [tag]) && Top(stack + [tag]) == Some(tag)
  {
  }

  lemma {:induction false} ElementRuns(how: Reading, s: Status, open: Event, body: seq<Node>, close: Event)
    requires Proper(s.stack) && Opens(open) && Nested(how, body, Some(open.tag)) && Closes(how, close, open.tag)
    ensures var t := RunFrom(how, s, [open] + Render(body) + [close]);
            t.stack == s.stack && t.problems == s.problems
    decreases body, 1
  {
    hide StepAs;
    hide Render;
    hide Nested;
    hide RunFrom;
    hide Closes;
    hide Proper;
    hide Top;
    RunAppend(how, s, [open] + Render(body), [close]);
    RunAppend(how, s, [open], Render(body));
    RunOne(how, s, open);
    var inner := RunFrom(how, s, [open]);
    StepOpens(how, s, open);
    OpenedTop(s.stack, open.tag);
    NestedRuns(how, inner, body);
    var end := RunFrom(how, inner, Render(body));
    RunOne(how, end, close);
    StepCloses(how, end, close);
  }

  // ---------------------------------------------------------------- and no problem means a document

  /** An element that is still open, with what it holds so far; the outermost level is no element. */
  datatype Level = Level(open: seq<Event>, body: seq<Node>)

  ghost function RenderLevels(levels: seq<Level>): seq<Event> {
    if levels == [] then [] else RenderLevels(levels[..|levels| - 1]) + RenderLevel(levels[|levels| - 1])
  }

  ghost function RenderLevel(level: Level): seq<Event> {
    level.open + Render(level.body)
  }

  ghost function TagOf(level: Level): Option<string> {
    if |level.open| == 1 then Some(level.open[0].tag) else None
  }

  /** A level is an open element of the tag on the stack. */
  ghost predicate IsLevel(level: Level, tag: string) {
    |level.open| == 1 && Opens(level.open[0]) && level.open[0].tag == tag
  }

  ghost predicate NestedLevel(how: Reading, level: Level) {
    Nested(how, level.body, TagOf(level))
  }

  /** The levels below the first are open elements, the tags on the stack. */
  ghost predicate Leveled(how: Reading, levels: seq<Level>, stack: seq<string>) {
    && |levels| == |stack| + 1
    && levels[0].open == []
    && (forall i :: 0 < i < |levels| ==> IsLevel(levels[i], stack[i - 1]))
    && (forall i :: 0 <= i < |levels| ==> NestedLevel(how, levels[i]))
  }

  ghost function WithNode(level: Level, node: Node): Level {
    level.(body := level.body + [node])
  }

  lemma LevelWithNode(how: Reading, level: Level, node: Node, tag: string)
    requires NestedLevel(how, level) && NestedNode(how, node, TagOf(level))
    ensures NestedLevel(how, WithNode(level, node)) && WithNode(level, node).open == level.open
    ensures IsLevel(level, tag) ==> IsLevel(WithNode(level, node), tag)
    ensures RenderLevel(WithNode(level, node)) == RenderLevel(level) + RenderNode(node)
  {
    hide RenderNode;
    hide NestedNode;
    hide Opens;
    assert (level.body + [node])[..|level.body|] == level.body;
    Associate(level.open, Render(level.body), RenderNode(node));
  }

  lemma AddNodeLeveled(how: Reading, levels: seq<Level>, stack: seq<string>, node: Node)
    requires Leveled(how, levels, stack) && NestedNode(how, node, TagOf(levels[|stack|]))
    ensures Leveled(how, levels[|stack| := WithNode(levels[|stack|], node)], stack)
  {
    hide NestedLevel;
    hide IsLevel;
    hide NestedNode;
    hide WithNode;
    hide TagOf;
    LevelWithNode(how, levels[|stack|], node, if stack == [] then "" else stack[|stack| - 1]);
  }

  lemma AddNodeRendered(how: Reading, levels: seq<Level>, node: Node)
    requires levels != [] && NestedLevel(how, levels[|levels| - 1])
    requires NestedNode(how, node, TagOf(levels[|levels| - 1]))
    ensures var last := |levels| - 1;
            RenderLevels(levels[last := WithNode(levels[last], node)]) == RenderLevels(levels) + RenderNode(node)
  {
    hide NestedLevel;
    hide NestedNode;
    hide WithNode;
    hide TagOf;
    hide RenderLevel;
    hide RenderNode;
    var last := |levels| - 1;
    var more := levels[last := WithNode(levels[last], node)];
    LevelWithNode(how, levels[last], node, "");
    assert more[..last] == levels[..last];
    Associate(RenderLevels(levels[..last]), RenderLevel(levels[last]), RenderNode(node));
  }

  lemma LeveledTop(how: Reading, levels: seq<Level>, stack: seq<string>)
    requires Leveled(how, levels, stack)
    ensures |levels| == |stack| + 1 && TagOf(levels[|stack|]) == Top(stack) && NestedLevel(how, levels[|stack|])
  {
    hide NestedLevel;
    hide Opens;
  }

  lemma AddLeaf(how: Reading, levels: seq<Level>, stack: seq<string>, e: Event) returns (more: seq<Level>)
    requires Leveled(how, levels, stack) && Inert(how, e, Top(stack))
    ensures Leveled(how, more, stack) && RenderLevels(more) == RenderLevels(levels) + [e]
  {
    hide Inert;
    hide RenderLevels;
    hide Leveled;
    hide NestedLevel;
    hide TagOf;
    hide Top;
    hide WithNode;
    LeveledTop(how, levels, stack);
    AddNodeLeveled(how, levels, stack, Leaf(e));
    AddNodeRendered(how, levels, Leaf(e));
    more := levels[|stack| := WithNode(levels[|stack|], Leaf(e))];
  }

  lemma AddLevel(how: Reading, levels: seq<Level>, stack: seq<string>, e: Event)
    requires Leveled(how, levels, stack) && Opens(e)
    ensures Leveled(how, levels + [Level([e], [])], stack + [e.tag])
    ensures RenderLevels(levels + [Level([e], [])]) == RenderLevels(levels) + [e]
  {
    hide Opens;
    hide RenderLevels;
    NewLevel(how, e);
    AppendLevel(levels, Level([e], []));
  }

  lemma NewLevel(how: Reading, e: Event)
    ensures NestedLevel(how, Level([e], [])) && RenderLevel(Level([e], [])) == [e]
  {
  }

  lemma AppendLevel(levels: seq<Level>, level: Level)
    ensures RenderLevels(levels + [level]) == RenderLevels(levels) + RenderLevel(level)
  {
    hide RenderLevel;
    assert (levels + [level])[..|levels|] == levels;
  }

  lemma LeveledBelow(how: Reading, levels: seq<Level>, stack: seq<string>)
    requires Leveled(how, levels, stack) && stack != []
    ensures var n := |stack|;
            && |levels| == n + 1 && Leveled(how, levels[..n], stack[..n - 1])
            && IsLevel(levels[n], stack[n - 1])
            && levels == levels[..n] + [levels[n]]
  {
    hide IsLevel;
    hide NestedLevel;
  }

  lemma ElementOf(how: Reading, level: Level, tag: string, e: Event, enclosing: Option<string>)
    requires IsLevel(level, tag) && NestedLevel(how, level) && Closes(how, e, tag)
    ensures var node := Element(level.open[0], level.body, e);
            NestedNode(how, node, enclosing) && RenderNode(node) == RenderLevel(level) + [e]
  {
    hide Closes;
    hide Opens;
    hide Nested;
    hide Render;
    assert level.open == [level.open[0]];
  }

  lemma CloseLevel(how: Reading, levels: seq<Level>, stack: seq<string>, e: Event) returns (more: seq<Level>)
    requires Leveled(how, levels, stack) && stack != [] && Closes(how, e, stack[|stack| - 1])
    ensures Leveled(how, more, stack[..|stack| - 1]) && RenderLevels(more) == RenderLevels(levels) + [e]
  {
    hide *;
    var n := |stack|;
    LeveledBelow(how, levels, stack);
    var below, top := levels[..n], levels[n];
    IsLevelIs(top, stack[n - 1]);
    var node := Element(top.open[0], top.body, e);
    LeveledTop(how, levels, stack);
    LeveledTop(how, below, stack[..n - 1]);
    ElementOf(how, top, stack[n - 1], e, TagOf(below[n - 1]));
    AddNodeLeveled(how, below, stack[..n - 1], node);
    AddNodeRendered(how, below, node);
    AppendLevel(below, top);
    Associate(RenderLevels(below), RenderLevel(top), [e]);
    more := below[n - 1 := WithNode(below[n - 1], node)];
  }

  lemma IsLevelIs(level: Level, tag: string)
    requires IsLevel(level, tag)
    ensures |level.open| == 1
  {
  }

  lemma {:induction false} LevelsOf(how: Reading, events: seq<Event>) returns (levels: seq<Level>)
    requires FedAs(how, events).problems == []
    ensures Leveled(how, levels, FedAs(how, events).stack) && RenderLevels(levels) == events
    ensures Proper(FedAs(how, events).stack)
  {
    hide StepAs;
    hide Closes;
    hide Opens;
    hide Inert;
    hide Leveled;
    hide RenderLevels;
    hide Top;
    if events == [] {
      levels := [Level([], [])];
      OneLevel(how);
    } else {
      var first, e := events[..|events| - 1], events[|events| - 1];
      var s := FedAs(how, first);
      StepProblems(how, s, e);
      levels := LevelsOf(how, first);
      StepCases(how, s, e);
      assert events == first + [e];
      if Opens(e) {
        AddLevel(how, levels, s.stack, e);
        StepOpens(how, s, e);
        levels := levels + [Level([e], [])];
      } else if Inert(how, e, Top(s.stack)) {
        StepInert(how, s, e);
        levels := AddLeaf(how, levels, s.stack, e);
      } else {
        StepCloses(how, s, e);
        levels := CloseLevel(how, levels, s.stack, e);
      }
    }
  }

  lemma OneLevel(how: Reading)
    ensures Leveled(how, [Level([], [])], []) && RenderLevels([Level([], [])]) == []
  {
    assert [Level([], [])][..0] == [];
    assert RenderLevels([Level([], [])][..0]) == [];
  }

  lemma LastLevel(how: Reading, levels: seq<Level>)
    requires Leveled(how, levels, [])
    ensures |levels| == 1 && Nested(how, levels[0].body, None) && RenderLevels(levels) == Render(levels[0].body)
  {
    hide Render;
    hide Nested;
    assert levels[..0] == [];
    assert RenderLevels(levels[..0]) == [];
  }

  /** Under either reading, no problem is found exactly for the events of a document. */
  lemma ProblemsExactly(how: Reading, events: seq<Event>)
    ensures ProblemsOf(FedAs(how, events)) == [] <==> WellNested(how, events)
  {
    hide StepAs;
    hide Nested;
    hide Render;
    hide RenderLevels;
    hide Leveled;
    if ProblemsOf(FedAs(how, events)) == [] {
      var levels := LevelsOf(how, events);
      LastLevel(how, levels);
      assert Nested(how, levels[0].body, None) && Render(levels[0].body) == events;
    }
    if WellNested(how, events) {
      var nodes :| Nested(how, nodes, None) && Render(nodes) == events;
      NestedRuns(how, Status([], [], multiset{}), nodes);
    }
  }

  // ---------------------------------------------------------------- where the parser is right

  /** The parser takes the event for an end although it is a label: the tag is not known, and the innermost
      open element has its name. */
  predicate Misread(stack: seq<string>, e: Event) {
    Unknown(e) && OnTop(stack, e.tag)
  }

  ghost predicate NothingMisread(events: seq<Event>) {
    forall k :: 0 <= k < |events| ==> !Misread(Fed(events[..k]).stack, events[k])
  }

  ghost function Misreadings(events: seq<Event>): nat {
    if events == [] then 0
    else
      var first, e := events[..|events| - 1], events[|events| - 1];
      Misreadings(first) + if Misread(Fed(first).stack, e) then 1 else 0
  }

  lemma NothingMisreadStep(events: seq<Event>)
    requires events != []
    ensures var first, e := events[..|events| - 1], events[|events| - 1];
            NothingMisread(events) <==> NothingMisread(first) && !Misread(Fed(first).stack, e)
  {
    hide Fed;
    hide Misread;
    var first := events[..|events| - 1];
    assert forall k :: 0 <= k < |first| ==> first[..k] == events[..k] && first[k] == events[k];
  }

  lemma {:induction false} MisreadingsCount(events: seq<Event>)
    ensures Misreadings(events) == 0 <==> NothingMisread(events)
  {
    hide Fed;
    hide Misread;
    if events != [] {
      NothingMisreadStep(events);
      MisreadingsCount(events[..|events| - 1]);
    }
  }

  /** Without a misreading the two readings do the same. */
  lemma {:induction false} SameReading(events: seq<Event>)
    requires NothingMisread(events)
    ensures Fed(events) == FedAs(AsLabel, events)
  {
    hide NothingMisread;
    if events != [] {
      var first, e := events[..|events| - 1], events[|events| - 1];
      NothingMisreadStep(events);
      SameReading(first);
    }
  }

  /** Elements opened less elements closed by their end tag. */
  ghost function Depth(events: seq<Event>): int {
    if events == [] then 0
    else
      var e := events[|events| - 1];
      Depth(events[..|events| - 1]) + (if Opens(e) then 1 else 0) - (if Ends(e) then 1 else 0)
  }

  lemma StepDepth(how: Reading, s: Status, e: Event)
    requires Proper(s.stack) && StepAs(how, s, e).problems == s.problems
    ensures |StepAs(how, s, e).stack| == |s.stack| + (if Opens(e) then 1 else 0) - (if Ends(e) then 1 else 0)
                                         - (if how.AsEnd? && Misread(s.stack, e) then 1 else 0)
  {
    hide StepAs;
    StepCases(how, s, e);
    if Opens(e) {
      StepOpens(how, s, e);
    } else if Inert(how, e, Top(s.stack)) {
      StepInert(how, s, e);
    } else {
      StepCloses(how, s, e);
    }
  }

  /** While there is no problem, the stack is as deep as its elements, less those that were misread. */
  lemma {:induction false} StackDepth(how: Reading, events: seq<Event>)
    requires FedAs(how, events).problems == []
    ensures Proper(FedAs(how, events).stack)
    ensures |FedAs(how, events).stack| == Depth(events) - if how.AsEnd? then Misreadings(events) else 0
  {
    hide StepAs;
    hide Proper;
    hide Misread;
    hide Opens;
    hide Ends;
    if events == [] {
      NothingIsProper();
    } else {
      var first, e := events[..|events| - 1], events[|events| - 1];
      var s := FedAs(how, first);
      StepProblems(how, s, e);
      StackDepth(how, first);
      StepDepth(how, s, e);
      FedIsRun(first);
    }
  }

  lemma NothingIsProper()
    ensures Proper([])
  {
  }

  /** The parser is right about ordinary nesting exactly as far as it misreads nothing: if it misreads
      nothing, it reports no problem if and only if the tags nest; and text about which it reports none,
      or whose tags nest, is judged right only then. */
  lemma NestingExactly(events: seq<Event>)
    ensures NothingMisread(events) ==> (ProblemsOf(Fed(events)) == [] <==> StrictlyNested(events))
    ensures ProblemsOf(Fed(events)) == [] ==> (StrictlyNested(events) <==> NothingMisread(events))
    ensures StrictlyNested(events) ==> (ProblemsOf(Fed(events)) == [] <==> NothingMisread(events))
  {
    hide Fed;
    hide FedAs;
    hide WellNested;
    hide NothingMisread;
    hide Misreadings;
    hide Depth;
    FedIsRun(events);
    ProblemsExactly(AsLabel, events);
    if NothingMisread(events) {
      SameReading(events);
    }
    if ProblemsOf(Fed(events)) == [] && StrictlyNested(events) {
      StackDepth(AsEnd, events);
      StackDepth(AsLabel, events);
      MisreadingsCount(events);
    }
  }

  /** In particular it is right when every self-closing tag is a known one. */
  lemma KnownTagsNest(events: seq<Event>)
    requires forall e | e in events :: e.StartEnd? ==> e.recognized
    ensures ProblemsOf(Fed(events)) == [] <==> StrictlyNested(events)
  {
    hide Fed;
    hide WellNested;
    NestingExactly(events);
    assert forall k :: 0 <= k < |events| ==> events[k] in events;
  }

  lemma {:induction false} FedSnoc(events: seq<Event>, e: Event)
    ensures Fed(events + [e]) == Step(Fed(events), e)
    ensures FedAs(AsLabel, events + [e]) == StepAs(AsLabel, FedAs(AsLabel, events), e)
  {
    hide Step;
    hide StepAs;
    assert (events + [e])[..|events|] == events;
  }

  lemma StepsOfB()
    ensures var none, one := Status([], [], multiset{}), Status(["b"], [], multiset{});
            && Step(none, Start("b", true, [])) == one && Step(one, StartEnd("b", false, [])) == none
            && Step(one, End("b", true)) == none && Step(none, End("b", true)) == none.(problems := [Nesting("b")])
  {
    assert "b" !in VOID;
    assert ["b"][..0] == [];
    BelowAt(["b"], "b", 0);
  }

  lemma StartsEmpty()
    ensures Fed([]) == FedAs(AsLabel, []) == Status([], [], multiset{})
  {
  }

  /** An element that nothing closes passes without a problem, if such a tag stands in it. */
  lemma MissesUnclosed()
    ensures var events := [Start("b", true, []), StartEnd("b", false, [])];
            ProblemsOf(Fed(events)) == [] && !StrictlyNested(events)
  {
    hide WellNested;
    hide Fed;
    hide FedAs;
    hide Step;
    var open, odd := Start("b", true, []), StartEnd("b", false, []);
    StepsOfB();
    StartsEmpty();
    FedSnoc([], open);
    FedSnoc([open], odd);
    assert [] + [open] == [open] && [open] + [odd] == [open, odd];
    ProblemsExactly(AsLabel, [open, odd]);
  }

  /** And one that is closed properly is reported. */
  lemma ReportsClosed()
    ensures var events := [Start("b", true, []), StartEnd("b", false, []), End("b", true)];
            ProblemsOf(Fed(events)) == [Nesting("b")] && StrictlyNested(events)
  {
    hide WellNested;
    hide Fed;
    hide FedAs;
    hide Step;
    var open, odd, close := Start("b", true, []), StartEnd("b", false, []), End("b", true);
    StepsOfB();
    StartsEmpty();
    FedSnoc([], open);
    FedSnoc([open], odd);
    FedSnoc([open, odd], close);
    assert [] + [open] == [open] && [open] + [odd] == [open, odd];
    assert [open, odd] + [close] == [open, odd, close];
    ProblemsExactly(AsLabel, [open, odd, close]);
  }
}
