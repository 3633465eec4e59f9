/** The protocol that a DIEDispatcher promises its handlers, and the stack machine that implements it. */
module DieHandlers {
  import opened Options

  /** One attribute of a DIE; `kind` tells which of the six ProcessAttribute functions reports it. */
  datatype Attribute = Attribute(kind: AttributeKind, name: int, form: int, data: int)
  datatype AttributeKind = Unsigned | Signed | Reference | Buffer | String | Signature

  datatype DIE = DIE(offset: int, tag: int, attributes: seq<Attribute>, children: seq<DIE>)

  /** A handler object: the root handler, or the object that some FindChildHandler call returned. */
  datatype Handler = Root | Child(id: int)

  /** The calls made on handlers, with their answers. */
  datatype Call =
    | StartRootDIE(offset: int, tag: int, visit: bool)
    | ProcessAttribute(handler: Handler, attribute: Attribute)
    | EndAttributes(handler: Handler, descend: bool)
    | FindChildHandler(handler: Handler, offset: int, tag: int, found: Option<int>)
    | Finish(handler: Handler)
    | Destroy(handler: Handler)

  /** How the handlers behave: any answers at all, depending on all the calls made before. */
  datatype Handlers = Handlers(
    startRoot: (seq<Call>, int, int) -> bool,
    endAttributes: (seq<Call>, Handler) -> bool,
    findChild: (seq<Call>, Handler, int, int) -> Option<int>)

  // ---------- The documented visit ----------

  function Report(calls: seq<Call>, h: Handler, attributes: seq<Attribute>): seq<Call>
    decreases |attributes|
  {
    if attributes == [] then calls else Report(calls + [ProcessAttribute(h, attributes[0])], h, attributes[1..])
  }

  function Discard(calls: seq<Call>, h: Handler): seq<Call> {
    if h.Root? then calls + [Finish(h)] else calls + [Finish(h), Destroy(h)]
  }

  /** Process `die` with handler `h`: attributes, EndAttributes, the children if that returned true, Finish, and
      destruction unless it is the root handler. */
  function Visit(o: Handlers, calls: seq<Call>, h: Handler, die: DIE): seq<Call>
    decreases die, 1
  {
    VisitRest(o, Report(calls, h, die.attributes), h, die.children)
  }

  /** The visit from EndAttributes on. */
  function VisitRest(o: Handlers, calls: seq<Call>, h: Handler, children: seq<DIE>): seq<Call>
    decreases children, 1
  {
    var descend := o.endAttributes(calls, h);
    var ended := calls + [EndAttributes(h, descend)];
    Discard(if descend then VisitChildren(o, ended, h, children) else ended, h)
  }

  function VisitChildren(o: Handlers, calls: seq<Call>, h: Handler, children: seq<DIE>): seq<Call>
    decreases children, 0
  {
    if children == [] then
      calls
    else
      VisitChildren(o, VisitChild(o, calls, h, children[0]), h, children[1..])
  }

  /** Ask `h` for a handler for `die`, and visit `die` with that, if there is one. */
  function VisitChild(o: Handlers, calls: seq<Call>, h: Handler, die: DIE): seq<Call>
    decreases die, 2
  {
    var found := o.findChild(calls, h, die.offset, die.tag);
    var asked := calls + [FindChildHandler(h, die.offset, die.tag, found)];
    if found.Some? then Visit(o, asked, Child(found.value), die) else asked
  }

  function VisitRoot(o: Handlers, calls: seq<Call>, die: DIE): seq<Call> {
    var visit := o.startRoot(calls, die.offset, die.tag);
    var asked := calls + [StartRootDIE(die.offset, die.tag, visit)];
    if visit then Visit(o, asked, Root, die) else asked
  }

  // ---------- The stack machine ----------

  /** `HandlerStack`. */
  datatype Entry = Entry(offset: int, handler: Option<Handler>, reportedAttributesEnd: bool)

  /** The stack, its top last, and the calls made; `ok` is false once an assertion has failed. */
  datatype State = State(stack: seq<Entry>, calls: seq<Call>, ok: bool)

  function Pop(stack: seq<Entry>): seq<Entry>
    requires stack != []
  {
    stack[..|stack| - 1]
  }

  function Top(stack: seq<Entry>): Entry
    requires stack != []
  {
    stack[|stack| - 1]
  }

  function StartDIE(o: Handlers, s: State, offset: int, tag: int): (State, bool) {
    if s.stack == [] then
      var visit := o.startRoot(s.calls, offset, tag);
      var handler := if visit then Some(Root) else None;
      (State([Entry(offset, handler, false)], s.calls + [StartRootDIE(offset, tag, visit)], s.ok), visit)
    else
      var parent := Top(s.stack);
      if parent.handler.None? then
        (s, false)
      else
        var h := parent.handler.value;
        if parent.reportedAttributesEnd then
          AskParent(o, s, h, offset, tag)
        else
          var descend := o.endAttributes(s.calls, h);
          var ended := s.calls + [EndAttributes(h, descend)];
          if descend then
            AskParent(o, s.(stack := Pop(s.stack) + [parent.(reportedAttributesEnd := true)], calls := ended), h, offset, tag)
          else
            (s.(stack := Pop(s.stack) + [Entry(parent.offset, None, true)], calls := Discard(ended, h)), false)
  }

  function AskParent(o: Handlers, s: State, h: Handler, offset: int, tag: int): (State, bool) {
    var found := o.findChild(s.calls, h, offset, tag);
    var handler := if found.Some? then Some(Child(found.value)) else None;
    (s.(stack := s.stack + [Entry(offset, handler, false)],
        calls := s.calls + [FindChildHandler(h, offset, tag, found)]), found.Some?)
  }

  function EndDIE(o: Handlers, s: State, offset: int): State {
    if s.stack == [] then
      s.(ok := false)
    else
      var entry := Top(s.stack);
      if entry.handler.None? then
        if entry.offset != offset then s else s.(stack := Pop(s.stack))
      else
        var h := entry.handler.value;
        var ended := if entry.reportedAttributesEnd then s.calls else s.calls + [EndAttributes(h, o.endAttributes(s.calls, h))];
        State(Pop(s.stack), Discard(ended, h), s.ok && entry.offset == offset)
  }

  function ProcessAttributeAt(s: State, offset: int, attribute: Attribute): State {
    if s.stack == [] || Top(s.stack).handler.None? then
      s.(ok := false)
    else
      var current := Top(s.stack);
      s.(calls := s.calls + [ProcessAttribute(current.handler.value, attribute)], ok := s.ok && offset == current.offset)
  }

  function ProcessAttributes(s: State, offset: int, attributes: seq<Attribute>): State
    decreases |attributes|
  {
    if attributes == [] then s else ProcessAttributes(ProcessAttributeAt(s, offset, attributes[0]), offset, attributes[1..])
  }

  /** The events of one DIE and its descendants, as `CompilationUnit::ProcessDIEs` produces them: attributes only if
      StartDIE returned true, children in any case. */
  function Walk(o: Handlers, s: State, die: DIE): State
    decreases die, 1
  {
    var (started, interested) := StartDIE(o, s, die.offset, die.tag);
    var reported := if interested then ProcessAttributes(started, die.offset, die.attributes) else started;
    EndDIE(o, WalkAll(o, reported, die.children), die.offset)
  }

  function WalkAll(o: Handlers, s: State, dies: seq<DIE>): State
    decreases dies, 0
  {
    if dies == [] then s else WalkAll(o, Walk(o, s, dies[0]), dies[1..])
  }

  // ---------- The machine performs the visit ----------

  ghost function Offsets(die: DIE): set<int>
    decreases die, 1
  {
    {die.offset} + AllOffsets(die.children)
  }

  ghost function AllOffsets(dies: seq<DIE>): set<int>
    decreases dies, 0
  {
    if dies == [] then {} else Offsets(dies[0]) + AllOffsets(dies[1..])
  }

  /** No DIE has the offset of one of its descendants. */
  ghost predicate Proper(die: DIE)
    decreases die, 1
  {
    die.offset !in AllOffsets(die.children) && AllProper(die.children)
  }

  ghost predicate AllProper(dies: seq<DIE>)
    decreases dies, 0
  {
    dies == [] || (Proper(dies[0]) && AllProper(dies[1..]))
  }

  /** Under an entry that is being ignored, a whole subtree changes nothing: that one entry stands for all of it. */
  lemma {:induction false} WalkIgnored(o: Handlers, s: State, die: DIE)
    requires s.stack != [] && Top(s.stack).handler.None? && Top(s.stack).offset !in Offsets(die)
    ensures Walk(o, s, die) == s
    decreases die, 1
  {
    WalkAllIgnored(o, s, die.children);
  }

  lemma {:induction false} WalkAllIgnored(o: Handlers, s: State, dies: seq<DIE>)
    requires s.stack != [] && Top(s.stack).handler.None? && Top(s.stack).offset !in AllOffsets(dies)
    ensures WalkAll(o, s, dies) == s
    decreases dies, 0
  {
    if dies != [] {
      WalkIgnored(o, s, dies[0]);
      WalkAllIgnored(o, s, dies[1..]);
    }
  }

  lemma {:induction false} AttributesReported(s: State, offset: int, h: Handler, attributes: seq<Attribute>)
    requires s.stack != [] && Top(s.stack).handler == Some(h) && Top(s.stack).offset == offset
    ensures ProcessAttributes(s, offset, attributes) == s.(calls := Report(s.calls, h, attributes))
    decreases |attributes|
  {
    if attributes != [] {
      AttributesReported(ProcessAttributeAt(s, offset, attributes[0]), offset, h, attributes[1..]);
    }
  }

  /** Once the parent's EndAttributes has returned true, the walk of a child asks the parent and performs the visit, and
      leaves the stack as it was. */
  lemma {:induction false} WalkChild(o: Handlers, s: State, h: Handler, die: DIE)
    requires s.stack != [] && Top(s.stack).handler == Some(h) && Top(s.stack).reportedAttributesEnd
    requires Proper(die)
    ensures Walk(o, s, die) == s.(calls := VisitChild(o, s.calls, h, die))
    decreases die, 2
  {
    var found := o.findChild(s.calls, h, die.offset, die.tag);
    var (started, interested) := StartDIE(o, s, die.offset, die.tag);
    assert Pop(started.stack) == s.stack;
    if found.Some? {
      AttributesReported(started, die.offset, Child(found.value), die.attributes);
      var reported := ProcessAttributes(started, die.offset, die.attributes);
      WalkRest(o, reported, Child(found.value), die);
    } else {
      WalkAllIgnored(o, started, die.children);
    }
  }

  lemma {:induction false} WalkChildren(o: Handlers, s: State, h: Handler, dies: seq<DIE>)
    requires s.stack != [] && Top(s.stack).handler == Some(h) && Top(s.stack).reportedAttributesEnd
    requires AllProper(dies)
    ensures WalkAll(o, s, dies) == s.(calls := VisitChildren(o, s.calls, h, dies))
    decreases dies, 0
  {
    if dies != [] {
      WalkChild(o, s, h, dies[0]);
      WalkChildren(o, s.(calls := VisitChild(o, s.calls, h, dies[0])), h, dies[1..]);
    }
  }

  /** From the end of the attributes on: the children and EndDIE perform the rest of the visit and pop the entry. */
  lemma {:induction false} WalkRest(o: Handlers, s: State, h: Handler, die: DIE)
    requires s.stack != [] && Top(s.stack) == Entry(die.offset, Some(h), false)
    requires die.offset !in AllOffsets(die.children) && AllProper(die.children)
    ensures EndDIE(o, WalkAll(o, s, die.children), die.offset)
         == s.(stack := Pop(s.stack), calls := VisitRest(o, s.calls, h, die.children))
    decreases die, 1
  {
    var descend := o.endAttributes(s.calls, h);
    var ended := s.calls + [EndAttributes(h, descend)];
    var below := Pop(s.stack);
    if die.children != [] {
      var first, rest := die.children[0], die.children[1..];
      if descend {
        // The first StartDIE marks the entry and asks for a handler; the others find it marked.
        var marked := s.(stack := below + [Entry(die.offset, Some(h), true)], calls := ended);
        assert Pop(marked.stack) == below;
        FirstChild(o, s, marked, h, first);
        WalkChild(o, marked, h, first);
        WalkChildren(o, marked.(calls := VisitChild(o, ended, h, first)), h, rest);
      } else {
        // The first StartDIE finishes the handler off and leaves an entry that ignores all the children.
        var ignoring := s.(stack := below + [Entry(die.offset, None, true)], calls := Discard(ended, h));
        assert Pop(ignoring.stack) == below;
        FirstIgnored(o, s, ignoring, first);
        WalkAllIgnored(o, ignoring, rest);
      }
    }
  }

  /** The first child is walked as if its parent's entry had been marked beforehand. */
  lemma {:induction false} FirstChild(o: Handlers, s: State, marked: State, h: Handler, die: DIE)
    requires s.stack != [] && Top(s.stack).handler == Some(h) && !Top(s.stack).reportedAttributesEnd
    requires o.endAttributes(s.calls, h)
    requires marked == s.(stack := Pop(s.stack) + [Top(s.stack).(reportedAttributesEnd := true)],
                          calls := s.calls + [EndAttributes(h, true)])
    ensures Walk(o, s, die) == Walk(o, marked, die)
  {
  }

  lemma {:induction false} FirstIgnored(o: Handlers, s: State, ignoring: State, die: DIE)
    requires s.stack != [] && Top(s.stack).handler.Some? && !Top(s.stack).reportedAttributesEnd
    requires var h := Top(s.stack).handler.value;
             && !o.endAttributes(s.calls, h)
             && ignoring == s.(stack := Pop(s.stack) + [Entry(Top(s.stack).offset, None, true)],
                               calls := Discard(s.calls + [EndAttributes(h, false)], h))
    requires Top(s.stack).offset !in Offsets(die)
    ensures Walk(o, s, die) == ignoring
  {
    WalkAllIgnored(o, ignoring, die.children);
  }

  /** The whole compilation unit: from an empty stack, the machine makes exactly the calls of the documented visit, no
      assertion fails, and the stack is empty again. */
  lemma {:induction false} WalkRoot(o: Handlers, calls: seq<Call>, die: DIE)
    requires Proper(die)
    ensures Walk(o, State([], calls, true), die) == State([], VisitRoot(o, calls, die), true)
  {
    var s := State([], calls, true);
    var (started, interested) := StartDIE(o, s, die.offset, die.tag);
    assert Pop(started.stack) == [];
    if interested {
      AttributesReported(started, die.offset, Root, die.attributes);
      WalkRest(o, ProcessAttributes(started, die.offset, die.attributes), Root, die);
    } else {
      WalkAllIgnored(o, started, die.children);
    }
  }

  // ---------- Each handler's life ----------

  /** How often a handler has been handed out, and received EndAttributes, Finish and its destruction. */
  datatype Tally = Tally(given: int, ended: int, finished: int, destroyed: int) {
    function Plus(that: Tally): Tally {
      Tally(given + that.given, ended + that.ended, finished + that.finished, destroyed + that.destroyed)
    }
  }

  function One(call: Call, x: Handler): Tally {
    match call
    case StartRootDIE(_, _, visit) => Tally(if visit && x.Root? then 1 else 0, 0, 0, 0)
    case FindChildHandler(_, _, _, found) => Tally(if found.Some? && x == Child(found.value) then 1 else 0, 0, 0, 0)
    case EndAttributes(h, _) => Tally(0, if h == x then 1 else 0, 0, 0)
    case Finish(h) => Tally(0, 0, if h == x then 1 else 0, 0)
    case Destroy(h) => Tally(0, 0, 0, if h == x then 1 else 0)
    case ProcessAttribute(_, _) => Tally(0, 0, 0, 0)
  }

  function Count(calls: seq<Call>, x: Handler): Tally {
    if calls == [] then Tally(0, 0, 0, 0) else Count(calls[..|calls| - 1], x).Plus(One(calls[|calls| - 1], x))
  }

  lemma CountNone(x: Handler)
    ensures Count([], x) == Tally(0, 0, 0, 0)
  {
  }

  lemma CountSnoc(calls: seq<Call>, call: Call, x: Handler)
    ensures Count(calls + [call], x) == Count(calls, x).Plus(One(call, x))
  {
    assert (calls + [call])[..|calls|] == calls;
  }

  lemma CountDiscard(calls: seq<Call>, h: Handler, x: Handler)
    ensures Count(Discard(calls, h), x)
         == Count(calls, x).Plus(if h != x then Tally(0, 0, 0, 0) else Tally(0, 0, 1, if h.Root? then 0 else 1))
  {
    hide Count;
    CountSnoc(calls, Finish(h), x);
    CountSnoc(calls + [Finish(h)], Destroy(h), x);
    assert calls + [Finish(h)] + [Destroy(h)] == calls + [Finish(h), Destroy(h)];
  }

  /** Between two points of a visit, handler `x` was handed out some number of times, and as often, and `extra` times
      more, received EndAttributes and Finish, and was destroyed, unless it is the root handler. */
  ghost predicate LivedOut(before: Tally, after: Tally, x: Handler, extra: int) {
    var given := after.given - before.given + extra;
    && after.ended - before.ended == given
    && after.finished - before.finished == given
    && after.destroyed - before.destroyed == if x.Root? then 0 else given
  }

  lemma {:induction false} CountReport(calls: seq<Call>, h: Handler, attributes: seq<Attribute>, x: Handler)
    ensures Count(Report(calls, h, attributes), x) == Count(calls, x)
    decreases |attributes|
  {
    hide Count;
    if attributes != [] {
      CountSnoc(calls, ProcessAttribute(h, attributes[0]), x);
      CountReport(calls + [ProcessAttribute(h, attributes[0])], h, attributes[1..], x);
    }
  }

  lemma {:induction false} VisitLivedOut(o: Handlers, calls: seq<Call>, h: Handler, die: DIE, x: Handler)
    ensures LivedOut(Count(calls, x), Count(Visit(o, calls, h, die), x), x, if x == h then 1 else 0)
    decreases die, 1
  {
    hide Count;
    var reported := Report(calls, h, die.attributes);
    CountReport(calls, h, die.attributes, x);
    var descend := o.endAttributes(reported, h);
    var ended := reported + [EndAttributes(h, descend)];
    CountSnoc(reported, EndAttributes(h, descend), x);
    if descend {
      VisitChildrenLivedOut(o, ended, h, die.children, x);
      CountDiscard(VisitChildren(o, ended, h, die.children), h, x);
    } else {
      CountDiscard(ended, h, x);
    }
  }

  lemma {:induction false} VisitChildrenLivedOut(o: Handlers, calls: seq<Call>, h: Handler, dies: seq<DIE>, x: Handler)
    ensures LivedOut(Count(calls, x), Count(VisitChildren(o, calls, h, dies), x), x, 0)
    decreases dies, 0
  {
    hide Count;
    if dies != [] {
      var die := dies[0];
      var found := o.findChild(calls, h, die.offset, die.tag);
      var asked := calls + [FindChildHandler(h, die.offset, die.tag, found)];
      CountSnoc(calls, FindChildHandler(h, die.offset, die.tag, found), x);
      if found.Some? {
        VisitLivedOut(o, asked, Child(found.value), die, x);
      }
      VisitChildrenLivedOut(o, VisitChild(o, calls, h, die), h, dies[1..], x);
    }
  }

  lemma VisitRootLivedOut(o: Handlers, calls: seq<Call>, die: DIE, x: Handler)
    ensures LivedOut(Count(calls, x), Count(VisitRoot(o, calls, die), x), x, 0)
  {
    hide Visit, Count;
    var visit := o.startRoot(calls, die.offset, die.tag);
    var asked := calls + [StartRootDIE(die.offset, die.tag, visit)];
    CountSnoc(calls, StartRootDIE(die.offset, die.tag, visit), x);
    if visit {
      VisitLivedOut(o, asked, Root, die, x);
    }
  }

  /** Over a whole compilation unit, every handler receives EndAttributes and Finish exactly as often as it was handed
      out, and every handler but the root is destroyed as often. */
  lemma RootLivedOut(o: Handlers, die: DIE, x: Handler)
    ensures var t := Count(VisitRoot(o, [], die), x);
            t.ended == t.given && t.finished == t.given && t.destroyed == if x.Root? then 0 else t.given
  {
    hide VisitRoot, Count;
    CountNone(x);
    VisitRootLivedOut(o, [], die, x);
  }

  // ---------- Any sequence of events ----------

  datatype Event = Start(offset: int, tag: int) | End(offset: int) | Attr(offset: int, attribute: Attribute)

  function Step(o: Handlers, s: State, e: Event): State {
    match e
    case Start(offset, tag) => StartDIE(o, s, offset, tag).0
    case End(offset) => EndDIE(o, s, offset)
    case Attr(offset, attribute) => ProcessAttributeAt(s, offset, attribute)
  }

  function Run(o: Handlers, s: State, events: seq<Event>): State
    decreases |events|
  {
    if events == [] then s else Run(o, Step(o, s, events[0]), events[1..])
  }

  /** `~DIEDispatcher`: pop the entries from the top, destroying all handlers but the root. */
  function Destruct(stack: seq<Entry>, calls: seq<Call>): seq<Call>
    decreases |stack|
  {
    if stack == [] then
      calls
    else
      var h := Top(stack).handler;
      Destruct(Pop(stack), if h.Some? && h.value != Root then calls + [Destroy(h.value)] else calls)
  }

  function OnStack(stack: seq<Entry>, x: Handler): int
    decreases |stack|
  {
    if stack == [] then 0 else OnStack(Pop(stack), x) + (if Top(stack).handler == Some(x) then 1 else 0)
  }

  /** Those on the stack that have not received EndAttributes. */
  function Unreported(stack: seq<Entry>, x: Handler): int
    decreases |stack|
  {
    if stack == [] then
      0
    else
      Unreported(Pop(stack), x)
      + (if Top(stack).handler == Some(x) && !Top(stack).reportedAttributesEnd then 1 else 0)
  }

  /** Below the top of the stack there are only handlers, and these have received EndAttributes. */
  ghost predicate NullsOnTop(stack: seq<Entry>) {
    forall i :: 0 <= i < |stack| - 1 ==> stack[i].handler.Some? && stack[i].reportedAttributesEnd
  }

  ghost predicate Accounted(s: State, x: Handler) {
    var t := Count(s.calls, x);
    && t.given == t.finished + OnStack(s.stack, x)
    && t.given == t.ended + Unreported(s.stack, x)
    && t.destroyed == if x.Root? then 0 else t.finished
  }

  lemma PushCounts(stack: seq<Entry>, entry: Entry, x: Handler)
    ensures Pop(stack + [entry]) == stack && Top(stack + [entry]) == entry
    ensures OnStack(stack + [entry], x) == OnStack(stack, x) + (if entry.handler == Some(x) then 1 else 0)
    ensures Unreported(stack + [entry], x)
         == Unreported(stack, x) + (if entry.handler == Some(x) && !entry.reportedAttributesEnd then 1 else 0)
  {
    assert Pop(stack + [entry]) == stack;
  }

  lemma TopCounts(stack: seq<Entry>, x: Handler)
    requires stack != []
    ensures OnStack(stack, x) == OnStack(Pop(stack), x) + (if Top(stack).handler == Some(x) then 1 else 0)
    ensures Unreported(stack, x)
         == Unreported(Pop(stack), x)
            + (if Top(stack).handler == Some(x) && !Top(stack).reportedAttributesEnd then 1 else 0)
  {
  }

  lemma NothingOnStack(x: Handler)
    ensures OnStack([], x) == 0 && Unreported([], x) == 0
  {
  }

  lemma {:induction false} AskParentAccounted(o: Handlers, s: State, h: Handler, offset: int, tag: int, x: Handler)
    requires Accounted(s, x)
    ensures Accounted(AskParent(o, s, h, offset, tag).0, x)
  {
    hide Count, OnStack, Unreported;
    var found := o.findChild(s.calls, h, offset, tag);
    CountSnoc(s.calls, FindChildHandler(h, offset, tag, found), x);
    PushCounts(s.stack, Entry(offset, if found.Some? then Some(Child(found.value)) else None, false), x);
  }

  lemma {:induction false} RootAccounted(o: Handlers, s: State, offset: int, tag: int, x: Handler)
    requires Accounted(s, x) && s.stack == []
    ensures Accounted(StartDIE(o, s, offset, tag).0, x)
  {
    hide Count, OnStack, Unreported, AskParent;
    var visit := o.startRoot(s.calls, offset, tag);
    CountSnoc(s.calls, StartRootDIE(offset, tag, visit), x);
    NothingOnStack(x);
    PushCounts([], Entry(offset, if visit then Some(Root) else None, false), x);
  }

  /** A first child: its parent receives EndAttributes, and is asked or discarded. */
  lemma {:induction false} FirstChildAccounted(o: Handlers, s: State, offset: int, tag: int, x: Handler)
    requires Accounted(s, x) && s.stack != [] && Top(s.stack).handler.Some? && !Top(s.stack).reportedAttributesEnd
    ensures Accounted(StartDIE(o, s, offset, tag).0, x)
  {
    hide Count, OnStack, Unreported, AskParent;
    var parent := Top(s.stack);
    var h := parent.handler.value;
    TopCounts(s.stack, x);
    var descend := o.endAttributes(s.calls, h);
    var ended := s.calls + [EndAttributes(h, descend)];
    CountSnoc(s.calls, EndAttributes(h, descend), x);
    if descend {
      PushCounts(Pop(s.stack), parent.(reportedAttributesEnd := true), x);
      var marked := s.(stack := Pop(s.stack) + [parent.(reportedAttributesEnd := true)], calls := ended);
      AskParentAccounted(o, marked, h, offset, tag, x);
    } else {
      CountDiscard(ended, h, x);
      PushCounts(Pop(s.stack), Entry(parent.offset, None, true), x);
    }
  }

  lemma {:induction false} StartAccounted(o: Handlers, s: State, offset: int, tag: int, x: Handler)
    requires Accounted(s, x)
    ensures Accounted(StartDIE(o, s, offset, tag).0, x)
  {
    hide Accounted, AskParent;
    if s.stack == [] {
      RootAccounted(o, s, offset, tag, x);
    } else if Top(s.stack).handler.Some? {
      if Top(s.stack).reportedAttributesEnd {
        AskParentAccounted(o, s, Top(s.stack).handler.value, offset, tag, x);
      } else {
        FirstChildAccounted(o, s, offset, tag, x);
      }
    }
  }

  lemma {:induction false} EndAccounted(o: Handlers, s: State, offset: int, x: Handler)
    requires Accounted(s, x)
    ensures Accounted(EndDIE(o, s, offset), x)
  {
    hide Count, OnStack, Unreported;
    if s.stack != [] {
      TopCounts(s.stack, x);
    }
    if s.stack != [] && Top(s.stack).handler.Some? {
      var h := Top(s.stack).handler.value;
      CountSnoc(s.calls, EndAttributes(h, o.endAttributes(s.calls, h)), x);
      var ended := if Top(s.stack).reportedAttributesEnd then s.calls
                   else s.calls + [EndAttributes(h, o.endAttributes(s.calls, h))];
      CountDiscard(ended, h, x);
    }
  }

  lemma {:induction false} AttributeAccounted(s: State, offset: int, attribute: Attribute, x: Handler)
    requires Accounted(s, x)
    ensures Accounted(ProcessAttributeAt(s, offset, attribute), x)
  {
    hide Count, OnStack, Unreported;
    if s.stack != [] && Top(s.stack).handler.Some? {
      CountSnoc(s.calls, ProcessAttribute(Top(s.stack).handler.value, attribute), x);
    }
  }

  lemma {:induction false} StepAccounted(o: Handlers, s: State, e: Event, x: Handler)
    requires Accounted(s, x)
    ensures Accounted(Step(o, s, e), x)
  {
    hide Accounted, StartDIE, EndDIE, ProcessAttributeAt;
    match e {
      case Start(offset, tag) => StartAccounted(o, s, offset, tag, x);
      case End(offset) => EndAccounted(o, s, offset, x);
      case Attr(offset, attribute) => AttributeAccounted(s, offset, attribute, x);
    }
  }

  lemma {:induction false} StepNullsOnTop(o: Handlers, s: State, e: Event)
    requires NullsOnTop(s.stack)
    ensures NullsOnTop(Step(o, s, e).stack)
  {
  }

  /** Whatever the order of events, the books balance and null entries stay on top. */
  lemma {:induction false} RunKeeps(o: Handlers, s: State, events: seq<Event>, x: Handler)
    requires Accounted(s, x) && NullsOnTop(s.stack)
    ensures Accounted(Run(o, s, events), x) && NullsOnTop(Run(o, s, events).stack)
    decreases |events|
  {
    hide Accounted, NullsOnTop, Step;
    if events != [] {
      StepAccounted(o, s, events[0], x);
      StepNullsOnTop(o, s, events[0]);
      RunKeeps(o, Step(o, s, events[0]), events[1..], x);
    }
  }

  lemma {:induction false} DestructCounts(stack: seq<Entry>, calls: seq<Call>, x: Handler)
    ensures var before, after := Count(calls, x), Count(Destruct(stack, calls), x);
            after == before.(destroyed := before.destroyed + if x.Root? then 0 else OnStack(stack, x))
    decreases |stack|
  {
    hide Count;
    if stack != [] {
      var h := Top(stack).handler;
      if h.Some? && h.value != Root {
        CountSnoc(calls, Destroy(h.value), x);
        DestructCounts(Pop(stack), calls + [Destroy(h.value)], x);
      } else {
        DestructCounts(Pop(stack), calls, x);
      }
    }
  }

  /** If the events stop anywhere and the dispatcher is destroyed, every handler handed out has been destroyed as often,
      and the root handler never. */
  lemma DestructionIsComplete(o: Handlers, events: seq<Event>, x: Handler)
    ensures var s := Run(o, State([], [], true), events);
            var t := Count(Destruct(s.stack, s.calls), x);
            t.destroyed == if x.Root? then 0 else t.given
  {
    CountNone(x);
    RunKeeps(o, State([], [], true), events, x);
    var s := Run(o, State([], [], true), events);
    DestructCounts(s.stack, s.calls, x);
  }

  // ---------- A failed assertion stays failed ----------

  lemma {:induction false} WalkKeepsFailure(o: Handlers, s: State, die: DIE)
    ensures Walk(o, s, die).ok ==> s.ok
    decreases die, 1
  {
    var (started, interested) := StartDIE(o, s, die.offset, die.tag);
    if interested {
      AttributesKeepFailure(started, die.offset, die.attributes);
      WalkAllKeepsFailure(o, ProcessAttributes(started, die.offset, die.attributes), die.children);
    } else {
      WalkAllKeepsFailure(o, started, die.children);
    }
  }

  lemma {:induction false} WalkAllKeepsFailure(o: Handlers, s: State, dies: seq<DIE>)
    ensures WalkAll(o, s, dies).ok ==> s.ok
    decreases dies, 0
  {
    if dies != [] {
      WalkKeepsFailure(o, s, dies[0]);
      WalkAllKeepsFailure(o, Walk(o, s, dies[0]), dies[1..]);
    }
  }

  lemma {:induction false} AttributesKeepFailure(s: State, offset: int, attributes: seq<Attribute>)
    ensures ProcessAttributes(s, offset, attributes).ok ==> s.ok
    decreases |attributes|
  {
    if attributes != [] {
      AttributesKeepFailure(ProcessAttributeAt(s, offset, attributes[0]), offset, attributes[1..]);
    }
  }
}
