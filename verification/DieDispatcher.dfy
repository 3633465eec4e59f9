/** DIEDispatcher, as a class over its stack of entries. */
module DieDispatcher {
  import Spec = DieHandlers
  import opened DieHandlers
  import opened DieLives
  import opened Options

  /** What StartDIE answers and does: to `stack`, which becomes `after`, and to the calls made. */
  ghost predicate Begun(o: Handlers, stack: seq<Entry>, before: seq<Call>, offset: int, tag: int,
                        interested: bool, after: seq<Entry>, calls: seq<Call>) {
    if stack == [] then
      && interested == o.startRoot(before, offset, tag)
      && calls == before + [StartRootDIE(offset, tag, interested)]
      && after == [Entry(offset, if interested then Some(Root) else None, false)]
    else if Top(stack).handler.None? then
      !interested && calls == before && after == stack
    else
      var h := Top(stack).handler.value;
      var reported := Top(stack).reportedAttributesEnd;
      var descend := reported || o.endAttributes(before, h);
      var ended := before + if reported then [] else [EndAttributes(h, descend)];
      if descend then
        var found := o.findChild(ended, h, offset, tag);
        && interested == found.Some?
        && calls == ended + [FindChildHandler(h, offset, tag, found)]
        && after == stack[..|stack| - 1]
                    + [Entry(Top(stack).offset, Some(h), true),
                       Entry(offset, if found.Some? then Some(Child(found.value)) else None, false)]
      else
        && !interested
        && calls == ended + (if h == Root then [Finish(Root)] else [Finish(h), Destroy(h)])
        && after == stack[..|stack| - 1] + [Entry(Top(stack).offset, None, true)]
  }

  lemma StartBegins(o: Handlers, s: State, offset: int, tag: int)
    ensures var (next, interested) := Spec.StartDIE(o, s, offset, tag);
            Begun(o, s.stack, s.calls, offset, tag, interested, next.stack, next.calls)
  {
    if s.stack != [] && Top(s.stack).handler.Some? {
      var entry := Top(s.stack);
      assert s.calls + [] == s.calls && Pop(s.stack) + [entry] == s.stack;
      TwoMore(Pop(s.stack), entry.(reportedAttributesEnd := true));
    }
  }

  lemma TwoMore(stack: seq<Entry>, entry: Entry)
    ensures forall next :: stack + [entry] + [next] == stack + [entry, next]
  {
  }

  class DIEDispatcher {
    var dieHandlers: seq<Entry>
    /** The handlers, and the calls made on them so far. */
    const handlers: Handlers
    var calls: seq<Call>

    constructor (handlers: Handlers)
      ensures this.handlers == handlers && dieHandlers == [] && calls == []
    {
      this.handlers, dieHandlers, calls := handlers, [], [];
    }

    function Now(): State
      reads this
    {
      State(dieHandlers, calls, true)
    }

    // The virtual calls on handler objects.

    method CallStartRootDIE(offset: int, tag: int) returns (visit: bool)
      modifies this`calls
      ensures visit == handlers.startRoot(old(calls), offset, tag)
      ensures calls == old(calls) + [StartRootDIE(offset, tag, visit)]
    {
      visit := handlers.startRoot(calls, offset, tag);
      calls := calls + [StartRootDIE(offset, tag, visit)];
    }

    method CallEndAttributes(h: Handler) returns (descend: bool)
      modifies this`calls
      ensures descend == handlers.endAttributes(old(calls), h) && calls == old(calls) + [EndAttributes(h, descend)]
    {
      descend := handlers.endAttributes(calls, h);
      calls := calls + [EndAttributes(h, descend)];
    }

    method CallFindChildHandler(h: Handler, offset: int, tag: int) returns (handler: Option<Handler>)
      modifies this`calls
      ensures var found := handlers.findChild(old(calls), h, offset, tag);
              && calls == old(calls) + [FindChildHandler(h, offset, tag, found)]
              && handler == if found.Some? then Some(Child(found.value)) else None
    {
      var found := handlers.findChild(calls, h, offset, tag);
      calls := calls + [FindChildHandler(h, offset, tag, found)];
      handler := if found.Some? then Some(Child(found.value)) else None;
    }

    /** `Finish`, and `delete` unless it is the root handler. */
    method FinishOff(h: Handler)
      modifies this`calls
      ensures calls == Discard(old(calls), h) == old(calls) + if h.Root? then [Finish(h)] else [Finish(h), Destroy(h)]
    {
      calls := calls + [Finish(h)];
      if h != Root {
        calls := calls + [Destroy(h)];
      }
    }

    method StartDIE(offset: int, tag: int) returns (interested: bool)
      modifies this
      ensures (Now(), interested) == Spec.StartDIE(handlers, old(Now()), offset, tag)
      ensures Begun(handlers, old(dieHandlers), old(calls), offset, tag, interested, dieHandlers, calls)
    {
      StartBegins(handlers, Now(), offset, tag);
      var top := |dieHandlers| - 1;
      // The first child: the parent will get no more attributes.
      if top >= 0 && dieHandlers[top].handler.Some? && !dieHandlers[top].reportedAttributesEnd {
        dieHandlers := dieHandlers[top := dieHandlers[top].(reportedAttributesEnd := true)];
        assert dieHandlers == Pop(old(dieHandlers)) + [Top(old(dieHandlers)).(reportedAttributesEnd := true)];
        var descend := CallEndAttributes(dieHandlers[top].handler.value);
        if !descend {
          FinishOff(dieHandlers[top].handler.value);
          dieHandlers := dieHandlers[top := dieHandlers[top].(handler := None)];
          assert dieHandlers == Pop(old(dieHandlers)) + [Entry(Top(old(dieHandlers)).offset, None, true)];
          return false;
        }
      }
      var handler: Option<Handler>;
      if top >= 0 {
        if dieHandlers[top].handler.Some? {
          handler := CallFindChildHandler(dieHandlers[top].handler.value, offset, tag);
        } else {
          handler := None;
        }
      } else {
        var visit := CallStartRootDIE(offset, tag);
        handler := if visit then Some(Root) else None;
      }
      // An ignored DIE under an ignored DIE needs no entry of its own.
      if handler.Some? || top < 0 || dieHandlers[top].handler.Some? {
        dieHandlers := dieHandlers + [Entry(offset, handler, false)];
        assert top < 0 ==> dieHandlers == [Entry(offset, handler, false)];
      }
      return handler.Some?;
    }

    method EndDIE(offset: int)
      // The two assertions of the source.
      requires dieHandlers != []
      requires Top(dieHandlers).handler.Some? ==> Top(dieHandlers).offset == offset
      modifies this
      ensures Now() == Spec.EndDIE(handlers, old(Now()), offset)
      ensures old(Top(dieHandlers).handler.None?) ==>
                calls == old(calls) && dieHandlers == if old(Top(dieHandlers).offset) == offset then old(Pop(dieHandlers))
                                                      else old(dieHandlers)
      ensures old(Top(dieHandlers).handler.Some?) ==>
                var h := old(Top(dieHandlers).handler.value);
                var last := EndAttributes(h, handlers.endAttributes(old(calls), h));
                && calls == old(calls) + (if old(Top(dieHandlers).reportedAttributesEnd) then [] else [last])
                            + (if h.Root? then [Finish(h)] else [Finish(h), Destroy(h)])
                && dieHandlers == old(Pop(dieHandlers))
    {
      var entry := dieHandlers[|dieHandlers| - 1];
      if entry.handler.Some? {
        if !entry.reportedAttributesEnd {
          // No children: the answer is not used.
          var _ := CallEndAttributes(entry.handler.value);
        }
        FinishOff(entry.handler.value);
      } else {
        // The one null entry goes only with the DIE it was made for.
        if entry.offset != offset {
          return;
        }
      }
      dieHandlers := dieHandlers[..|dieHandlers| - 1];
    }

    /** Any of the six ProcessAttribute functions. */
    method ProcessAttribute(offset: int, attribute: Attribute)
      requires dieHandlers != [] && Top(dieHandlers).handler.Some? && offset == Top(dieHandlers).offset
      modifies this`calls
      ensures Now() == ProcessAttributeAt(old(Now()), offset, attribute)
      ensures calls == old(calls) + [Spec.ProcessAttribute(Top(dieHandlers).handler.value, attribute)]
    {
      var current := dieHandlers[|dieHandlers| - 1];
      calls := calls + [Spec.ProcessAttribute(current.handler.value, attribute)];
    }

    /** `CompilationUnit::ProcessDIEs`, on one DIE and its descendants. */
    method ProcessDIE(die: DIE)
      requires Walk(handlers, Now(), die).ok
      modifies this
      ensures Now() == Walk(handlers, old(Now()), die)
      decreases die, 1
    {
      ghost var s := Now();
      var interested := StartDIE(die.offset, die.tag);
      ghost var started := Now();
      ghost var reported := if interested then ProcessAttributes(started, die.offset, die.attributes) else started;
      WalkAllKeepsFailure(handlers, reported, die.children);
      if interested {
        var i := 0;
        while i < |die.attributes|
          invariant i <= |die.attributes|
          invariant ProcessAttributes(Now(), die.offset, die.attributes[i..]) == reported
        {
          AttributesKeepFailure(ProcessAttributeAt(Now(), die.offset, die.attributes[i]), die.offset, die.attributes[i..][1..]);
          assert die.attributes[i..][1..] == die.attributes[i + 1..];
          ProcessAttribute(die.offset, die.attributes[i]);
          i := i + 1;
        }
      }
      ProcessDIEs(die.children);
      EndDIE(die.offset);
    }

    method ProcessDIEs(dies: seq<DIE>)
      requires WalkAll(handlers, Now(), dies).ok
      modifies this
      ensures Now() == WalkAll(handlers, old(Now()), dies)
      decreases dies, 0
    {
      if dies != [] {
        WalkAllKeepsFailure(handlers, Walk(handlers, Now(), dies[0]), dies[1..]);
        ProcessDIE(dies[0]);
        ProcessDIEs(dies[1..]);
      }
    }

    /** A compilation unit: the handlers receive exactly the documented calls, no assertion fails on the way, and the
        dispatcher is left as it was. */
    method ProcessCompilationUnit(die: DIE)
      requires Proper(die) && dieHandlers == []
      modifies this
      ensures dieHandlers == [] && calls == VisitRoot(handlers, old(calls), die)
      ensures old(calls) == [] ==> forall x: Handler :: InOrder(calls, x)
      ensures old(calls) == [] ==> forall x: Handler :: x.Root? || Fresh(calls, x) ==> LifeOf(calls, x, false) == Some(Gone)
    {
      hide VisitRoot, Walk, InOrder, Fresh, LifeOf;
      WalkRoot(handlers, calls, die);
      forall x: Handler
        ensures InOrder(VisitRoot(handlers, [], die), x)
      {
        VisitRootInOrder(handlers, die, x);
      }
      forall x: Handler | x.Root? || Fresh(VisitRoot(handlers, [], die), x)
        ensures LifeOf(VisitRoot(handlers, [], die), x, false) == Some(Gone)
      {
        VisitRootLives(handlers, die, x);
      }
      ProcessDIE(die);
    }

    /** The destructor. */
    method Dispose()
      modifies this
      ensures dieHandlers == [] && calls == Destruct(old(dieHandlers), old(calls))
    {
      while dieHandlers != []
        invariant Destruct(dieHandlers, calls) == Destruct(old(dieHandlers), old(calls))
        decreases |dieHandlers|
      {
        var entry := dieHandlers[|dieHandlers| - 1];
        if entry.handler.Some? && entry.handler.value != Root {
          calls := calls + [Destroy(entry.handler.value)];
        }
        dieHandlers := dieHandlers[..|dieHandlers| - 1];
      }
    }
  }
}
