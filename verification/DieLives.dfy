/** What each handler lives through, told from the calls alone. */
module DieLives {
  import opened DieHandlers
  import opened Options
  import opened Sequences

  /** The call hands out `x`. */
  predicate Hands(call: Call, x: Handler) {
    match call
    case StartRootDIE(_, _, visit) => visit && x.Root?
    case FindChildHandler(_, _, _, found) => found.Some? && x == Child(found.value)
    case _ => false
  }

  /** The call is made on `x`. StartRootDIE, which asks whether to begin, is left aside. */
  predicate On(call: Call, x: Handler) {
    match call
    case StartRootDIE(_, _, _) => false
    case ProcessAttribute(h, _) => h == x
    case EndAttributes(h, _) => h == x
    case FindChildHandler(h, _, _, _) => h == x
    case Finish(h) => h == x
    case Destroy(h) => h == x
  }

  /** What ends a life: destruction, or Finish for the root handler. */
  function LastCall(x: Handler): Call {
    if x.Root? then Finish(x) else Destroy(x)
  }

  /** `x` has been handed out, and its life has not ended since. */
  ghost predicate Alive(calls: seq<Call>, x: Handler) {
    exists k :: 0 <= k < |calls| && Hands(calls[k], x) && forall j :: k < j < |calls| ==> calls[j] != LastCall(x)
  }

  /** No call is made on `x` before it is handed out, or after it is destroyed and before it is handed out again. */
  ghost predicate CalledAlive(calls: seq<Call>, x: Handler) {
    forall i :: 0 <= i < |calls| && On(calls[i], x) ==> Alive(calls[..i], x)
  }

  /** `x` is not handed out while it is in use. */
  ghost predicate Fresh(calls: seq<Call>, x: Handler) {
    forall i :: 0 <= i < |calls| && Hands(calls[i], x) ==> !Alive(calls[..i], x)
  }

  /** The destruction of `x` comes immediately after its Finish. */
  ghost predicate FinishedFirst(calls: seq<Call>, x: Handler) {
    forall i :: 0 <= i < |calls| && calls[i] == Destroy(x) ==> i > 0 && calls[i - 1] == Finish(x)
  }

  /** Every Finish of `x` has an EndAttributes before it, which no earlier Finish has used up. */
  ghost predicate EndedFirst(calls: seq<Call>, x: Handler) {
    forall i :: 0 <= i < |calls| && calls[i] == Finish(x) ==> Count(calls[..i], x).finished < Count(calls[..i], x).ended
  }

  /** The root handler, which belongs to the caller, is not destroyed; any other is at once after Finish. */
  ghost predicate InOrder(calls: seq<Call>, x: Handler) {
    && FinishedFirst(calls, x)
    && EndedFirst(calls, x)
    && Count(calls, x).finished <= Count(calls, x).ended
    && (x.Root? ==> Destroy(x) !in calls)
  }

  // ---------- One call more ----------

  lemma AliveSnoc(calls: seq<Call>, call: Call, x: Handler)
    ensures Alive(calls + [call], x) <==> Hands(call, x) || (Alive(calls, x) && call != LastCall(x))
  {
    hide Hands, LastCall;
    var all := calls + [call];
    assert all[|calls|] == call;
    if Alive(calls, x) && call != LastCall(x) {
      var k :| 0 <= k < |calls| && Hands(calls[k], x) && forall j :: k < j < |calls| ==> calls[j] != LastCall(x);
      assert Hands(all[k], x);
    }
    if Alive(all, x) && !Hands(call, x) {
      var k :| 0 <= k < |all| && Hands(all[k], x) && forall j :: k < j < |all| ==> all[j] != LastCall(x);
      assert Hands(calls[k], x) && all[|calls|] != LastCall(x);
      assert forall j :: k < j < |calls| ==> calls[j] == all[j];
    }
  }

  lemma CalledAliveSnoc(calls: seq<Call>, call: Call, x: Handler)
    ensures CalledAlive(calls + [call], x) <==> CalledAlive(calls, x) && (On(call, x) ==> Alive(calls, x))
  {
    hide On, Alive;
    var all := calls + [call];
    assert all[|calls|] == call && all[..|calls|] == calls;
    assert forall i :: 0 <= i < |calls| ==> all[i] == calls[i] && all[..i] == calls[..i];
  }

  lemma FreshSnoc(calls: seq<Call>, call: Call, x: Handler)
    ensures Fresh(calls + [call], x) <==> Fresh(calls, x) && (Hands(call, x) ==> !Alive(calls, x))
  {
    hide Hands, Alive;
    var all := calls + [call];
    assert all[|calls|] == call && all[..|calls|] == calls;
    assert forall i :: 0 <= i < |calls| ==> all[i] == calls[i] && all[..i] == calls[..i];
  }

  lemma FinishedFirstSnoc(calls: seq<Call>, call: Call, x: Handler)
    requires FinishedFirst(calls, x)
    requires call == Destroy(x) ==> calls != [] && calls[|calls| - 1] == Finish(x)
    ensures FinishedFirst(calls + [call], x)
  {
  }

  lemma EndedFirstSnoc(calls: seq<Call>, call: Call, x: Handler)
    requires EndedFirst(calls, x)
    requires call == Finish(x) ==> Count(calls, x).finished < Count(calls, x).ended
    ensures EndedFirst(calls + [call], x)
  {
    hide Count;
    var all := calls + [call];
    forall i | 0 <= i < |all| && all[i] == Finish(x)
      ensures Count(all[..i], x).finished < Count(all[..i], x).ended
    {
      TakeOfConcat(calls, [call], i);
      if i < |calls| {
        assert calls[i] == Finish(x);
      } else {
        EmptyEnds(calls);
        assert [call][..0] == [];
      }
    }
  }

  lemma InOrderSnoc(calls: seq<Call>, call: Call, x: Handler)
    requires InOrder(calls, x)
    requires call == Destroy(x) ==> !x.Root? && calls != [] && calls[|calls| - 1] == Finish(x)
    requires call == Finish(x) ==> Count(calls, x).finished < Count(calls, x).ended
    ensures InOrder(calls + [call], x)
  {
    hide FinishedFirst, EndedFirst, Count;
    FinishedFirstSnoc(calls, call, x);
    EndedFirstSnoc(calls, call, x);
    CountSnoc(calls, call, x);
  }

  lemma InOrderNone(x: Handler)
    ensures InOrder([], x)
  {
  }

  lemma InOrderDiscard(calls: seq<Call>, h: Handler, x: Handler)
    requires InOrder(calls, x)
    requires h == x ==> Count(calls, x).finished < Count(calls, x).ended
    ensures InOrder(Discard(calls, h), x)
  {
    hide Count, InOrder;
    InOrderSnoc(calls, Finish(h), x);
    if !h.Root? {
      InOrderSnoc(calls + [Finish(h)], Destroy(h), x);
      assert calls + [Finish(h)] + [Destroy(h)] == calls + [Finish(h), Destroy(h)];
    }
  }

  // ---------- A life ----------

  /** Not handed out; handed out and receiving attributes; after EndAttributes, with its answer; after Finish. */
  datatype Life = Gone | Reporting | Asking(descend: bool) | Done

  /** The documented series of calls, and nothing else: attributes, EndAttributes, FindChildHandler if that returned true,
      Finish, and at once destruction, unless it is the root handler. `late` lets attributes come after EndAttributes, as
      they do when a DIE's attributes are reported after its children. */
  function Next(life: Life, call: Call, x: Handler, late: bool): Option<Life> {
    if Hands(call, x) then
      if life.Gone? && !On(call, x) then Some(Reporting) else None
    else if On(call, x) then
      match call
      case StartRootDIE(_, _, _) => None
      case ProcessAttribute(_, _) => if life.Reporting? || (late && life.Asking?) then Some(life) else None
      case EndAttributes(_, descend) => if life.Reporting? then Some(Asking(descend)) else None
      case FindChildHandler(_, _, _, _) => if life == Asking(true) then Some(life) else None
      case Finish(_) => if life.Asking? then Some(if x.Root? then Gone else Done) else None
      case Destroy(_) => if life.Done? then Some(Gone) else None
    else
      if life.Done? then None else Some(life)
  }

  /** Nothing if some call was out of order. */
  function LifeOf(calls: seq<Call>, x: Handler, late: bool): Option<Life> {
    if calls == [] then Some(Gone)
    else
      var before := LifeOf(calls[..|calls| - 1], x, late);
      if before.Some? then Next(before.value, calls[|calls| - 1], x, late) else None
  }

  lemma LifeSnoc(calls: seq<Call>, call: Call, x: Handler, late: bool)
    ensures LifeOf(calls + [call], x, late)
         == var before := LifeOf(calls, x, late); if before.Some? then Next(before.value, call, x, late) else None
  {
    hide Next;
    assert (calls + [call])[..|calls|] == calls;
  }

  lemma NoLife(x: Handler, late: bool)
    ensures LifeOf([], x, late) == Some(Gone) && !Alive([], x) && Fresh([], x) && CalledAlive([], x)
  {
  }

  /** An ordered life is a fresh one, in which calls are made only while it lasts. */
  lemma {:induction false} LifeMeans(calls: seq<Call>, x: Handler, late: bool)
    requires LifeOf(calls, x, late).Some?
    ensures Alive(calls, x) <==> LifeOf(calls, x, late) != Some(Gone)
    ensures Fresh(calls, x) && CalledAlive(calls, x)
    ensures x.Root? ==> LifeOf(calls, x, late) != Some(Done)
  {
    hide Alive, Fresh, CalledAlive, LifeOf;
    if calls == [] {
      NoLife(x, late);
    } else {
      var init, call := calls[..|calls| - 1], calls[|calls| - 1];
      assert init + [call] == calls;
      LifeSnoc(init, call, x, late);
      LifeMeans(init, x, late);
      AliveSnoc(init, call, x);
      FreshSnoc(init, call, x);
      CalledAliveSnoc(init, call, x);
    }
  }

  lemma FreshBefore(calls: seq<Call>, more: seq<Call>, x: Handler)
    requires calls <= more && Fresh(more, x)
    ensures Fresh(calls, x)
  {
    hide Hands, Alive;
    forall i | 0 <= i < |calls| && Hands(calls[i], x)
      ensures !Alive(calls[..i], x)
    {
      assert more[..i] == calls[..i] && more[i] == calls[i];
    }
  }

  // ---------- The documented visit ----------

  lemma {:induction false} ReportExtends(calls: seq<Call>, h: Handler, attributes: seq<Attribute>)
    ensures calls <= Report(calls, h, attributes)
    decreases |attributes|
  {
    if attributes != [] {
      ReportExtends(calls + [ProcessAttribute(h, attributes[0])], h, attributes[1..]);
    }
  }

  lemma {:induction false} VisitExtends(o: Handlers, calls: seq<Call>, h: Handler, die: DIE)
    ensures calls <= Visit(o, calls, h, die)
    decreases die, 2
  {
    ReportExtends(calls, h, die.attributes);
    VisitRestExtends(o, Report(calls, h, die.attributes), h, die.children);
  }

  lemma {:induction false} VisitRestExtends(o: Handlers, calls: seq<Call>, h: Handler, children: seq<DIE>)
    ensures calls + [EndAttributes(h, o.endAttributes(calls, h))] <= VisitRest(o, calls, h, children)
    decreases children, 1
  {
    VisitChildrenExtends(o, calls + [EndAttributes(h, o.endAttributes(calls, h))], h, children);
  }

  lemma {:induction false} VisitChildrenExtends(o: Handlers, calls: seq<Call>, h: Handler, children: seq<DIE>)
    ensures calls <= VisitChildren(o, calls, h, children)
    ensures children != [] ==> VisitChild(o, calls, h, children[0]) <= VisitChildren(o, calls, h, children)
    decreases children, 0
  {
    if children != [] {
      VisitChildExtends(o, calls, h, children[0]);
      VisitChildrenExtends(o, VisitChild(o, calls, h, children[0]), h, children[1..]);
    }
  }

  lemma {:induction false} VisitChildExtends(o: Handlers, calls: seq<Call>, h: Handler, die: DIE)
    ensures var found := o.findChild(calls, h, die.offset, die.tag);
            calls + [FindChildHandler(h, die.offset, die.tag, found)] <= VisitChild(o, calls, h, die)
    decreases die, 3
  {
    hide Visit;
    var found := o.findChild(calls, h, die.offset, die.tag);
    if found.Some? {
      VisitExtends(o, calls + [FindChildHandler(h, die.offset, die.tag, found)], Child(found.value), die);
    }
  }

  /** In the middle of a visit by `h`, handler `x` is at `life`: `h` itself at `own`, and no other is finished and not yet
      destroyed. */
  ghost predicate At(calls: seq<Call>, h: Handler, x: Handler, own: Life, life: Life) {
    LifeOf(calls, x, false) == Some(life) && if x == h then life == own else !life.Done?
  }

  lemma {:induction false} ReportLives(calls: seq<Call>, h: Handler, attributes: seq<Attribute>, x: Handler, life: Life)
    requires At(calls, h, x, Reporting, life)
    ensures At(Report(calls, h, attributes), h, x, Reporting, life)
    decreases |attributes|
  {
    hide LifeOf;
    if attributes != [] {
      LifeSnoc(calls, ProcessAttribute(h, attributes[0]), x, false);
      ReportLives(calls + [ProcessAttribute(h, attributes[0])], h, attributes[1..], x, life);
    }
  }

  lemma DiscardLives(calls: seq<Call>, h: Handler, x: Handler, descend: bool, life: Life)
    requires At(calls, h, x, Asking(descend), life)
    ensures LifeOf(Discard(calls, h), x, false) == Some(if x == h then Gone else life)
  {
    hide LifeOf;
    LifeSnoc(calls, Finish(h), x, false);
    LifeSnoc(calls + [Finish(h)], Destroy(h), x, false);
    assert calls + [Finish(h)] + [Destroy(h)] == calls + [Finish(h), Destroy(h)];
  }

  lemma {:induction false} VisitLives(o: Handlers, calls: seq<Call>, h: Handler, die: DIE, x: Handler, life: Life)
    requires At(calls, h, x, Reporting, life)
    requires x.Root? || Fresh(Visit(o, calls, h, die), x)
    ensures LifeOf(Visit(o, calls, h, die), x, false) == Some(if x == h then Gone else life)
    decreases die, 2
  {
    hide At, LifeOf, Fresh;
    ReportLives(calls, h, die.attributes, x, life);
    VisitRestLives(o, Report(calls, h, die.attributes), h, die.children, x, life);
  }

  lemma {:induction false} VisitRestLives(o: Handlers, calls: seq<Call>, h: Handler, children: seq<DIE>, x: Handler, life: Life)
    requires At(calls, h, x, Reporting, life)
    requires x.Root? || Fresh(VisitRest(o, calls, h, children), x)
    ensures LifeOf(VisitRest(o, calls, h, children), x, false) == Some(if x == h then Gone else life)
    decreases children, 1
  {
    hide LifeOf, Fresh, VisitChildren;
    var descend := o.endAttributes(calls, h);
    var ended := calls + [EndAttributes(h, descend)];
    var now := if x == h then Asking(descend) else life;
    LifeSnoc(calls, EndAttributes(h, descend), x, false);
    if descend {
      var visited := VisitChildren(o, ended, h, children);
      if !x.Root? {
        FreshBefore(visited, Discard(visited, h), x);
      }
      VisitChildrenLives(o, ended, h, children, x, now);
      DiscardLives(visited, h, x, descend, now);
    } else {
      DiscardLives(ended, h, x, descend, now);
    }
  }

  lemma {:induction false} VisitChildrenLives(o: Handlers, calls: seq<Call>, h: Handler, dies: seq<DIE>, x: Handler, life: Life)
    requires At(calls, h, x, Asking(true), life)
    requires x.Root? || Fresh(VisitChildren(o, calls, h, dies), x)
    ensures At(VisitChildren(o, calls, h, dies), h, x, Asking(true), life)
    decreases dies, 0
  {
    hide At, LifeOf, Fresh, VisitChild;
    if dies != [] {
      if !x.Root? {
        VisitChildrenExtends(o, calls, h, dies);
        FreshBefore(VisitChild(o, calls, h, dies[0]), VisitChildren(o, calls, h, dies), x);
      }
      VisitChildLives(o, calls, h, dies[0], x, life);
      VisitChildrenLives(o, VisitChild(o, calls, h, dies[0]), h, dies[1..], x, life);
    }
  }

  lemma {:induction false} VisitChildLives(o: Handlers, calls: seq<Call>, h: Handler, die: DIE, x: Handler, life: Life)
    requires At(calls, h, x, Asking(true), life)
    requires x.Root? || Fresh(VisitChild(o, calls, h, die), x)
    ensures At(VisitChild(o, calls, h, die), h, x, Asking(true), life)
    decreases die, 3
  {
    hide LifeOf, Fresh, Alive, Visit;
    var found := o.findChild(calls, h, die.offset, die.tag);
    var call := FindChildHandler(h, die.offset, die.tag, found);
    if !x.Root? {
      VisitChildExtends(o, calls, h, die);
      FreshBefore(calls + [call], VisitChild(o, calls, h, die), x);
      FreshSnoc(calls, call, x);
      LifeMeans(calls, x, false);
    }
    LifeSnoc(calls, call, x, false);
    if found.Some? {
      VisitLives(o, calls + [call], Child(found.value), die, x, if x == Child(found.value) then Reporting else life);
    }
  }

  /** In the visit of a compilation unit a handler receives the documented series of calls each time it is handed out, with
      nothing between its Finish and its destruction, and no call at any other time, provided that no FindChildHandler
      hands it out while it is in use. */
  lemma VisitRootLives(o: Handlers, die: DIE, x: Handler)
    requires x.Root? || Fresh(VisitRoot(o, [], die), x)
    ensures LifeOf(VisitRoot(o, [], die), x, false) == Some(Gone)
  {
    hide LifeOf, Fresh, Visit;
    var visit := o.startRoot([], die.offset, die.tag);
    var call := StartRootDIE(die.offset, die.tag, visit);
    NoLife(x, false);
    LifeSnoc([], call, x, false);
    assert [] + [call] == [call];
    if visit {
      VisitLives(o, [call], Root, die, x, if x.Root? then Reporting else Gone);
    }
  }

  // ---------- When the proviso fails ----------

  /** If calls are made on `x` only while it is in use, it has been handed out no less often than destroyed, and more often
      than that if it was ever handed out while in use. */
  lemma {:induction false} Surplus(calls: seq<Call>, x: Handler)
    requires !x.Root? && CalledAlive(calls, x)
    ensures var t, used := Count(calls, x), if Alive(calls, x) then 1 else 0;
            t.given - t.destroyed >= used && (!Fresh(calls, x) ==> t.given - t.destroyed > used)
  {
    hide Alive, Fresh, CalledAlive, Count;
    if calls == [] {
      NoLife(x, false);
      CountNone(x);
    } else {
      var init, call := calls[..|calls| - 1], calls[|calls| - 1];
      assert init + [call] == calls;
      CalledAliveSnoc(init, call, x);
      Surplus(init, x);
      AliveSnoc(init, call, x);
      FreshSnoc(init, call, x);
      CountSnoc(init, call, x);
    }
  }

  /** In the visit of a compilation unit, calls are made on `x` only while it is in use exactly if no FindChildHandler hands
      it out while it is. */
  lemma VisitCalledAliveExactly(o: Handlers, die: DIE, x: Handler)
    requires !x.Root?
    ensures CalledAlive(VisitRoot(o, [], die), x) <==> Fresh(VisitRoot(o, [], die), x)
  {
    hide VisitRoot, CalledAlive, Fresh, Count;
    var calls := VisitRoot(o, [], die);
    if CalledAlive(calls, x) {
      Surplus(calls, x);
      RootLivedOut(o, die, x);
    }
    if Fresh(calls, x) {
      VisitRootLives(o, die, x);
      LifeMeans(calls, x, false);
    }
  }

  // ---------- Any sequence of events ----------

  /** Where `x` is in its life, as the stack tells it. */
  function StackLife(stack: seq<Entry>, x: Handler): Life
    decreases |stack|
  {
    if stack == [] then Gone
    else if Top(stack).handler == Some(x) then (if Top(stack).reportedAttributesEnd then Asking(true) else Reporting)
    else StackLife(Pop(stack), x)
  }

  /** `x` is on the stack once at most, and where its calls say it is. */
  ghost predicate Lives(s: State, x: Handler) {
    OnStack(s.stack, x) <= 1 && LifeOf(s.calls, x, true) == Some(StackLife(s.stack, x))
  }

  lemma {:induction false} StackLifeGone(stack: seq<Entry>, x: Handler)
    ensures OnStack(stack, x) >= 0 && (StackLife(stack, x) == Gone <==> OnStack(stack, x) == 0)
    decreases |stack|
  {
    if stack != [] {
      StackLifeGone(Pop(stack), x);
    }
  }

  lemma {:induction false} StackLifeNotDone(stack: seq<Entry>, x: Handler)
    ensures !StackLife(stack, x).Done?
    decreases |stack|
  {
    if stack != [] {
      StackLifeNotDone(Pop(stack), x);
    }
  }

  lemma PushLife(stack: seq<Entry>, entry: Entry, x: Handler)
    ensures StackLife(stack + [entry], x)
         == if entry.handler == Some(x) then (if entry.reportedAttributesEnd then Asking(true) else Reporting)
            else StackLife(stack, x)
    ensures OnStack(stack + [entry], x) == OnStack(stack, x) + (if entry.handler == Some(x) then 1 else 0)
  {
    assert Pop(stack + [entry]) == stack && Top(stack + [entry]) == entry;
  }

  lemma TopLife(stack: seq<Entry>, x: Handler)
    requires stack != []
    ensures OnStack(stack, x) == OnStack(Pop(stack), x) + (if Top(stack).handler == Some(x) then 1 else 0)
    ensures Top(stack).handler != Some(x) ==> StackLife(stack, x) == StackLife(Pop(stack), x)
    ensures Top(stack).handler == Some(x) ==>
              StackLife(stack, x) == if Top(stack).reportedAttributesEnd then Asking(true) else Reporting
  {
  }

  lemma AskParentLives(o: Handlers, s: State, h: Handler, offset: int, tag: int, x: Handler)
    requires Lives(s, x) && s.stack != [] && Top(s.stack) == Entry(Top(s.stack).offset, Some(h), true)
    requires x.Root? || Fresh(AskParent(o, s, h, offset, tag).0.calls, x)
    ensures Lives(AskParent(o, s, h, offset, tag).0, x)
  {
    hide LifeOf, Fresh, Alive, StackLife, OnStack;
    var found := o.findChild(s.calls, h, offset, tag);
    var call := FindChildHandler(h, offset, tag, found);
    LifeSnoc(s.calls, call, x, true);
    LifeMeans(s.calls, x, true);
    TopLife(s.stack, x);
    StackLifeGone(Pop(s.stack), x);
    StackLifeGone(s.stack, x);
    StackLifeNotDone(s.stack, x);
    PushLife(s.stack, Entry(offset, if found.Some? then Some(Child(found.value)) else None, false), x);
    if !x.Root? {
      FreshSnoc(s.calls, call, x);
    }
  }

  lemma DiscardStackLives(calls: seq<Call>, h: Handler, x: Handler, descend: bool, life: Life)
    requires LifeOf(calls, x, true) == Some(life) && if x == h then life == Asking(descend) else !life.Done?
    ensures LifeOf(Discard(calls, h), x, true) == Some(if x == h then Gone else life)
  {
    hide LifeOf;
    LifeSnoc(calls, Finish(h), x, true);
    LifeSnoc(calls + [Finish(h)], Destroy(h), x, true);
    assert calls + [Finish(h)] + [Destroy(h)] == calls + [Finish(h), Destroy(h)];
  }

  lemma StartRootLives(o: Handlers, s: State, offset: int, tag: int, x: Handler)
    requires Lives(s, x) && s.stack == []
    ensures Lives(StartDIE(o, s, offset, tag).0, x)
  {
    hide LifeOf;
    var visit := o.startRoot(s.calls, offset, tag);
    LifeSnoc(s.calls, StartRootDIE(offset, tag, visit), x, true);
    PushLife([], Entry(offset, if visit then Some(Root) else None, false), x);
    assert [] + [Entry(offset, if visit then Some(Root) else None, false)]
        == [Entry(offset, if visit then Some(Root) else None, false)];
  }

  lemma FirstChildLives(o: Handlers, s: State, offset: int, tag: int, x: Handler)
    requires Lives(s, x) && s.stack != [] && Top(s.stack).handler.Some? && !Top(s.stack).reportedAttributesEnd
    requires x.Root? || Fresh(StartDIE(o, s, offset, tag).0.calls, x)
    ensures Lives(StartDIE(o, s, offset, tag).0, x)
  {
    hide LifeOf, Fresh, StackLife, OnStack, AskParent, Discard;
    var parent := Top(s.stack);
    var h := parent.handler.value;
    var below, descend := Pop(s.stack), o.endAttributes(s.calls, h);
    var ended := s.calls + [EndAttributes(h, descend)];
    LifeSnoc(s.calls, EndAttributes(h, descend), x, true);
    TopLife(s.stack, x);
    StackLifeNotDone(below, x);
    StackLifeGone(below, x);
    if descend {
      var marked := s.(stack := below + [parent.(reportedAttributesEnd := true)], calls := ended);
      PushLife(below, parent.(reportedAttributesEnd := true), x);
      assert Top(marked.stack) == parent.(reportedAttributesEnd := true);
      AskParentLives(o, marked, h, offset, tag, x);
    } else {
      PushLife(below, Entry(parent.offset, None, true), x);
      DiscardStackLives(ended, h, x, false, if x == h then Asking(false) else StackLife(s.stack, x));
    }
  }

  lemma StartLives(o: Handlers, s: State, offset: int, tag: int, x: Handler)
    requires Lives(s, x)
    requires x.Root? || Fresh(StartDIE(o, s, offset, tag).0.calls, x)
    ensures Lives(StartDIE(o, s, offset, tag).0, x)
  {
    hide Lives, Fresh, AskParent;
    if s.stack == [] {
      StartRootLives(o, s, offset, tag, x);
    } else if Top(s.stack).handler.Some? {
      if Top(s.stack).reportedAttributesEnd {
        AskParentLives(o, s, Top(s.stack).handler.value, offset, tag, x);
      } else {
        FirstChildLives(o, s, offset, tag, x);
      }
    }
  }

  lemma EndLives(o: Handlers, s: State, offset: int, x: Handler)
    requires Lives(s, x)
    ensures Lives(EndDIE(o, s, offset), x)
  {
    hide LifeOf, StackLife, OnStack, Discard;
    if s.stack != [] {
      var entry, below := Top(s.stack), Pop(s.stack);
      TopLife(s.stack, x);
      StackLifeNotDone(below, x);
      StackLifeGone(below, x);
      if entry.handler.Some? {
        var h := entry.handler.value;
        var descend := o.endAttributes(s.calls, h);
        LifeSnoc(s.calls, EndAttributes(h, descend), x, true);
        if entry.reportedAttributesEnd {
          DiscardStackLives(s.calls, h, x, true, StackLife(s.stack, x));
        } else {
          DiscardStackLives(s.calls + [EndAttributes(h, descend)], h, x, descend,
                            if x == h then Asking(descend) else StackLife(s.stack, x));
        }
      }
    }
  }

  lemma AttributeLives(s: State, offset: int, attribute: Attribute, x: Handler)
    requires Lives(s, x)
    ensures Lives(ProcessAttributeAt(s, offset, attribute), x)
  {
    hide LifeOf, StackLife, OnStack;
    if s.stack != [] && Top(s.stack).handler.Some? {
      LifeSnoc(s.calls, ProcessAttribute(Top(s.stack).handler.value, attribute), x, true);
      TopLife(s.stack, x);
      StackLifeNotDone(s.stack, x);
    }
  }

  lemma StepLives(o: Handlers, s: State, e: Event, x: Handler)
    requires Lives(s, x)
    requires x.Root? || Fresh(Step(o, s, e).calls, x)
    ensures Lives(Step(o, s, e), x)
  {
    hide Lives, Fresh, StartDIE, EndDIE, ProcessAttributeAt;
    match e {
      case Start(offset, tag) => StartLives(o, s, offset, tag, x);
      case End(offset) => EndLives(o, s, offset, x);
      case Attr(offset, attribute) => AttributeLives(s, offset, attribute, x);
    }
  }

  lemma StepExtends(o: Handlers, s: State, e: Event)
    ensures s.calls <= Step(o, s, e).calls
  {
  }

  lemma {:induction false} RunExtends(o: Handlers, s: State, events: seq<Event>)
    ensures s.calls <= Run(o, s, events).calls
    decreases |events|
  {
    hide Step;
    if events != [] {
      StepExtends(o, s, events[0]);
      RunExtends(o, Step(o, s, events[0]), events[1..]);
    }
  }

  lemma {:induction false} RunKeepsLives(o: Handlers, s: State, events: seq<Event>, x: Handler)
    requires Lives(s, x)
    requires x.Root? || Fresh(Run(o, s, events).calls, x)
    ensures Lives(Run(o, s, events), x)
    decreases |events|
  {
    hide Lives, Fresh, Step;
    if events != [] {
      var next := Step(o, s, events[0]);
      RunExtends(o, next, events[1..]);
      if !x.Root? {
        FreshBefore(next.calls, Run(o, s, events).calls, x);
      }
      StepLives(o, s, events[0], x);
      RunKeepsLives(o, next, events[1..], x);
    }
  }

  /** Whatever the events, a handler is on the stack exactly while it is in use, and has received a beginning of the
      documented series of calls since it was handed out, provided that no FindChildHandler hands it out while it is in
      use. */
  lemma RunLives(o: Handlers, events: seq<Event>, x: Handler)
    requires x.Root? || Fresh(Run(o, State([], [], true), events).calls, x)
    ensures Lives(Run(o, State([], [], true), events), x)
  {
    hide LifeOf, Fresh, Run;
    NoLife(x, true);
    RunKeepsLives(o, State([], [], true), events, x);
  }

  // ---------- Without the proviso ----------

  lemma {:induction false} ReportInOrder(calls: seq<Call>, h: Handler, attributes: seq<Attribute>, x: Handler)
    requires InOrder(calls, x)
    ensures InOrder(Report(calls, h, attributes), x)
    decreases |attributes|
  {
    hide InOrder;
    if attributes != [] {
      InOrderSnoc(calls, ProcessAttribute(h, attributes[0]), x);
      ReportInOrder(calls + [ProcessAttribute(h, attributes[0])], h, attributes[1..], x);
    }
  }

  lemma {:induction false} VisitInOrder(o: Handlers, calls: seq<Call>, h: Handler, die: DIE, x: Handler)
    requires InOrder(calls, x)
    ensures InOrder(Visit(o, calls, h, die), x)
    decreases die, 1
  {
    hide FinishedFirst, EndedFirst, Count;
    var reported := Report(calls, h, die.attributes);
    ReportInOrder(calls, h, die.attributes, x);
    var descend := o.endAttributes(reported, h);
    var ended := reported + [EndAttributes(h, descend)];
    InOrderSnoc(reported, EndAttributes(h, descend), x);
    CountSnoc(reported, EndAttributes(h, descend), x);
    if descend {
      VisitChildrenLivedOut(o, ended, h, die.children, x);
      VisitChildrenInOrder(o, ended, h, die.children, x);
      InOrderDiscard(VisitChildren(o, ended, h, die.children), h, x);
    } else {
      InOrderDiscard(ended, h, x);
    }
  }

  lemma {:induction false} VisitChildrenInOrder(o: Handlers, calls: seq<Call>, h: Handler, dies: seq<DIE>, x: Handler)
    requires InOrder(calls, x)
    ensures InOrder(VisitChildren(o, calls, h, dies), x)
    decreases dies, 0
  {
    hide InOrder, Count;
    if dies != [] {
      var die := dies[0];
      var found := o.findChild(calls, h, die.offset, die.tag);
      var asked := calls + [FindChildHandler(h, die.offset, die.tag, found)];
      InOrderSnoc(calls, FindChildHandler(h, die.offset, die.tag, found), x);
      if found.Some? {
        VisitInOrder(o, asked, Child(found.value), die, x);
      }
      VisitChildrenInOrder(o, VisitChild(o, calls, h, die), h, dies[1..], x);
    }
  }

  /** In the visit of a compilation unit, whatever the answers, each destruction comes immediately after a Finish of the
      same handler, and each Finish after an EndAttributes of its own. */
  lemma VisitRootInOrder(o: Handlers, die: DIE, x: Handler)
    ensures InOrder(VisitRoot(o, [], die), x)
  {
    hide InOrder, Visit;
    var visit := o.startRoot([], die.offset, die.tag);
    InOrderNone(x);
    InOrderSnoc([], StartRootDIE(die.offset, die.tag, visit), x);
    if visit {
      VisitInOrder(o, [] + [StartRootDIE(die.offset, die.tag, visit)], Root, die, x);
    }
  }

  lemma {:induction false} CountsBounded(stack: seq<Entry>, x: Handler)
    ensures 0 <= Unreported(stack, x) <= OnStack(stack, x)
    decreases |stack|
  {
    if stack != [] {
      CountsBounded(Pop(stack), x);
    }
  }

  lemma StartInOrder(o: Handlers, s: State, offset: int, tag: int, x: Handler)
    requires Accounted(s, x) && InOrder(s.calls, x)
    ensures InOrder(StartDIE(o, s, offset, tag).0.calls, x)
  {
    hide InOrder, Count, OnStack, Unreported, Discard;
    if s.stack == [] {
      InOrderSnoc(s.calls, StartRootDIE(offset, tag, o.startRoot(s.calls, offset, tag)), x);
    } else if Top(s.stack).handler.Some? {
      var h := Top(s.stack).handler.value;
      if Top(s.stack).reportedAttributesEnd {
        InOrderSnoc(s.calls, FindChildHandler(h, offset, tag, o.findChild(s.calls, h, offset, tag)), x);
      } else {
        var descend := o.endAttributes(s.calls, h);
        var ended := s.calls + [EndAttributes(h, descend)];
        InOrderSnoc(s.calls, EndAttributes(h, descend), x);
        CountSnoc(s.calls, EndAttributes(h, descend), x);
        TopCounts(s.stack, x);
        CountsBounded(Pop(s.stack), x);
        InOrderSnoc(ended, FindChildHandler(h, offset, tag, o.findChild(ended, h, offset, tag)), x);
        InOrderDiscard(ended, h, x);
      }
    }
  }

  lemma EndInOrder(o: Handlers, s: State, offset: int, x: Handler)
    requires Accounted(s, x) && InOrder(s.calls, x)
    ensures InOrder(EndDIE(o, s, offset).calls, x)
  {
    hide InOrder, Count, OnStack, Unreported, Discard;
    if s.stack != [] && Top(s.stack).handler.Some? {
      var h := Top(s.stack).handler.value;
      var ended := s.calls + [EndAttributes(h, o.endAttributes(s.calls, h))];
      TopCounts(s.stack, x);
      CountsBounded(Pop(s.stack), x);
      if Top(s.stack).reportedAttributesEnd {
        InOrderDiscard(s.calls, h, x);
      } else {
        InOrderSnoc(s.calls, EndAttributes(h, o.endAttributes(s.calls, h)), x);
        CountSnoc(s.calls, EndAttributes(h, o.endAttributes(s.calls, h)), x);
        InOrderDiscard(ended, h, x);
      }
    }
  }

  lemma StepInOrder(o: Handlers, s: State, e: Event, x: Handler)
    requires Accounted(s, x) && InOrder(s.calls, x)
    ensures InOrder(Step(o, s, e).calls, x)
  {
    hide Accounted, InOrder, StartDIE, EndDIE;
    match e {
      case Start(offset, tag) => StartInOrder(o, s, offset, tag, x);
      case End(offset) => EndInOrder(o, s, offset, x);
      case Attr(_, attribute) =>
        if s.stack != [] && Top(s.stack).handler.Some? {
          InOrderSnoc(s.calls, ProcessAttribute(Top(s.stack).handler.value, attribute), x);
        }
    }
  }

  lemma {:induction false} RunKeepsInOrder(o: Handlers, s: State, events: seq<Event>, x: Handler)
    requires Accounted(s, x) && InOrder(s.calls, x)
    ensures InOrder(Run(o, s, events).calls, x)
    decreases |events|
  {
    hide Accounted, InOrder, Step;
    if events != [] {
      StepAccounted(o, s, events[0], x);
      StepInOrder(o, s, events[0], x);
      RunKeepsInOrder(o, Step(o, s, events[0]), events[1..], x);
    }
  }

  /** The same of any sequence of events. */
  lemma RunInOrder(o: Handlers, events: seq<Event>, x: Handler)
    ensures InOrder(Run(o, State([], [], true), events).calls, x)
  {
    hide InOrder, Run;
    CountNone(x);
    InOrderNone(x);
    RunKeepsInOrder(o, State([], [], true), events, x);
  }

  // ---------- Destroying the dispatcher ----------

  lemma {:induction false} DestructLives(stack: seq<Entry>, calls: seq<Call>, x: Handler)
    requires !x.Root? && OnStack(stack, x) <= 1 && CalledAlive(calls, x)
    requires OnStack(stack, x) == 1 ==> Alive(calls, x)
    ensures CalledAlive(Destruct(stack, calls), x)
    decreases |stack|
  {
    hide OnStack, CalledAlive, Alive;
    if stack != [] {
      TopCounts(stack, x);
      StackLifeGone(Pop(stack), x);
      var h := Top(stack).handler;
      if h.Some? && h.value != Root {
        CalledAliveSnoc(calls, Destroy(h.value), x);
        AliveSnoc(calls, Destroy(h.value), x);
        DestructLives(Pop(stack), calls + [Destroy(h.value)], x);
      } else {
        DestructLives(Pop(stack), calls, x);
      }
    }
  }

  lemma {:induction false} DestructFresh(stack: seq<Entry>, calls: seq<Call>, x: Handler)
    ensures Fresh(Destruct(stack, calls), x) <==> Fresh(calls, x)
    decreases |stack|
  {
    hide Fresh, Alive;
    if stack != [] {
      var h := Top(stack).handler;
      if h.Some? && h.value != Root {
        FreshSnoc(calls, Destroy(h.value), x);
        DestructFresh(Pop(stack), calls + [Destroy(h.value)], x);
      } else {
        DestructFresh(Pop(stack), calls, x);
      }
    }
  }

  /** If the events stop anywhere and the dispatcher is destroyed, then all in all calls were made on `x` only while it was
      in use exactly if no FindChildHandler handed it out while it was. */
  lemma DestructedCalledAliveExactly(o: Handlers, events: seq<Event>, x: Handler)
    requires !x.Root?
    ensures var s := Run(o, State([], [], true), events);
            CalledAlive(Destruct(s.stack, s.calls), x) <==> Fresh(s.calls, x)
  {
    hide Run, CalledAlive, Fresh, Count, Destruct, LifeOf, Alive;
    var s := Run(o, State([], [], true), events);
    if CalledAlive(Destruct(s.stack, s.calls), x) {
      Surplus(Destruct(s.stack, s.calls), x);
      DestructionIsComplete(o, events, x);
      DestructFresh(s.stack, s.calls, x);
    }
    if Fresh(s.calls, x) {
      RunLives(o, events, x);
      LifeMeans(s.calls, x, true);
      StackLifeGone(s.stack, x);
      DestructLives(s.stack, s.calls, x);
    }
  }

  /** A handler that agrees to everything, and whose children are all handled by number 7. */
  function Agreeing(): Handlers {
    Handlers((calls, offset, tag) => true, (calls, h) => true, (calls, h, offset, tag) => Some(7))
  }

  lemma VisitWithoutChildren(calls: seq<Call>, h: Handler, offset: int, tag: int)
    ensures Visit(Agreeing(), calls, h, DIE(offset, tag, [], [])) == Discard(calls + [EndAttributes(h, true)], h)
  {
  }

  lemma VisitWithChild(calls: seq<Call>, h: Handler, offset: int, tag: int, child: DIE)
    ensures Visit(Agreeing(), calls, h, DIE(offset, tag, [], [child]))
         == Discard(Visit(Agreeing(), calls + [EndAttributes(h, true), FindChildHandler(h, child.offset, child.tag, Some(7))],
                          Child(7), child), h)
  {
    var ended := calls + [EndAttributes(h, true)];
    assert ended + [FindChildHandler(h, child.offset, child.tag, Some(7))]
        == calls + [EndAttributes(h, true), FindChildHandler(h, child.offset, child.tag, Some(7))];
    assert [child][1..] == [];
    assert VisitChildren(Agreeing(), ended, h, [child]) == VisitChild(Agreeing(), ended, h, child);
  }

  /** One that hands out the same handler for a child and for the child of that has calls made on it after its
      destruction. */
  lemma HandedOutTwice()
    ensures var calls := VisitRoot(Agreeing(), [], DIE(0, 17, [], [DIE(1, 46, [], [DIE(2, 11, [], [])])]));
            && calls
               == [StartRootDIE(0, 17, true), EndAttributes(Root, true),
                   FindChildHandler(Root, 1, 46, Some(7)), EndAttributes(Child(7), true),
                   FindChildHandler(Child(7), 2, 11, Some(7)), EndAttributes(Child(7), true),
                   Finish(Child(7)), Destroy(Child(7)), Finish(Child(7)), Destroy(Child(7)), Finish(Root)]
            && !Fresh(calls, Child(7)) && !CalledAlive(calls, Child(7))
  {
    hide Visit, Fresh, CalledAlive;
    var child := DIE(1, 46, [], [DIE(2, 11, [], [])]);
    var root := DIE(0, 17, [], [child]);
    var calls := VisitRoot(Agreeing(), [], root);
    var started := [StartRootDIE(0, 17, true)];
    var asked := started + [EndAttributes(Root, true), FindChildHandler(Root, 1, 46, Some(7))];
    assert [] + started == started;
    VisitWithChild(started, Root, 0, 17, child);
    VisitWithChild(asked, Child(7), 1, 46, DIE(2, 11, [], []));
    VisitWithoutChildren(asked + [EndAttributes(Child(7), true), FindChildHandler(Child(7), 2, 11, Some(7))], Child(7), 2, 11);
    NotFresh(calls);
    VisitCalledAliveExactly(Agreeing(), root, Child(7));
  }

  lemma NotFresh(calls: seq<Call>)
    requires |calls| > 4 && calls[2] == FindChildHandler(Root, 1, 46, Some(7)) && calls[3] == EndAttributes(Child(7), true)
    requires calls[4] == FindChildHandler(Child(7), 2, 11, Some(7))
    ensures !Fresh(calls, Child(7))
  {
    assert Hands(calls[4], Child(7));
    assert Hands(calls[..4][2], Child(7));
    assert Alive(calls[..4], Child(7));
  }

  /** From the top of the stack down. */
  lemma {:induction false} DestructTopFirst(stack: seq<Entry>, calls: seq<Call>)
    requires stack != [] && stack[0].handler == Some(Root)
    requires forall i :: 0 < i < |stack| ==> stack[i].handler.Some? && stack[i].handler.value.Child?
    ensures var n := |stack| - 1;
            var all := Destruct(stack, calls);
            && |all| == |calls| + n && all[..|calls|] == calls
            && forall k :: |calls| <= k < |all| ==> all[k] == Destroy(stack[|all| - k].handler.value)
    decreases |stack|
  {
    if |stack| == 1 {
      assert Pop(stack) == [];
    } else {
      var first := Destroy(Top(stack).handler.value);
      DestructTopFirst(Pop(stack), calls + [first]);
      assert Destruct(stack, calls) == Destruct(Pop(stack), calls + [first]);
      PrefixGrows(Destruct(Pop(stack), calls + [first]), calls, first);
    }
  }

  lemma PrefixGrows(all: seq<Call>, calls: seq<Call>, call: Call)
    requires |all| > |calls| && all[..|calls| + 1] == calls + [call]
    ensures all[..|calls|] == calls && all[|calls|] == call
  {
    assert all[|calls|] == all[..|calls| + 1][|calls|];
    assert forall k :: 0 <= k < |calls| ==> all[k] == all[..|calls| + 1][k];
  }

  // ---------- A visit call by call ----------

  /** Handlers that are interested in tag 46 only, and of which number 30 wants no children. */
  function Choosy(): Handlers {
    Handlers((calls, offset, tag) => tag == 17,
             (calls, h) => h != Child(30),
             (calls, h, offset, tag) => if tag == 46 then Some(offset) else None)
  }

  lemma ReportsTwo(calls: seq<Call>, h: Handler, first: Attribute, second: Attribute)
    ensures Report(calls, h, [first]) == calls + [ProcessAttribute(h, first)]
    ensures Report(calls, h, [first, second]) == calls + [ProcessAttribute(h, first), ProcessAttribute(h, second)]
  {
    ReportsNone(calls + [ProcessAttribute(h, first)], h);
    assert [first][1..] == [] && [first, second][1..] == [second] && [second][1..] == [];
    var one := calls + [ProcessAttribute(h, first)];
    assert one + [ProcessAttribute(h, second)] == calls + [ProcessAttribute(h, first), ProcessAttribute(h, second)];
    ReportsNone(one + [ProcessAttribute(h, second)], h);
    assert Report(one, h, [second]) == Report(one + [ProcessAttribute(h, second)], h, []);
  }

  lemma ReportsNone(calls: seq<Call>, h: Handler)
    ensures Report(calls, h, []) == calls
  {
  }

  lemma VisitsThree(o: Handlers, calls: seq<Call>, h: Handler, first: DIE, second: DIE, third: DIE)
    ensures VisitChildren(o, calls, h, [first]) == VisitChild(o, calls, h, first)
    ensures VisitChildren(o, calls, h, [first, second, third])
         == VisitChild(o, VisitChild(o, VisitChild(o, calls, h, first), h, second), h, third)
  {
    VisitsOne(o, calls, h, first);
    var one := VisitChild(o, calls, h, first);
    var two := VisitChild(o, one, h, second);
    assert [first, second, third][1..] == [second, third] && [second, third][1..] == [third];
    assert VisitChildren(o, calls, h, [first, second, third]) == VisitChildren(o, one, h, [second, third]);
    VisitsOne(o, two, h, third);
    assert VisitChildren(o, one, h, [second, third]) == VisitChildren(o, two, h, [third]);
  }

  lemma VisitsOne(o: Handlers, calls: seq<Call>, h: Handler, die: DIE)
    ensures VisitChildren(o, calls, h, []) == calls
    ensures VisitChildren(o, calls, h, [die]) == VisitChild(o, calls, h, die)
  {
    assert [die][1..] == [];
  }

  /** The child with an attribute, whose own child nobody wants. */
  lemma VisitOfFirst(calls: seq<Call>, a: Attribute, b: Attribute)
    ensures VisitChild(Choosy(), calls, Root, DIE(20, 46, [a], [DIE(21, 5, [b], [])]))
         == calls + [FindChildHandler(Root, 20, 46, Some(20)), ProcessAttribute(Child(20), a), EndAttributes(Child(20), true),
                     FindChildHandler(Child(20), 21, 5, None), Finish(Child(20)), Destroy(Child(20))]
  {
    hide VisitChildren, Report;
    var die := DIE(21, 5, [b], []);
    var asked := calls + [FindChildHandler(Root, 20, 46, Some(20))];
    ReportsTwo(asked, Child(20), a, b);
    var ended := asked + [ProcessAttribute(Child(20), a)] + [EndAttributes(Child(20), true)];
    VisitsOne(Choosy(), ended, Child(20), die);
    assert VisitChild(Choosy(), ended, Child(20), die) == ended + [FindChildHandler(Child(20), 21, 5, None)];
    assert VisitRest(Choosy(), asked + [ProcessAttribute(Child(20), a)], Child(20), [die])
        == ended + [FindChildHandler(Child(20), 21, 5, None)] + [Finish(Child(20)), Destroy(Child(20))];
  }

  /** The one whose handler wants no children. */
  lemma VisitOfSecond(calls: seq<Call>)
    ensures VisitChild(Choosy(), calls, Root, DIE(30, 46, [], [DIE(31, 46, [], [])]))
         == calls + [FindChildHandler(Root, 30, 46, Some(30)), EndAttributes(Child(30), false), Finish(Child(30)),
                     Destroy(Child(30))]
  {
    hide VisitChildren, Report;
    var asked := calls + [FindChildHandler(Root, 30, 46, Some(30))];
    ReportsNone(asked, Child(30));
    assert VisitRest(Choosy(), asked, Child(30), [DIE(31, 46, [], [])])
        == asked + [EndAttributes(Child(30), false)] + [Finish(Child(30)), Destroy(Child(30))];
  }

  /** The one with a tag that nobody wants. */
  lemma VisitOfThird(calls: seq<Call>, die: DIE)
    requires die.offset == 40 && die.tag == 52
    ensures VisitChild(Choosy(), calls, Root, die) == calls + [FindChildHandler(Root, 40, 52, None)]
  {
  }

  lemma VisitOfAll(calls: seq<Call>, first: DIE, second: DIE, third: DIE, a: Attribute, b: Attribute)
    requires first == DIE(20, 46, [a], [DIE(21, 5, [b], [])]) && second == DIE(30, 46, [], [DIE(31, 46, [], [])])
    requires third.offset == 40 && third.tag == 52
    ensures VisitChildren(Choosy(), calls, Root, [first, second, third])
         == calls
            + [FindChildHandler(Root, 20, 46, Some(20)), ProcessAttribute(Child(20), a), EndAttributes(Child(20), true),
               FindChildHandler(Child(20), 21, 5, None), Finish(Child(20)), Destroy(Child(20))]
            + [FindChildHandler(Root, 30, 46, Some(30)), EndAttributes(Child(30), false), Finish(Child(30)),
               Destroy(Child(30))]
            + [FindChildHandler(Root, 40, 52, None)]
  {
    hide VisitChild, VisitChildren, Choosy;
    VisitsThree(Choosy(), calls, Root, first, second, third);
    VisitOfFirst(calls, a, b);
    var one := VisitChild(Choosy(), calls, Root, first);
    VisitOfSecond(one);
    VisitOfThird(VisitChild(Choosy(), one, Root, second), third);
  }

  /** A whole visit, with handlers refused, children declined, and attributes and DIEs in the order of the document. */
  lemma WorkedVisit(a: Attribute, b: Attribute, c: Attribute, d: Attribute)
    ensures VisitRoot(Choosy(), [],
                      DIE(10, 17, [a, b],
                          [DIE(20, 46, [c], [DIE(21, 5, [d], [])]),
                           DIE(30, 46, [], [DIE(31, 46, [], [])]),
                           DIE(40, 52, [d], [DIE(41, 46, [], [])])]))
         == [StartRootDIE(10, 17, true), ProcessAttribute(Root, a), ProcessAttribute(Root, b), EndAttributes(Root, true)]
            + [FindChildHandler(Root, 20, 46, Some(20)), ProcessAttribute(Child(20), c), EndAttributes(Child(20), true),
               FindChildHandler(Child(20), 21, 5, None), Finish(Child(20)), Destroy(Child(20))]
            + [FindChildHandler(Root, 30, 46, Some(30)), EndAttributes(Child(30), false), Finish(Child(30)),
               Destroy(Child(30))]
            + [FindChildHandler(Root, 40, 52, None)]
            + [Finish(Root)]
  {
    hide VisitChild, VisitChildren, Report;
    var first, second := DIE(20, 46, [c], [DIE(21, 5, [d], [])]), DIE(30, 46, [], [DIE(31, 46, [], [])]);
    var third := DIE(40, 52, [d], [DIE(41, 46, [], [])]);
    var started := [StartRootDIE(10, 17, true)];
    EmptyEnds(started);
    ReportsTwo(started, Root, a, b);
    var ended := started + [ProcessAttribute(Root, a), ProcessAttribute(Root, b)] + [EndAttributes(Root, true)];
    assert ended
        == [StartRootDIE(10, 17, true), ProcessAttribute(Root, a), ProcessAttribute(Root, b), EndAttributes(Root, true)];
    VisitOfAll(ended, first, second, third, c, d);
    assert VisitRest(Choosy(), started + [ProcessAttribute(Root, a), ProcessAttribute(Root, b)], Root, [first, second, third])
        == VisitChildren(Choosy(), ended, Root, [first, second, third]) + [Finish(Root)];
  }
}
