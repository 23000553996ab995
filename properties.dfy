/** What the modal lifecycle guarantees, stated over `ModalTransitions.Step` and
    proved for every state that satisfies `Inv`, hence for every state a run
    from `Init` reaches. */
module ModalProperties {
  import opened ModalPage
  import opened ModalTransitions

  /** With at most one container, the document-wide counts are that container's. */
  lemma CountsOfAtMostOne(cs: seq<Container>)
    requires |cs| <= 1
    ensures CloseButtonCount(cs) == (if cs == [] then 0 else cs[0].closeButtons)
    ensures LoaderCount(cs) == (if cs == [] then 0 else cs[0].loaders)
  {
  }

  /** A trigger click with no container in the page creates one: it has the
      class built from the clicked link's type, one loader, one close button, an
      empty wrapper and a fresh instance number; the overlay is on; one request
      for the clicked location is in flight for it, issued after every earlier
      one; and `modalLoaded`, when defined, runs once with that request still in
      flight. */
  lemma CreateOutcome(p: Page, target: string, t: Option<string>, hookDefined: bool)
    requires Inv(p) && p.containers == []
    ensures var q := Step(p, TriggerClick(target, t, hookDefined));
      && q.containers == [Container(p.nextInstance, ContainerClass(t), false, 1, 1, [], 0)]
      && q.overlay
      && q.location == target && q.modalType == t
      && q.nextInstance == p.nextInstance + 1
      && q.loads == p.loads + [Load(p.nextLoad, target + " ." + ClassContent, {p.nextInstance})]
      && q.nextLoad == p.nextLoad + 1
      && q.hookCalls == p.hookCalls + (if hookDefined then [p.nextLoad] else [])
  {
    var created := Container(p.nextInstance, ContainerClass(t), false, 0, 0, [], 0);
    var withLoader := PrependLoader([created]);
    assert withLoader == [created.(loaders := 1)];
    CountsOfAtMostOne(withLoader);
    assert PrependCloseButton(withLoader) == [created.(loaders := 1, closeButtons := 1)];
    assert Instances(PrependCloseButton(withLoader)) == {p.nextInstance};
    var p' := p.(location := target, modalType := t);
    var lit := SetBackground(p', true);
    var inserted := lit.(containers := [created] + lit.containers, nextInstance := p.nextInstance + 1);
    assert inserted.containers == [created];
    var loaded := inserted.(containers := PrependLoader(inserted.containers));
    assert loaded.containers == withLoader;
    assert AddCloseButton(loaded).containers == PrependCloseButton(withLoader);
    assert CreateModal(p') == LoadModal(loaded);
  }

  /** A trigger click while a container exists updates that container in place:
      same instance, same class attribute (so the same type modifier, whatever
      type the clicked link carries), same closing state and removal handlers,
      still exactly one close button, one loader more and an emptied wrapper;
      overlay unchanged; one more request in flight, for that container. */
  lemma UpdateOutcome(p: Page, target: string, t: Option<string>, hookDefined: bool)
    requires Inv(p) && |p.containers| == 1
    ensures var c := p.containers[0];
      var q := Step(p, TriggerClick(target, t, hookDefined));
      && q.containers == [c.(loaders := c.loaders + 1, wrapper := [])]
      && q.overlay == p.overlay
      && q.location == target && q.modalType == t
      && q.nextInstance == p.nextInstance
      && q.loads == p.loads + [Load(p.nextLoad, target + " ." + ClassContent, {c.instance})]
      && q.nextLoad == p.nextLoad + 1
      && q.hookCalls == p.hookCalls + (if hookDefined then [p.nextLoad] else [])
  {
    var c := p.containers[0];
    assert c in p.containers;
    var updated := ClearWrappers(PrependLoader(p.containers));
    assert updated == [c.(loaders := c.loaders + 1, wrapper := [])];
    CountsOfAtMostOne(updated);
    assert Instances(updated) == {c.instance};
  }

  /** Every event keeps the invariant. */
  lemma StepPreservesInv(p: Page, e: Event)
    requires Inv(p)
    ensures Inv(Step(p, e))
  {
    CountsOfAtMostOne(p.containers);
    match e
    case TriggerClick(target, t, hookDefined) =>
      if |p.containers| == 0 {
        CreateOutcome(p, target, t, hookDefined);
      } else {
        UpdateOutcome(p, target, t, hookDefined);
      }
    case LoadDone(i, response) =>
      if i < |p.loads| {
        var q := Step(p, e);
        assert forall l | l in q.loads :: l in p.loads;
      }
    case _ =>
  }

  /** Every run from a state satisfying the invariant ends in one. */
  lemma {:induction false} RunPreservesInv(p: Page, es: seq<Event>)
    requires Inv(p)
    ensures Inv(Run(p, es))
    decreases |es|
  {
    if es != [] {
      StepPreservesInv(p, es[0]);
      RunPreservesInv(Step(p, es[0]), es[1..]);
    }
  }

  /** Whatever happens after `init`, between events there is at most one
      container, the overlay class is present exactly when a container is, and
      the document holds exactly one close button per container. */
  lemma ReachableStates(es: seq<Event>)
    ensures |Run(Init(), es).containers| <= 1
    ensures Run(Init(), es).overlay <==> |Run(Init(), es).containers| == 1
    ensures CloseButtonCount(Run(Init(), es).containers) == |Run(Init(), es).containers|
  {
    RunPreservesInv(Init(), es);
    CountsOfAtMostOne(Run(Init(), es).containers);
  }

  /** Any number of trigger clicks in a row leave exactly one container with
      exactly one close button; when a container was there before, it is that
      same container (same instance) that receives every click. */
  lemma {:induction false} TriggerClicksKeepOneCloseButton(p: Page, es: seq<Event>)
    requires Inv(p)
    requires es != [] && forall k | 0 <= k < |es| :: es[k].TriggerClick?
    ensures |Run(p, es).containers| == 1
    ensures CloseButtonCount(Run(p, es).containers) == 1
    ensures p.containers != [] ==> Run(p, es).containers[0].instance == p.containers[0].instance
    decreases |es|
  {
    var e := es[0];
    var q := Step(p, e);
    if p.containers == [] {
      CreateOutcome(p, e.target, e.modalType, e.hookDefined);
    } else {
      UpdateOutcome(p, e.target, e.modalType, e.hookDefined);
    }
    StepPreservesInv(p, e);
    if |es| == 1 {
      assert es[1..] == [];
      CountsOfAtMostOne(q.containers);
    } else {
      TriggerClicksKeepOneCloseButton(q, es[1..]);
    }
  }

  /** A close action on an open modal only adds the closing class and binds one
      more removal handler: the container stays in the document with everything
      else as it was, and the overlay stays. */
  lemma CloseOnlyMarks(p: Page, e: Event)
    requires Inv(p) && |p.containers| == 1 && IsCloseAction(e)
    ensures var c := p.containers[0];
      Step(p, e) == p.(containers := [c.(closing := true, removalHandlers := c.removalHandlers + 1)])
  {
  }

  /** With no modal in the page, the close button, outside click, inside click
      and every keyup leave the whole state unchanged; in particular Escape,
      which is dispatched without a check, is harmless. */
  lemma CloseWithoutModalChangesNothing(p: Page, e: Event)
    requires p.containers == []
    requires IsCloseAction(e) || e.InsideClick? || e.KeyUp?
    ensures Step(p, e) == p
  {
  }

  /** On an open modal that is not closing, an event leaves a closing container
      exactly when it is one of the three close actions; nothing else removes
      the container or marks it. */
  lemma OnlyCloseActionsClose(p: Page, e: Event)
    requires Inv(p) && |p.containers| == 1 && !p.containers[0].closing
    ensures |Step(p, e).containers| == 1
    ensures Step(p, e).containers[0].closing <==> IsCloseAction(e)
  {
  }

  /** The container leaves the document only through the animation-end handler,
      and only once the closing class is on it: an event removes it exactly when
      it is the end of its animation after a close. The overlay goes with it. */
  lemma RemovalOnlyAfterClosing(p: Page, e: Event)
    requires Inv(p) && |p.containers| == 1
    ensures |Step(p, e).containers| == 0 <==> e.AnimationEnd? && e.index == 0 && p.containers[0].closing
    ensures |Step(p, e).containers| == 0 ==> !Step(p, e).overlay
  {
  }

  /** A trigger click on a closing modal updates it but does not cancel the
      close: the pending handler still removes it when the animation ends. */
  lemma UpdateWhileClosingStillRemoves(p: Page, target: string, t: Option<string>, hookDefined: bool)
    requires Inv(p) && |p.containers| == 1 && p.containers[0].closing
    ensures var q := Step(p, TriggerClick(target, t, hookDefined));
      && |q.containers| == 1 && q.containers[0].closing
      && Step(q, AnimationEnd(0)).containers == []
      && !Step(q, AnimationEnd(0)).overlay
  {
  }

  /** No event changes the class attribute of a container that stays in the
      document, so its type modifier is the one it was created with. */
  lemma TypeModifierNeverChanges(p: Page, e: Event)
    requires Inv(p) && |p.containers| == 1 && |Step(p, e).containers| == 1
    ensures Step(p, e).containers[0].instance == p.containers[0].instance
    ensures Step(p, e).containers[0].className == p.containers[0].className
    ensures TypeOfClass(Step(p, e).containers[0].className) == TypeOfClass(p.containers[0].className)
  {
  }

  /** The completion of the `i`-th request in flight takes it off the list;
      a successful response replaces the wrapper contents of the containers it
      was issued on and that are still in the page, leaving the others alone; in
      every case no loader is left anywhere in the document. */
  lemma LoadOutcome(p: Page, i: nat, response: Option<seq<Element>>)
    requires Inv(p) && i < |p.loads|
    ensures var q := Step(p, LoadDone(i, response));
      && q.loads == p.loads[..i] + p.loads[i + 1..]
      && q.overlay == p.overlay
      && LoaderCount(q.containers) == 0
      && |q.containers| == |p.containers|
      && forall k | 0 <= k < |p.containers| ::
           var c := p.containers[k];
           q.containers[k] == c.(loaders := 0, wrapper :=
             if response.Some? && c.instance in p.loads[i].targets then response.value else c.wrapper)
  {
  }

  /** Overlapping loads on one modal: the link clicked second answers first, so
      its fragment shows until the first link's slower response arrives and
      replaces it. The last response to arrive wins, not the last request. */
  lemma LastResponseWins(first: string, second: string, slow: seq<Element>, fast: seq<Element>)
    ensures var both := Step(Step(Init(), TriggerClick(first, None, false)), TriggerClick(second, None, false));
      var fastDone := Step(both, LoadDone(1, Some(fast)));
      var slowDone := Step(fastDone, LoadDone(0, Some(slow)));
      && |fastDone.containers| == 1 && fastDone.containers[0].wrapper == fast
      && |slowDone.containers| == 1 && slowDone.containers[0].wrapper == slow
      && slowDone.loads == []
  {
  }

  /** A response to a request issued for a modal that has since been closed and
      removed does not reach the wrapper of a modal opened afterwards, but its
      callback still removes that new modal's loader while the new modal's own
      request is in flight. */
  lemma StaleResponseRemovesNewLoader(first: string, second: string, stale: seq<Element>)
    ensures var closed := Step(Step(Step(Init(), TriggerClick(first, None, false)), KeyUp(EscapeKeyCode)), AnimationEnd(0));
      var reopened := Step(closed, TriggerClick(second, None, false));
      var q := Step(reopened, LoadDone(0, Some(stale)));
      && closed.containers == [] && |closed.loads| == 1
      && |reopened.containers| == 1 && LoaderCount(reopened.containers) == 1
      && |q.containers| == 1 && q.containers[0].wrapper == []
      && LoaderCount(q.containers) == 0
      && |q.loads| == 1 && q.loads[0].request == second + " ." + ClassContent
  {
  }
}
