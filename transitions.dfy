/** The modal lifecycle as a state machine over `Page`.

    Each function below is one routine of the `modals` controller, or one of its
    handlers, applied to the abstract page. The two asynchronous completions (the
    `.load` callback and the `animationend` handler) are events of their own, so
    any interleaving of clicks, keys, responses and animation ends is a sequence
    of `Event`s.
 */
module ModalTransitions {
  import opened ModalPage

  /** The page right after `init`: no container, no overlay, nothing in flight. */
  function Init(): Page
  {
    Page([], false, "", None, [], 0, 0, [])
  }

  /** `setBackground`: add the overlay class to the append target for `open`,
      remove it otherwise (both are idempotent on a class). */
  function SetBackground(p: Page, open: bool): Page
  {
    p.(overlay := open)
  }

  /** `$('.modal').prepend(loader)`: one more loader in every container. */
  function PrependLoader(cs: seq<Container>): seq<Container>
  {
    seq(|cs|, i requires 0 <= i < |cs| => cs[i].(loaders := cs[i].loaders + 1))
  }

  /** `$('.modal .modal__wrapper').children().remove()`. The wrapper only ever
      holds the extracted content elements, all of them children. */
  function ClearWrappers(cs: seq<Container>): seq<Container>
  {
    seq(|cs|, i requires 0 <= i < |cs| => cs[i].(wrapper := []))
  }

  /** `$('.modal').prepend(closeButton)`. */
  function PrependCloseButton(cs: seq<Container>): seq<Container>
  {
    seq(|cs|, i requires 0 <= i < |cs| => cs[i].(closeButtons := cs[i].closeButtons + 1))
  }

  /** `$('.modal').addClass(closing)` followed by `.one('animationend', …)`:
      every container gets the closing class and one more removal handler. */
  function MarkClosing(cs: seq<Container>): seq<Container>
  {
    seq(|cs|, i requires 0 <= i < |cs| =>
      cs[i].(closing := true, removalHandlers := cs[i].removalHandlers + 1))
  }

  /** The `.html(fragment)` half of a `.load` completion: only the wrappers the
      request was issued on, and only while their container is still in the page. */
  function FillWrappers(cs: seq<Container>, targets: set<nat>, fragment: seq<Element>): seq<Container>
  {
    seq(|cs|, i requires 0 <= i < |cs| =>
      if cs[i].instance in targets then cs[i].(wrapper := fragment) else cs[i])
  }

  /** `$('.modal__loader').remove()`: every loader in the document goes. */
  function RemoveLoaders(cs: seq<Container>): seq<Container>
  {
    seq(|cs|, i requires 0 <= i < |cs| => cs[i].(loaders := 0))
  }

  /** Number of `.modal__close-btn` elements in the document. */
  function CloseButtonCount(cs: seq<Container>): nat
  {
    if cs == [] then 0 else cs[0].closeButtons + CloseButtonCount(cs[1..])
  }

  /** Number of `.modal__loader` elements in the document. */
  function LoaderCount(cs: seq<Container>): nat
  {
    if cs == [] then 0 else cs[0].loaders + LoaderCount(cs[1..])
  }

  /** The instances of the containers currently in the document. */
  function Instances(cs: seq<Container>): set<nat>
  {
    set c | c in cs :: c.instance
  }

  /** `addCloseButton`: a close button only when the document has none. */
  function AddCloseButton(p: Page): Page
  {
    if CloseButtonCount(p.containers) == 0
    then p.(containers := PrependCloseButton(p.containers))
    else p
  }

  /** `loadModal`: add the close button, then issue the fragment request on the
      wrappers of the current containers. */
  function LoadModal(p: Page): Page
  {
    var q := AddCloseButton(p);
    var request := Load(q.nextLoad, q.location + " ." + ClassContent, Instances(q.containers));
    q.(loads := q.loads + [request], nextLoad := q.nextLoad + 1)
  }

  /** `createModal`: overlay on, a new container with an empty wrapper in front
      of the append target, a loader in it, then `loadModal`. */
  function CreateModal(p: Page): Page
  {
    var lit := SetBackground(p, true);
    var created := Container(p.nextInstance, ContainerClass(p.modalType), false, 0, 0, [], 0);
    var inserted := lit.(containers := [created] + lit.containers,
                            nextInstance := p.nextInstance + 1);
    LoadModal(inserted.(containers := PrependLoader(inserted.containers)))
  }

  /** `updateModal`: a loader in the existing container, its wrapper emptied,
      then `loadModal`. */
  function UpdateModal(p: Page): Page
  {
    LoadModal(p.(containers := ClearWrappers(PrependLoader(p.containers))))
  }

  /** `showModal`: update when a container exists, create otherwise; then call
      `modalLoaded` when the page defines it. */
  function ShowModal(p: Page, hookDefined: bool): Page
  {
    var q := if |p.containers| > 0 then UpdateModal(p) else CreateModal(p);
    if hookDefined then q.(hookCalls := q.hookCalls + [p.nextLoad]) else q
  }

  /** `closeModal`: on an empty selection both calls do nothing. */
  function CloseModal(p: Page): Page
  {
    p.(containers := MarkClosing(p.containers))
  }

  /** The `animationend` handler: remove every container, then the overlay. */
  function RemoveModal(p: Page): Page
  {
    SetBackground(p.(containers := []), false)
  }

  /** The `.load` completion of the `i`-th request in flight: on success the
      fragment replaces the contents of the wrappers it was issued on; in every
      case the callback then removes every loader of the document. */
  function CompleteLoad(p: Page, i: nat, response: Option<seq<Element>>): Page
    requires i < |p.loads|
  {
    var done := p.loads[i];
    var filled := match response
      case Some(fragment) => FillWrappers(p.containers, done.targets, fragment)
      case None => p.containers;
    p.(containers := RemoveLoaders(filled), loads := p.loads[..i] + p.loads[i + 1..])
  }

  /** What can happen to the page. A click on a trigger carries the value that
      `String(event.target)` gives, the link's `modal-type` data (`None` when
      undefined) and whether `modalLoaded` is a function at that moment.
      `InsideClick` is a click inside a container that is neither a trigger nor a
      close button; `OutsideClick` a click on nothing whose class contains
      `modal`. `LoadDone(i, r)` completes the `i`-th request in flight with
      response `r` (`None` for a failed request); `AnimationEnd(k)` is the end of
      the animation of the `k`-th container. */
  datatype Event =
    | TriggerClick(target: string, modalType: Option<string>, hookDefined: bool)
    | CloseButtonClick
    | InsideClick
    | OutsideClick
    | KeyUp(keyCode: int)
    | LoadDone(index: nat, response: Option<seq<Element>>)
    | AnimationEnd(index: nat)

  /** One event. An event that cannot occur in `p` (a click on a close button
      that does not exist, a completion of a request that is not in flight, the
      animation end of a container without a handler) leaves it unchanged. */
  function Step(p: Page, e: Event): Page
  {
    match e
    case TriggerClick(target, t, hookDefined) =>
      ShowModal(p.(location := target, modalType := t), hookDefined)
    case CloseButtonClick =>
      if CloseButtonCount(p.containers) > 0 then CloseModal(p) else p
    case InsideClick => p
    case OutsideClick =>
      if |p.containers| > 0 then CloseModal(p) else p
    case KeyUp(code) =>
      if code == EscapeKeyCode then CloseModal(p) else p
    case LoadDone(i, response) =>
      if i < |p.loads| then CompleteLoad(p, i, response) else p
    case AnimationEnd(k) =>
      if k < |p.containers| && p.containers[k].removalHandlers > 0 then RemoveModal(p) else p
  }

  /** A sequence of events, one after the other. */
  function Run(p: Page, es: seq<Event>): Page
    decreases |es|
  {
    if es == [] then p else Run(Step(p, es[0]), es[1..])
  }

  /** Whether `e` is one of the three close actions, taken in a state that has a container. */
  predicate IsCloseAction(e: Event)
  {
    e.CloseButtonClick? || e.OutsideClick? || (e.KeyUp? && e.keyCode == EscapeKeyCode)
  }

  /** What holds between events of every run from `Init`: at most one container,
      the overlay exactly when there is one, exactly one close button in it, a
      removal handler exactly when it is closing, and instance numbers only ever
      used once. */
  predicate Inv(p: Page)
  {
    && |p.containers| <= 1
    && (p.overlay <==> |p.containers| == 1)
    && (forall c | c in p.containers ::
          && c.closeButtons == 1
          && (c.removalHandlers > 0 <==> c.closing)
          && c.instance < p.nextInstance)
    && (forall l, t | l in p.loads && t in l.targets :: t < p.nextInstance)
  }
}
