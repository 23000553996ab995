/** The `modals` controller as an object: its routines and handlers change the
    abstract page in place, one jQuery call at a time, and each is proved to
    have exactly the effect of the matching function of `ModalTransitions`.
    The handlers, which are what the browser calls, also keep `Inv`. */
module ModalController {
  import opened ModalPage
  import T = ModalTransitions
  import ModalProperties

  class Controller {
    var containers: seq<Container>
    var overlay: bool
    var location: string
    var modalType: Option<string>
    var loads: seq<Load>
    var nextInstance: nat
    var nextLoad: nat
    var hookCalls: seq<nat>

    /** The page and controller fields as one value. */
    function Snapshot(): Page
      reads this
    {
      Page(containers, overlay, location, modalType, loads, nextInstance, nextLoad, hookCalls)
    }

    ghost predicate Valid()
      reads this
    {
      T.Inv(Snapshot())
    }

    /** `init`: the class names are constants and the listeners are the
        handler methods below, so the page starts empty. */
    constructor ()
      ensures Snapshot() == T.Init() && Valid()
    {
      containers, overlay := [], false;
      location, modalType := "", None;
      loads, nextInstance, nextLoad, hookCalls := [], 0, 0, [];
    }

    /** Click on a trigger link: remember its target and type, then `showModal`. */
    method OnTriggerClick(target: string, linkType: Option<string>, hookDefined: bool)
      requires Valid()
      modifies this
      ensures Valid()
      ensures Snapshot() == T.Step(old(Snapshot()), T.TriggerClick(target, linkType, hookDefined))
    {
      ghost var before := Snapshot();
      location := target;
      modalType := linkType;
      ShowModal(hookDefined);
      ModalProperties.StepPreservesInv(before, T.TriggerClick(target, linkType, hookDefined));
    }

    /** Click on a close button (there is one to click). */
    method OnCloseButtonClick()
      requires Valid() && T.CloseButtonCount(containers) > 0
      modifies this
      ensures Valid()
      ensures Snapshot() == T.Step(old(Snapshot()), T.CloseButtonClick)
    {
      ghost var before := Snapshot();
      CloseModal();
      ModalProperties.StepPreservesInv(before, T.CloseButtonClick);
    }

    /** Click that reaches the document: close only when a modal exists. */
    method OnDocumentClick()
      requires Valid()
      modifies this
      ensures Valid()
      ensures Snapshot() == T.Step(old(Snapshot()), T.OutsideClick)
    {
      ghost var before := Snapshot();
      if |containers| > 0 {
        CloseModal();
      }
      ModalProperties.StepPreservesInv(before, T.OutsideClick);
    }

    /** Keyup anywhere: Escape closes, with no check that a modal exists. */
    method OnKeyUp(keyCode: int)
      requires Valid()
      modifies this
      ensures Valid()
      ensures Snapshot() == T.Step(old(Snapshot()), T.KeyUp(keyCode))
    {
      ghost var before := Snapshot();
      if keyCode == EscapeKeyCode {
        CloseModal();
      }
      ModalProperties.StepPreservesInv(before, T.KeyUp(keyCode));
    }

    /** The `.load` completion of the `i`-th request in flight: the fragment
        goes into the wrappers the request was made on (success only), then
        the callback removes every loader. */
    method OnLoadComplete(i: nat, response: Option<seq<Element>>)
      requires Valid() && i < |loads|
      modifies this
      ensures Valid()
      ensures Snapshot() == T.Step(old(Snapshot()), T.LoadDone(i, response))
    {
      ghost var before := Snapshot();
      var done := loads[i];
      loads := loads[..i] + loads[i + 1..];
      match response {
        case Some(fragment) =>
          containers := T.FillWrappers(containers, done.targets, fragment);
        case None =>
      }
      containers := T.RemoveLoaders(containers);
      ModalProperties.StepPreservesInv(before, T.LoadDone(i, response));
    }

    /** The one-shot `animationend` handler bound on the `k`-th container:
        remove the containers, then the overlay. */
    method OnAnimationEnd(k: nat)
      requires Valid() && k < |containers| && containers[k].removalHandlers > 0
      modifies this
      ensures Valid()
      ensures Snapshot() == T.Step(old(Snapshot()), T.AnimationEnd(k))
    {
      ghost var before := Snapshot();
      containers := [];
      SetBackground(false);
      ModalProperties.StepPreservesInv(before, T.AnimationEnd(k));
    }

    /** `showModal`: update or create, then the `modalLoaded` hook. */
    method ShowModal(hookDefined: bool)
      modifies this
      ensures Snapshot() == T.ShowModal(old(Snapshot()), hookDefined)
    {
      var issued := nextLoad;
      if |containers| > 0 {
        UpdateModal();
      } else {
        CreateModal();
      }
      if hookDefined {
        hookCalls := hookCalls + [issued];
      }
    }

    /** `createModal`. */
    method CreateModal()
      modifies this
      ensures Snapshot() == T.CreateModal(old(Snapshot()))
    {
      SetBackground(true);
      containers := [Container(nextInstance, ContainerClass(modalType), false, 0, 0, [], 0)] + containers;
      nextInstance := nextInstance + 1;
      containers := T.PrependLoader(containers);
      LoadModal();
    }

    /** `updateModal`. */
    method UpdateModal()
      modifies this
      ensures Snapshot() == T.UpdateModal(old(Snapshot()))
    {
      containers := T.PrependLoader(containers);
      containers := T.ClearWrappers(containers);
      LoadModal();
    }

    /** `loadModal`: the close button, then the request. */
    method LoadModal()
      modifies this
      ensures Snapshot() == T.LoadModal(old(Snapshot()))
    {
      AddCloseButton();
      loads := loads + [Load(nextLoad, location + " ." + ClassContent, T.Instances(containers))];
      nextLoad := nextLoad + 1;
    }

    /** `addCloseButton`. */
    method AddCloseButton()
      modifies this
      ensures Snapshot() == T.AddCloseButton(old(Snapshot()))
      ensures T.CloseButtonCount(old(containers)) > 0 ==> containers == old(containers)
    {
      if T.CloseButtonCount(containers) == 0 {
        containers := T.PrependCloseButton(containers);
      }
    }

    /** `closeModal`: the closing class and one more removal handler. */
    method CloseModal()
      modifies this
      ensures Snapshot() == T.CloseModal(old(Snapshot()))
      ensures |containers| == |old(containers)| && overlay == old(overlay)
    {
      containers := T.MarkClosing(containers);
    }

    /** `setBackground`. */
    method SetBackground(open: bool)
      modifies this
      ensures Snapshot() == T.SetBackground(old(Snapshot()), open)
    {
      if open {
        overlay := true;
      } else {
        overlay := false;
      }
    }
  }
}
