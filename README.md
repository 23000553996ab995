# Hex Modals: the modal lifecycle, modelled and proved in Dafny

The `modals` controller of `dist/js/modal.js` opens a single modal dialog when a
trigger link (`.modal__link`) is clicked, loads the `.modal__content` element of
the link's target page into the modal's wrapper, and closes the modal on a
close-button click, an outside click or Escape. Closing adds the class
`modal--closing`; the container leaves the document only when its closing
animation ends.

This project abstracts the document into a value, `ModalPage.Page`:

- the list of `.modal` containers. Each container has its instance number, its class attribute, whether it carries the closing class, its close buttons, its loaders, its wrapper children and its pending `animationend` handlers;
- whether the append target (`body`) carries the overlay class;
- the two controller fields the trigger handler overwrites (`getLocation`, `modalType`);
- the fragment requests still in flight;
- a log of `modalLoaded` calls.

Every routine and handler of the controller is a function on that value in
`ModalTransitions`. The two asynchronous completions, the `.load` callback and
the `animationend` handler, are events of their own (`LoadDone`,
`AnimationEnd`), so `Step` and `Run` describe every interleaving of clicks,
keys, responses and animation ends. `ModalController.Controller` is the
controller as an object. Its fields are the page, its methods change them one
jQuery call at a time, and each method is proved equal to its function. The
handlers also keep the invariant `Inv`. `ModalProperties` proves the lifecycle's
guarantees over `Step`.

Files: `page.dfy` (state and the class string), `transitions.dfy` (the state
machine), `properties.dfy` (lemmas), `controller.dfy` (the class).

A failed request still runs the `.load` completion callback. jQuery calls it
when the request completes, whatever the outcome. So on failure the loaders are
removed and the wrapper keeps its emptied contents (`LoadDone(i, None)`). The
loader is not left in place forever.

## Model

| member | source | states |
|---|---|---|
| `ModalPage.ContainerClass` | dist/js/modal.js:82 | The class is `modal` exactly when no type is given. Otherwise it starts with `modal `. The type can always be read back from it (`TypeOfClass`), so two types never give the same class. |
| `ModalController.Controller.constructor` | dist/js/modal.js:25-45 | After `init` the page has no container, no overlay and nothing in flight. The invariant holds. |
| `ModalController.Controller.OnTriggerClick` | dist/js/modal.js:47-52 | Records the link's target and type, then shows the modal. The new state is `Step` of the old one for that click, and the invariant is kept. |
| `ModalController.Controller.OnCloseButtonClick` | dist/js/modal.js:53-55 | A close-button click closes the modal, as `Step` says, and keeps the invariant. |
| `ModalController.Controller.OnDocumentClick` | dist/js/modal.js:56-63 | A click that reaches the document closes the modal only when a container exists. A click inside the modal never gets here. Keeps the invariant. |
| `ModalController.Controller.OnKeyUp` | dist/js/modal.js:64-68 | Key code 27 closes the modal without checking that one exists. Any other key does nothing. Keeps the invariant. |
| `ModalController.Controller.OnLoadComplete` | dist/js/modal.js:97-99 | A completed request leaves the in-flight list. On success its fragment fills the wrappers it was issued on. Every loader is then removed. Keeps the invariant. |
| `ModalController.Controller.OnAnimationEnd` | dist/js/modal.js:108-111 | The one-shot handler removes the container first and then the overlay class. Keeps the invariant. |
| `ModalController.Controller.ShowModal` | dist/js/modal.js:70-80 | Updates the container if one exists, otherwise creates one. Then it logs a `modalLoaded` call if the hook is defined, stamped with the request just issued. |
| `ModalController.Controller.CreateModal` | dist/js/modal.js:81-87 | Turns the overlay on, prepends a new container with the class from `ContainerClass`, adds a loader and loads. |
| `ModalController.Controller.UpdateModal` | dist/js/modal.js:88-94 | Adds a loader, empties the wrapper and loads. The container's class is not touched. |
| `ModalController.Controller.LoadModal` | dist/js/modal.js:95-100 | Adds a close button if needed, then issues one request for `location + " .modal__content"` on the current containers' wrappers. |
| `ModalController.Controller.AddCloseButton` | dist/js/modal.js:101-105 | Inserts a close button only when the document has none. Otherwise the containers are unchanged. |
| `ModalController.Controller.CloseModal` | dist/js/modal.js:106-112 | Adds the closing class and binds one more removal handler. The number of containers and the overlay do not change. |
| `ModalController.Controller.SetBackground` | dist/js/modal.js:113-119 | Overlay on for `open` and off otherwise. Nothing else changes. |
| `ModalProperties.StepPreservesInv` | dist/js/modal.js:70-119 | Every event keeps `Inv`. `Inv` says: at most one container; overlay iff a container; one close button in it; a removal handler iff it is closing; instance numbers never reused. |
| `ModalProperties.RunPreservesInv` | dist/js/modal.js:46-68 | Every sequence of events keeps `Inv`. Proved by induction on the sequence. |
| `ModalProperties.ReachableStates` | dist/js/modal.js:70-119 | In every state reachable from `init`: at most one container, overlay exactly when a container is present, and exactly one close button per container. |
| `ModalProperties.CreateOutcome` | dist/js/modal.js:70-87 | With no container, a trigger click creates exactly one. It has a fresh instance, the link's type class, one loader, one close button and an empty wrapper. The overlay is on and one request for it is in flight. `modalLoaded` runs once, while that request is still in flight. |
| `ModalProperties.UpdateOutcome` | dist/js/modal.js:70-100 | With a container, a trigger click keeps that same container: same instance, class, closing state and handlers, one close button. It gets one more loader and an emptied wrapper. The overlay is unchanged and one more request is in flight for it. The hook is called as in create. |
| `ModalProperties.TriggerClicksKeepOneCloseButton` | dist/js/modal.js:101-105 | After any number of trigger clicks in a row there is exactly one container with exactly one close button. If a container existed before, it is still that same container. |
| `ModalProperties.CloseOnlyMarks` | dist/js/modal.js:106-112 | A close action on an open modal changes only the closing class and the handler count. The container stays and so does the overlay. |
| `ModalProperties.CloseWithoutModalChangesNothing` | dist/js/modal.js:59-68 | With no modal, a close-button click, an outside click, an inside click or any keyup (Escape included) leaves the whole state unchanged. |
| `ModalProperties.OnlyCloseActionsClose` | dist/js/modal.js:53-68 | On an open modal that is not closing, an event leaves the container closing exactly when it is a close-button click, an outside click or Escape. |
| `ModalProperties.RemovalOnlyAfterClosing` | dist/js/modal.js:106-112 | An event removes the container exactly when it is that container's animation end after a close. The overlay is cleared with it. |
| `ModalProperties.UpdateWhileClosingStillRemoves` | dist/js/modal.js:88-111 | A trigger click on a closing modal updates it but keeps it closing. The next animation end still removes it and clears the overlay. |
| `ModalProperties.TypeModifierNeverChanges` | dist/js/modal.js:82-94 | No event changes the instance or the class attribute (hence the type modifier) of a container that stays in the document. |
| `ModalProperties.LoadOutcome` | dist/js/modal.js:97-99 | A completion removes its request from the in-flight list. On success it replaces the wrapper contents of exactly the containers it was issued on. Afterwards no loader is left in the document. |
| `ModalProperties.LastResponseWins` | dist/js/modal.js:89-99 | Links A then B are clicked, and B answers first: B's fragment shows, then A's response replaces it. The last response wins, not the last request. |
| `ModalProperties.StaleResponseRemovesNewLoader` | dist/js/modal.js:95-111 | A modal is opened, closed and removed, then a new one is opened. The old request's response does not reach the new wrapper, but it does remove the new modal's loader while the new request is still in flight. |

## Left out

- The HTTP request and the parsing of the fetched page in `.load(url + ' .modal__content')` are left out. The matched elements are an opaque `seq<Element>` supplied by the `LoadDone` event.
- jQuery's delegated dispatch and `stopPropagation` are left out. Only their outcome is modelled. A click on a trigger or close button runs only its own handler. A click inside an element whose class contains `modal` is `InsideClick` and does nothing. Any other click is `OutsideClick`.
- The four vendor-prefixed `animationend` names bound by `.one` are left out. Each `closeModal` on an existing container counts as one pending handler. When the event fires, every pending handler runs, and only the first one has an effect.
- CSS animation timing and zero-duration animations are left out. `AnimationEnd` may fire at any time after a close.
- `.data('modal-type')` type coercion is left out. The type is a string, or `None` when undefined.
- `String(event.target)` is left out. The location is the string the trigger event carries.
- The class-name constants and loader markup of `setClasses` are fixed. Only the ones the state needs are named. Loaders and close buttons are counted, not stored as markup.
- Text nodes in the wrapper are not modelled. The wrapper only ever holds the extracted content elements, so `.children().remove()` empties it.
- A link whose type is literally `closing` gets `modal--closing` in its class at creation. The `closing` flag only tracks the class that `closeModal` adds.
- Events that cannot happen in a state are no-ops in `Step`. These are a close-button click with no button, a completion of a request that is not in flight, and an animation end with no handler bound. The controller's handler methods require such an event to be possible instead.
- The build pipeline in `gulpfile.js` is not part of this model.
- The browser event loop is left out. Events are sequential and each handler runs to completion.
