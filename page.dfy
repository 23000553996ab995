/** The abstract page that the modal component works on.

    The component only ever touches the document through jQuery selections; this
    module replaces the document by the few facts those selections can observe:
    the `.modal` containers, what is inside each of them, whether the append
    target carries the overlay class, the requests still in flight and the two
    fields the trigger handler overwrites on the controller.
 */
module ModalPage {

  datatype Option<T> = None | Some(value: T)

  /** Class of the modal container (`self.classModal`). */
  const ClassModal: string := "modal"
  /** What the type-modifier class adds after `ClassModal` in the class attribute. */
  const ModifierPrefix: string := " modal--"
  /** Class of the element extracted from the fetched page (`self.classContent`). */
  const ClassContent: string := "modal__content"
  /** The key code the keyup handler closes on. */
  const EscapeKeyCode: int := 27

  /** One element of a fetched page, kept as opaque markup. */
  type Element = string

  /** A `.modal` container in the document.
      `instance` tells apart containers created by different clicks, `className` is
      the class attribute it was created with, `closing` says whether the closing
      class was added, `removalHandlers` counts the one-shot `animationend`
      handlers bound to it, and `wrapper` holds the children of its `.modal__wrapper`. */
  datatype Container = Container(
    instance: nat,
    className: string,
    closing: bool,
    closeButtons: nat,
    loaders: nat,
    wrapper: seq<Element>,
    removalHandlers: nat)

  /** A fragment request issued by `.load`: its number, the string passed to
      `.load`, and the instances of the containers whose wrapper it was called on. */
  datatype Load = Load(id: nat, request: string, targets: set<nat>)

  /** The page and the controller fields.
      `location` and `modalType` are `self.getLocation` and `self.modalType`;
      `hookCalls` records, for every call of `modalLoaded`, the number of the
      request issued just before it. */
  datatype Page = Page(
    containers: seq<Container>,
    overlay: bool,
    location: string,
    modalType: Option<string>,
    loads: seq<Load>,
    nextInstance: nat,
    nextLoad: nat,
    hookCalls: seq<nat>)

  /** The class attribute a new container is created with: `modal` alone when no
      type was given, `modal modal--<type>` otherwise. The type can be read back
      from it, so the two shapes never collide. */
  function ContainerClass(modalType: Option<string>): (r: string)
    ensures modalType.None? <==> r == ClassModal
    ensures |r| >= |ClassModal| && r[..|ClassModal|] == ClassModal
    ensures TypeOfClass(r) == modalType
  {
    match modalType
    case None => ClassModal
    case Some(t) =>
      var r := ClassModal + ModifierPrefix + t;
      assert r[..|ClassModal + ModifierPrefix|] == ClassModal + ModifierPrefix;
      assert r[|ClassModal + ModifierPrefix|..] == t;
      r
  }

  /** Reads the type modifier back from a container's class attribute. */
  function TypeOfClass(className: string): Option<string>
  {
    var prefix := ClassModal + ModifierPrefix;
    if |prefix| <= |className| && className[..|prefix|] == prefix
    then Some(className[|prefix|..])
    else None
  }
}
