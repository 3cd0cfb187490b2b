/** Who may change a link (backend/authorization.py). */
module Authorization {
  import opened Common

  datatype User = User(id: int, isDemo: bool)

  datatype Denial = NotFound | DemoReadOnly

  /** `authorize_owner`, then `forbid_if_demo`: None lets the request through. */
  function Authorize(ownerId: Option<int>, user: User): Option<Denial> {
    if ownerId.None? || ownerId.value != user.id then Some(NotFound)
    else if user.isDemo then Some(DemoReadOnly)
    else None
  }
}
