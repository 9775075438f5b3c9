/** The product management page: who may manage products, the listing it
    asks for, the status switch and the per-row actions. */
module ProductsPage {
  import opened Common
  import opened PageRoles
  import Products

  /** The toggle after the render-time correction: a user who cannot
      manage products never has it on. */
  function ShowInactive(user: User, toggled: bool): (r: bool)
    ensures r ==> CanManage(user)
    ensures CanManage(user) ==> r == toggled
  {
    toggled && CanManage(user)
  }

  /** The `(includeInactive, includeDeleted)` flags of the list query,
      which is sent only once a user is signed in. */
  function QueryFlags(user: User, toggled: bool): (r: Option<(bool, bool)>)
    ensures r.None? <==> user.None?
    ensures r.Some? ==> r.value.0 == r.value.1 == ShowInactive(user, toggled)
  {
    if user.None? then None
    else var show := ShowInactive(user, toggled); Some((show, show))
  }

  /** Someone who cannot manage products is only ever shown active,
      non-deleted products. */
  lemma NonManagersSeeOnlyLiveProducts(t: Products.Table, user: User, toggled: bool)
    requires !CanManage(user) && user.Some?
    ensures var flags := QueryFlags(user, toggled).value;
            var listed := Products.FindAll(t, flags.0, flags.1);
            forall i :: 0 <= i < |listed| ==> listed[i].isActive && !listed[i].deleted
  {
  }

  /** What a flip of a row's status switch does. */
  datatype StatusAction = NoAction | PermissionDenied | Deactivate(id: int) | Activate(id: int)

  /** `handleStatusChange`: nothing for a deleted product; a user who cannot
      manage products gets an error instead of reactivating; otherwise an
      active product is deactivated and an inactive one activated. */
  function HandleStatusChange(user: User, p: Products.Product): (r: StatusAction)
    ensures p.deleted ==> r == NoAction
    ensures !p.deleted && !p.isActive && !CanManage(user) ==> r == PermissionDenied
    ensures r.Deactivate? <==> !p.deleted && p.isActive
    ensures r.Activate? <==> !p.deleted && !p.isActive && CanManage(user)
    ensures r.Deactivate? || r.Activate? ==> r.id == p.id
  {
    if p.deleted then NoAction
    else if !p.isActive && !CanManage(user) then PermissionDenied
    else if p.isActive then Deactivate(p.id)
    else Activate(p.id)
  }

  /** The switch is disabled for deleted rows and, for users who cannot
      manage products, for inactive ones. */
  predicate SwitchDisabled(user: User, p: Products.Product) {
    p.deleted || (!p.isActive && !CanManage(user))
  }

  /** A switch that is enabled always sends a request, and the request flips
      the product's active flag; a disabled one would send nothing. */
  lemma EnabledSwitchFlipsStatus(user: User, p: Products.Product)
    ensures !SwitchDisabled(user, p) <==>
              HandleStatusChange(user, p).Activate? || HandleStatusChange(user, p).Deactivate?
    ensures HandleStatusChange(user, p).Activate? ==> !p.isActive
    ensures HandleStatusChange(user, p).Deactivate? ==> p.isActive
  {
  }

  /** The status badge: deleted first, then active, else inactive. */
  function StatusLabel(p: Products.Product): (text: string)
    ensures p.deleted ==> text == "Eliminado"
    ensures !p.deleted && p.isActive ==> text == "Activo"
    ensures !p.deleted && !p.isActive ==> text == "Inactivo"
  {
    if p.deleted then "Eliminado" else if p.isActive then "Activo" else "Inactivo"
  }

  /** The per-row buttons besides edit and the switch. */
  datatype RowButtons = RowButtons(restore: bool, delete: bool)

  /** A deleted row offers restore, to admins only; any other row offers
      delete. */
  function RowActions(user: User, p: Products.Product): (r: RowButtons)
    ensures r.restore <==> p.deleted && HasRoleId(user, AdminRoleId)
    ensures r.delete <==> !p.deleted
    ensures !(r.restore && r.delete)
  {
    RowButtons(p.deleted && HasRoleId(user, AdminRoleId), !p.deleted)
  }

  /** Every row shows exactly one of the badge's three labels, and the
      delete button shows exactly on the rows not labelled deleted. */
  lemma DeleteShownOnRowsNotDeleted(user: User, p: Products.Product)
    ensures RowActions(user, p).delete <==> StatusLabel(p) != "Eliminado"
  {
  }
}
