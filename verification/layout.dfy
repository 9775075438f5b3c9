/** The application frame: the navigation a signed-in user sees. */
module Layout {
  import opened Common
  import opened PageRoles

  datatype NavItem = DashboardLink | ShopLink | ProductsLink | CategoriesLink | InventoryLink | UsersLink

  /** The position of a link in the sidebar's order. */
  function Position(item: NavItem): nat {
    match item
    case DashboardLink => 0
    case ShopLink => 1
    case ProductsLink => 2
    case CategoriesLink => 3
    case InventoryLink => 4
    case UsersLink => 5
  }

  /** Whether the sidebar offers `item` to `user`. */
  predicate Offered(user: User, item: NavItem) {
    match item
    case DashboardLink => true
    case ShopLink => true
    case ProductsLink => CanManage(user)
    case CategoriesLink => IsAdmin(user)
    case InventoryLink => CanManage(user)
    case UsersLink => IsAdmin(user)
  }

  /** `[item]` when `shown`, else nothing. */
  function When(shown: bool, item: NavItem): (r: seq<NavItem>)
    ensures forall x :: x in r <==> shown && x == item
  {
    if shown then [item] else []
  }

  /** The sidebar: none at all for a visitor who is not authenticated
      (only the routed page shows); otherwise exactly the links the user's
      role ids allow, each once, in sidebar order. */
  function Navigation(authenticated: bool, user: User): (r: Option<seq<NavItem>>)
    ensures r.None? <==> !authenticated
    ensures r.Some? ==> forall item :: item in r.value <==> Offered(user, item)
    ensures r.Some? ==> forall i, j :: 0 <= i < j < |r.value| ==> Position(r.value[i]) < Position(r.value[j])
  {
    if !authenticated then None
    else
      var links := [DashboardLink, ShopLink] + When(CanManage(user), ProductsLink)
                   + When(IsAdmin(user), CategoriesLink) + When(CanManage(user), InventoryLink)
                   + When(IsAdmin(user), UsersLink);
      Some(links)
  }

  /** Dashboard and Shop are always there; Products and Inventory exactly
      for admins and merchants; Categories and Users exactly for admins. */
  lemma LinksByRole(user: User)
    ensures var links := Navigation(true, user).value;
            && DashboardLink in links && ShopLink in links
            && (ProductsLink in links <==> CanManage(user))
            && (InventoryLink in links <==> CanManage(user))
            && (CategoriesLink in links <==> IsAdmin(user))
            && (UsersLink in links <==> IsAdmin(user))
  {
    var links := Navigation(true, user).value;
    assert Offered(user, DashboardLink) && Offered(user, ShopLink);
  }

  /** Whoever sees the admin links also sees the manager links. */
  lemma AdminLinksImplyManagerLinks(user: User)
    ensures var links := Navigation(true, user).value;
            CategoriesLink in links ==> ProductsLink in links && InventoryLink in links
  {
  }

  /** A token without a stored user gets the links everyone gets and no
      other. */
  lemma TokenWithoutUserGetsBasicLinks()
    ensures Navigation(true, None) == Some([DashboardLink, ShopLink])
  {
    assert !CanManage(None) && !IsAdmin(None);
    assert [DashboardLink, ShopLink] + [] + [] + [] + [] == [DashboardLink, ShopLink];
  }
}
