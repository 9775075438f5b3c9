/** The signed-in user as the pages test it: absent before login, and
    otherwise the ids of their roles. The pages compare role ids directly:
    2 is merchant and 3 is admin. */
module PageRoles {
  import opened Common

  const MerchantRoleId: int := 2
  const AdminRoleId: int := 3

  type User = Option<seq<int>>

  /** `user?.roles.some(r => r.id === roleId)`. */
  predicate HasRoleId(user: User, roleId: int) {
    user.Some? && roleId in user.value
  }

  predicate IsAdmin(user: User) {
    HasRoleId(user, AdminRoleId)
  }

  /** Admin or merchant: the roles that manage products and inventory. */
  predicate CanManage(user: User) {
    HasRoleId(user, AdminRoleId) || HasRoleId(user, MerchantRoleId)
  }
}
