/** Role permission masks: `Permission`, `Role.insert_roles`' defaults and the bit test
    of `User.has_permission`. */
module Permissions {
  import opened Schema

  /** `Permission.ADMINISTRATION`. */
  const ADMINISTRATION: nat := 1

  /** The roles `Role.insert_roles()` installs when called without arguments, in dict order. */
  function DefaultRoles(): (r: seq<(string, Role)>)
    ensures |r| == 2 && r[0].0 != r[1].0
  {
    [("Admin", Role(0xff, false)), ("User", Role(0, true))]
  }

  /** Python's `a & b` on non-negative integers. */
  function BitAnd(a: nat, b: nat): (r: nat)
    ensures r <= a && r <= b
  {
    if a == 0 || b == 0 then 0
    else 2 * BitAnd(a / 2, b / 2) + (if a % 2 == 1 && b % 2 == 1 then 1 else 0)
  }

  /** `permissions & permission == permission`: every bit of `p` is set in `mask`. */
  predicate Grants(mask: nat, p: nat) {
    BitAnd(mask, p) == p
  }

  /** A mask grants only values no larger than itself. */
  lemma GrantsBounded(mask: nat, p: nat)
    requires Grants(mask, p)
    ensures p <= mask
  {
  }

  /** Every mask grants itself and the empty permission set. */
  lemma {:induction false} GrantsReflexive(mask: nat)
    ensures Grants(mask, mask) && Grants(mask, 0)
  {
    if mask != 0 {
      GrantsReflexive(mask / 2);
    }
  }

  /** A mask that grants `q` grants every permission `q` grants. */
  lemma {:induction false} GrantsTransitive(a: nat, b: nat, c: nat)
    requires Grants(a, b) && Grants(b, c)
    ensures Grants(a, c)
  {
    if a != 0 && c != 0 {
      assert b != 0;
      assert BitAnd(a / 2, b / 2) == b / 2;
      assert BitAnd(b / 2, c / 2) == c / 2;
      GrantsTransitive(a / 2, b / 2, c / 2);
    }
  }

  /** The default Admin role holds ADMINISTRATION; the default User role does not. */
  lemma DefaultRolesAdministration()
    ensures Grants(DefaultRoles()[0].1.permissions, ADMINISTRATION)
    ensures !Grants(DefaultRoles()[1].1.permissions, ADMINISTRATION)
  {
    assert BitAnd(0xff, 1) == 2 * BitAnd(0x7f, 0) + 1;
  }
}
