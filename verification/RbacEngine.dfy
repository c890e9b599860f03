/**
 Roles, users and their effective permissions. A 64-bit permission mask is the
 set of its bits; inclusive or is union, and a required mask is met when it is
 a subset.
 */
module RbacEngine {
  import opened CStrings
  import opened Sequences

  const MAX_USERS := 512
  const MAX_ROLES := 64
  const MAX_PARENTS := 16
  const MAX_DEPTH := 10
  const USERNAME_LEN := 128
  const ROLENAME_LEN := 64

  type Mask = set<nat>

  datatype Role = Role(name: Str, mask: Mask, parents: seq<Str>)

  datatype User = User(name: Str, roles: seq<Str>, cached: Mask, cacheValid: bool)

  /** The first role of that name, or the length when there is none. */
  function RoleIndex(roles: seq<Role>, name: Str): (i: nat)
    ensures i <= |roles| && (i < |roles| ==> roles[i].name == name)
    ensures forall j :: 0 <= j < i ==> roles[j].name != name
  {
    if roles == [] || roles[0].name == name then 0 else 1 + RoleIndex(roles[1..], name)
  }

  predicate Known(roles: seq<Role>, name: Str) {
    RoleIndex(roles, name) < |roles|
  }

  function RoleOf(roles: seq<Role>, name: Str): Role
    requires Known(roles, name)
  {
    roles[RoleIndex(roles, name)]
  }

  function UserIndex(users: seq<User>, name: Str): (i: nat)
    ensures i <= |users| && (i < |users| ==> users[i].name == name)
    ensures forall j :: 0 <= j < i ==> users[j].name != name
  {
    if users == [] || users[0].name == name then 0 else 1 + UserIndex(users[1..], name)
  }

  // -------------------------------------------------------------- resolution

  /** A role's own bits and those of its parents, to a depth of ten links. */
  function Resolve(roles: seq<Role>, name: Str, depth: nat): Mask
    decreases MAX_DEPTH + 1 - depth, 1, 0
  {
    if !Known(roles, name) || depth > MAX_DEPTH then {}
    else RoleOf(roles, name).mask + ResolveAll(roles, RoleOf(roles, name).parents, depth + 1)
  }

  function ResolveAll(roles: seq<Role>, names: seq<Str>, depth: nat): Mask
    decreases MAX_DEPTH + 1 - depth, 2, |names|
  {
    if names == [] then {} else Resolve(roles, names[0], depth) + ResolveAll(roles, names[1..], depth)
  }

  /** A path of registered roles, each a parent of the one before it. */
  ghost predicate Walk(roles: seq<Role>, w: seq<Str>) {
    && w != [] && (forall i :: 0 <= i < |w| ==> Known(roles, w[i]))
    && forall i :: 0 <= i < |w| - 1 ==> w[i + 1] in RoleOf(roles, w[i]).parents
  }

  /** The walk leads from `name` to a role that has the bit. */
  ghost predicate Reaches(roles: seq<Role>, w: seq<Str>, name: Str, bit: nat) {
    Walk(roles, w) && w[0] == name && bit in RoleOf(roles, w[|w| - 1]).mask
  }

  /** Whatever is resolved is reached by a short enough walk. */
  lemma {:induction false} ResolvedIsReached(roles: seq<Role>, name: Str, depth: nat, bit: nat) returns (w: seq<Str>)
    requires bit in Resolve(roles, name, depth)
    ensures Reaches(roles, w, name, bit) && |w| <= MAX_DEPTH + 1 - depth
    decreases MAX_DEPTH + 1 - depth
  {
    var r := RoleOf(roles, name);
    if bit in r.mask {
      w := [name];
    } else {
      var p := SomeResolves(roles, r.parents, depth + 1, bit);
      var tail := ResolvedIsReached(roles, p, depth + 1, bit);
      w := [name] + tail;
    }
  }

  lemma {:induction false} SomeResolves(roles: seq<Role>, names: seq<Str>, depth: nat, bit: nat) returns (n: Str)
    requires bit in ResolveAll(roles, names, depth)
    ensures n in names && bit in Resolve(roles, n, depth)
  {
    if bit in Resolve(roles, names[0], depth) {
      n := names[0];
    } else {
      n := SomeResolves(roles, names[1..], depth, bit);
    }
  }

  lemma {:induction false} AllResolve(roles: seq<Role>, names: seq<Str>, depth: nat, n: Str)
    requires n in names
    ensures Resolve(roles, n, depth) <= ResolveAll(roles, names, depth)
  {
    if n != names[0] { AllResolve(roles, names[1..], depth, n); }
  }

  lemma {:induction false} ReachedIsResolved(roles: seq<Role>, w: seq<Str>, depth: nat, bit: nat)
    requires w != [] && Reaches(roles, w, w[0], bit) && |w| <= MAX_DEPTH + 1 - depth
    ensures bit in Resolve(roles, w[0], depth)
    decreases |w|
  {
    if |w| > 1 {
      var tail := w[1..];
      assert Walk(roles, tail);
      ReachedIsResolved(roles, tail, depth + 1, bit);
      AllResolve(roles, RoleOf(roles, w[0]).parents, depth + 1, w[1]);
    }
  }

  /** The resolved mask is exactly the bits of roles within ten parent links, on any role graph. */
  lemma ResolvedIff(roles: seq<Role>, name: Str, bit: nat)
    ensures bit in Resolve(roles, name, 0) <==> exists w :: Reaches(roles, w, name, bit) && |w| <= MAX_DEPTH + 1
  {
    if bit in Resolve(roles, name, 0) {
      var w := ResolvedIsReached(roles, name, 0, bit);
    }
    forall w | Reaches(roles, w, name, bit) && |w| <= MAX_DEPTH + 1 ensures bit in Resolve(roles, name, 0) {
      ReachedIsResolved(roles, w, 0, bit);
    }
  }

  // -------------------------------------------- when the depth bound is no loss

  /** A walk that visits a role twice can leave the loop out. */
  lemma ShorterWalk(roles: seq<Role>, w: seq<Str>, name: Str, bit: nat, i: nat, j: nat) returns (v: seq<Str>)
    requires Reaches(roles, w, name, bit) && i < j < |w| && w[i] == w[j]
    ensures Reaches(roles, v, name, bit) && |v| < |w|
  {
    v := w[..i] + w[j..];
    forall k | 0 <= k < |v| ensures v[k] == w[if k < i then k else k - i + j] {
    }
    forall k | 0 <= k < |v| - 1 ensures v[k + 1] in RoleOf(roles, v[k]).parents {
      if k == i - 1 { assert v[k + 1] == w[i] && v[k] == w[i - 1]; }
    }
  }

  function RoleNames(roles: seq<Role>): (s: set<Str>) {
    set i | 0 <= i < |roles| :: roles[i].name
  }

  lemma {:induction false} RoleNamesCount(roles: seq<Role>)
    ensures |RoleNames(roles)| <= |roles|
  {
    if roles != [] {
      var n := |roles| - 1;
      RoleNamesCount(roles[..n]);
      assert RoleNames(roles) == RoleNames(roles[..n]) + {roles[n].name};
    }
  }

  /** What a walk reaches at all, one with no more steps than there are roles reaches. */
  lemma {:induction false} ShortWalk(roles: seq<Role>, w: seq<Str>, name: Str, bit: nat) returns (v: seq<Str>)
    requires Reaches(roles, w, name, bit)
    ensures Reaches(roles, v, name, bit) && |v| <= |roles|
    decreases |w|
  {
    if i, j :| 0 <= i < j < |w| && w[i] == w[j] {
      v := ShorterWalk(roles, w, name, bit, i, j);
      v := ShortWalk(roles, v, name, bit);
    } else {
      v := w;
      MembersCount(w);
      RoleNamesCount(roles);
      forall n | n in Members(w) ensures n in RoleNames(roles) {
        var k :| 0 <= k < |w| && w[k] == n;
        assert roles[RoleIndex(roles, w[k])].name == n;
      }
      SubsetCount(Members(w), RoleNames(roles));
    }
  }

  /** With at most eleven roles, cyclic or not, the depth bound loses nothing. */
  lemma ElevenRolesSuffice(roles: seq<Role>, name: Str, bit: nat)
    requires |roles| <= MAX_DEPTH + 1
    ensures bit in Resolve(roles, name, 0) <==> exists w :: Reaches(roles, w, name, bit)
  {
    ResolvedIff(roles, name, bit);
    forall w | Reaches(roles, w, name, bit) ensures bit in Resolve(roles, name, 0) {
      var v := ShortWalk(roles, w, name, bit);
    }
  }

  /** Twelve roles in a line, the last of which grants a bit. */
  function Line(): (roles: seq<Role>)
    ensures |roles| == 12 && forall k :: 0 <= k < 12 ==>
              roles[k].name == [k] && roles[k].mask == (if k == 11 then {0} else {})
    ensures forall k :: 0 <= k < 12 ==> roles[k].parents == if k < 11 then [[k + 1]] else []
  {
    seq(12, k requires 0 <= k < 12 => Role([k], if k == 11 then {0} else {}, if k < 11 then [[k + 1]] else []))
  }

  lemma LineRole(k: nat)
    requires k < 12
    ensures Known(Line(), [k]) && RoleOf(Line(), [k]) == Line()[k]
  {
    hide Line;
    RoleIndexIs(Line(), k);
  }

  lemma {:induction false} LineWalk(w: seq<Str>, i: nat)
    requires Walk(Line(), w) && w[0] == [0] && i < |w|
    ensures i < 12 && w[i] == [i]
  {
    hide Line, Known, RoleOf;
    if i > 0 {
      LineWalk(w, i - 1);
      LineRole(i - 1);
      assert w[i] in Line()[i - 1].parents;
    }
  }

  /** Twelve roles are too many: the last of a line of twelve is reachable from the first and not resolved. */
  lemma TwelveRolesLose()
    ensures (exists w :: Reaches(Line(), w, [0], 0)) && 0 !in Resolve(Line(), [0], 0)
  {
    hide Line, Known, RoleOf, Resolve;
    var w: seq<Str> := seq(12, k requires 0 <= k < 12 => [k]);
    forall k | 0 <= k < 12 ensures Known(Line(), w[k]) && RoleOf(Line(), w[k]) == Line()[k] {
      LineRole(k);
    }
    assert Reaches(Line(), w, [0], 0);
    ResolvedIff(Line(), [0], 0);
    forall v | Reaches(Line(), v, [0], 0) ensures |v| > MAX_DEPTH + 1 {
      LineWalk(v, |v| - 1);
      LineRole(|v| - 1);
    }
  }

  lemma RoleIndexIs(roles: seq<Role>, k: nat)
    requires k < |roles| && forall j :: 0 <= j < k ==> roles[j].name != roles[k].name
    ensures RoleIndex(roles, roles[k].name) == k
  {
  }

  // --------------------------------------------------------------- the engine

  /** Every role named by a user or as a parent is registered. */
  ghost predicate Closed(roles: seq<Role>, users: seq<User>) {
    && (forall i, p :: 0 <= i < |roles| && p in roles[i].parents ==> Known(roles, p))
    && forall i, r :: 0 <= i < |users| && r in users[i].roles ==> Known(roles, r)
  }

  /** A valid cache holds what resolving afresh would give. */
  ghost predicate Coherent(roles: seq<Role>, users: seq<User>) {
    forall i :: 0 <= i < |users| && users[i].cacheValid ==> users[i].cached == ResolveAll(roles, users[i].roles, 0)
  }

  function Effective(roles: seq<Role>, users: seq<User>, name: Str): Mask {
    var i := UserIndex(users, name);
    if i == |users| then {} else ResolveAll(roles, users[i].roles, 0)
  }

  /** What a user is answered: the cache if it is valid, right or not. */
  function Answer(roles: seq<Role>, users: seq<User>, name: Str): Mask {
    var i := UserIndex(users, name);
    if i == |users| then {} else if users[i].cacheValid then users[i].cached else ResolveAll(roles, users[i].roles, 0)
  }

  /** A role registered after the others changes nothing that resolved before. */
  lemma {:induction false} RegisteringKeeps(roles: seq<Role>, r: Role, name: Str, depth: nat)
    requires r.parents == [] && Known(roles, name)
    requires forall i, p :: 0 <= i < |roles| && p in roles[i].parents ==> Known(roles, p)
    ensures Known(roles + [r], name) && Resolve(roles + [r], name, depth) == Resolve(roles, name, depth)
    decreases MAX_DEPTH + 1 - depth, 1, 0
  {
    IndexKeeps(roles, r, name);
    if depth <= MAX_DEPTH {
      RegisteringKeepsAll(roles, r, RoleOf(roles, name).parents, depth + 1);
    }
  }

  lemma IndexKeeps(roles: seq<Role>, r: Role, name: Str)
    requires Known(roles, name)
    ensures Known(roles + [r], name) && RoleOf(roles + [r], name) == RoleOf(roles, name)
  {
    var i := RoleIndex(roles, name);
    RoleIndexIs(roles + [r], i);
  }

  lemma {:induction false} RegisteringKeepsAll(roles: seq<Role>, r: Role, names: seq<Str>, depth: nat)
    requires r.parents == [] && forall n :: n in names ==> Known(roles, n)
    requires forall i, p :: 0 <= i < |roles| && p in roles[i].parents ==> Known(roles, p)
    ensures ResolveAll(roles + [r], names, depth) == ResolveAll(roles, names, depth)
    decreases MAX_DEPTH + 1 - depth, 2, |names|
  {
    if names != [] {
      RegisteringKeeps(roles, r, names[0], depth);
      RegisteringKeepsAll(roles, r, names[1..], depth);
    }
  }

  class Engine {
    var roles: seq<Role>
    var users: seq<User>

    ghost predicate Valid()
      reads this
    {
      |roles| <= MAX_ROLES && |users| <= MAX_USERS && Closed(roles, users)
    }

    constructor ()
      ensures Valid() && roles == [] && users == [] && Coherent(roles, users)
    {
      roles, users := [], [];
    }

    method FindUser(name: Str) returns (i: nat)
      ensures i == UserIndex(users, name)
    {
      i := 0;
      while i < |users| && users[i].name != name
        invariant 0 <= i <= |users| && UserIndex(users, name) == i + UserIndex(users[i..], name)
      {
        assert users[i..][1..] == users[i + 1..];
        i := i + 1;
      }
    }

    method FindRole(name: Str) returns (i: nat)
      ensures i == RoleIndex(roles, name)
    {
      i := 0;
      while i < |roles| && roles[i].name != name
        invariant 0 <= i <= |roles| && RoleIndex(roles, name) == i + RoleIndex(roles[i..], name)
      {
        assert roles[i..][1..] == roles[i + 1..];
        i := i + 1;
      }
    }

    method RegisterRole(name: Str) returns (code: int)
      requires Valid()
      modifies this`roles
      ensures Valid() && (old(Coherent(roles, users)) ==> Coherent(roles, users))
      ensures code == if |old(roles)| >= MAX_ROLES then -1 else if Known(old(roles), name) then -2 else 0
      ensures roles == old(roles) + if code == 0 then [Role(Truncate(name, ROLENAME_LEN - 1), {}, [])] else []
      ensures forall u: Str :: Effective(roles, users, u) == Effective(old(roles), users, u)
    {
      hide ResolveAll, Resolve;
      if |roles| >= MAX_ROLES { return -1; }
      var i := FindRole(name);
      if i < |roles| { return -2; }
      var r := Role(Truncate(name, ROLENAME_LEN - 1), {}, []);
      RegisterLemma(roles, users, r);
      roles := roles + [r];
      return 0;
    }

    /** Adds bits to a role. Caches keep what they hold, and stay right exactly where the grant brings nothing new. */
    method GrantPermission(name: Str, mask: Mask) returns (ok: bool)
      requires Valid()
      modifies this`roles
      ensures Valid() && (ok <==> Known(old(roles), name))
      ensures roles == if ok then Granted(old(roles), name, mask) else old(roles)
      ensures ok ==> var i := RoleIndex(old(roles), name);
                     roles == old(roles)[i := old(roles)[i].(mask := old(roles)[i].mask + mask)]
      ensures old(Coherent(roles, users)) ==>
                (Coherent(roles, users) <==> !ok || GrantSpares(old(roles), users, name, mask))
    {
      hide Known, Coherent, GrantSpares;
      var i := FindRole(name);
      KnownIs(roles, name);
      if i == |roles| { return false; }
      GrantedKeeps(roles, users, name, mask);
      if Coherent(roles, users) { GrantCoherentIff(roles, users, name, mask); }
      roles := roles[i := roles[i].(mask := roles[i].mask + mask)];
      return true;
    }

    /**
     Names a parent of the last role of that name, both registered. Caches stay right
     exactly where it leads nowhere new.
     */
    method AddParent(role: Str, parent: Str) returns (code: int)
      requires Valid()
      modifies this`roles
      ensures Valid()
      ensures code == -1 <==> !Known(old(roles), role) || !Known(old(roles), parent)
      ensures code == -2 ==>
                roles == old(roles) && exists i :: LastOf(old(roles), role, i) && |old(roles)[i].parents| >= MAX_PARENTS
      ensures code == -1 ==> roles == old(roles)
      ensures code in {0, -1, -2}
      ensures code == 0 ==>
                exists i :: LastOf(old(roles), role, i) && roles == WithParent(old(roles), i, parent)
                            && |roles| == |old(roles)| && roles[i].parents == old(roles)[i].parents + [parent]
      ensures code == 0 && old(Coherent(roles, users)) ==>
                forall i :: LastOf(old(roles), role, i) ==>
                  (Coherent(roles, users) <==> ParentSpares(old(roles), users, i, parent))
    {
      hide Known, Coherent, ParentSpares;
      var foundRole, foundParent := -1, -1;
      for i := 0 to |roles|
        invariant roles == old(roles)
        invariant foundRole < 0 ==> foundRole == -1 && forall j :: 0 <= j < i ==> roles[j].name != role
        invariant foundRole >= 0 ==> foundRole < i && roles[foundRole].name == role
                                     && forall j :: foundRole < j < i ==> roles[j].name != role
        invariant foundParent < 0 ==> forall j :: 0 <= j < i ==> roles[j].name != parent
        invariant foundParent >= 0 ==> foundParent < i && roles[foundParent].name == parent
      {
        if roles[i].name == role { foundRole := i; }
        if roles[i].name == parent { foundParent := i; }
      }
      KnownIs(roles, role);
      KnownIs(roles, parent);
      if foundRole < 0 || foundParent < 0 { return -1; }
      assert LastOf(roles, role, foundRole);
      if |roles[foundRole].parents| >= MAX_PARENTS { return -2; }
      ghost var before := roles;
      if Coherent(roles, users) { ParentCoherentIff(roles, users, foundRole, parent); }
      roles := WithParent(roles, foundRole, parent);
      NamesKeepKnown(before, roles);
      return 0;
    }

    method CreateUser(name: Str) returns (code: int)
      requires Valid()
      modifies this`users
      ensures Valid() && (old(Coherent(roles, users)) ==> Coherent(roles, users))
      ensures code == if |old(users)| >= MAX_USERS then -1 else if UserIndex(old(users), name) < |old(users)| then -2
                else 0
      ensures users == old(users) + if code == 0 then [User(Truncate(name, USERNAME_LEN - 1), [], {}, false)] else []
    {
      hide ResolveAll, Resolve;
      if |users| >= MAX_USERS { return -1; }
      var i := FindUser(name);
      if i < |users| { return -2; }
      users := users + [User(Truncate(name, USERNAME_LEN - 1), [], {}, false)];
      return 0;
    }

    method AssignRole(user: Str, role: Str) returns (code: int)
      requires Valid()
      modifies this`users
      ensures Valid() && (old(Coherent(roles, users)) ==> Coherent(roles, users))
      ensures var i := UserIndex(old(users), user);
              && code == (if i == |old(users)| then -1 else if !Known(roles, role) then -2
                          else if |old(users)[i].roles| >= MAX_ROLES then -3 else 0)
              && users == if code != 0 then old(users)
                          else old(users)[i := old(users)[i].(
                                 roles := old(users)[i].roles + [role], cacheValid := false)]
      ensures code == 0 ==>
                Effective(roles, users, user) == Effective(roles, old(users), user) + Resolve(roles, role, 0)
    {
      hide Resolve;
      var i := FindUser(user);
      if i == |users| { return -1; }
      var k := FindRole(role);
      if k == |roles| { return -2; }
      if |users[i].roles| >= MAX_ROLES { return -3; }
      ResolveAllAppends(roles, users[i].roles, role);
      SameUser(users, i, users[i].(roles := users[i].roles + [role], cacheValid := false), user);
      users := users[i := users[i].(roles := users[i].roles + [role], cacheValid := false)];
      return 0;
    }

    method RemoveRole(user: Str, role: Str) returns (code: int)
      requires Valid()
      modifies this`users
      ensures Valid() && (old(Coherent(roles, users)) ==> Coherent(roles, users))
      ensures var i := UserIndex(old(users), user);
              && code == (if i == |old(users)| then -1 else if role !in old(users)[i].roles then -2 else 0)
              && users == if code != 0 then old(users)
                          else old(users)[i := old(users)[i].(
                                 roles := WithoutFirst(old(users)[i].roles, role), cacheValid := false)]
      ensures code == 0 ==>
                var i := UserIndex(old(users), user);
                var names := old(users)[i].roles;
                exists k :: 0 <= k < |names| && names[k] == role && role !in names[..k]
                            && |users| == |old(users)| && users[i].roles == names[..k] + names[k + 1..]
    {
      hide ResolveAll, Resolve, WithoutFirst;
      var i := FindUser(user);
      if i == |users| { return -1; }
      var names := users[i].roles;
      var found := 0;
      while found < |names| && names[found] != role
        invariant 0 <= found <= |names| && role !in names[..found]
      {
        found := found + 1;
      }
      if found == |names| { return -2; }
      FirstIs(names, role, found);
      WithoutSubset(names, role);
      users := users[i := users[i].(roles := names[..found] + names[found + 1..], cacheValid := false)];
      return 0;
    }

    /**
     Trusts a valid cache and otherwise resolves; where the caches are right, either
     way gives what resolving afresh does.
     */
    method GetEffectivePermissions(user: Str) returns (mask: Mask)
      requires Valid()
      modifies this`users
      ensures Valid() && (old(Coherent(roles, users)) <==> Coherent(roles, users))
      ensures mask == Answer(roles, old(users), user)
      ensures var i := UserIndex(old(users), user);
              if i == |old(users)| then
                mask == {} && users == old(users)
              else if old(users)[i].cacheValid then
                mask == old(users)[i].cached && users == old(users)
              else
                && mask == ResolveAll(roles, old(users)[i].roles, 0)
                && users == old(users)[i := old(users)[i].(cached := mask, cacheValid := true)]
      ensures old(Coherent(roles, users)) ==> mask == Effective(roles, old(users), user)
      ensures forall u: Str :: Effective(roles, users, u) == Effective(roles, old(users), u)
      ensures forall u: Str :: Answer(roles, users, u) == Answer(roles, old(users), u)
    {
      hide Resolve;
      var i := FindUser(user);
      if i == |users| { return {}; }
      if users[i].cacheValid { return users[i].cached; }
      mask := {};
      var names := users[i].roles;
      for k := 0 to |names|
        invariant users == old(users) && mask == ResolveAll(roles, names[..k], 0)
      {
        ResolveAllAppends(roles, names[..k], names[k]);
        assert names[..k + 1] == names[..k] + [names[k]];
        mask := mask + Resolve(roles, names[k], 0);
      }
      assert names[..|names|] == names;
      CacheKeeps(roles, users, i, mask);
      users := users[i := users[i].(cached := mask, cacheValid := true)];
    }

    method CheckPermission(user: Str, required: Mask) returns (ok: bool)
      requires Valid()
      modifies this`users
      ensures Valid() && (old(Coherent(roles, users)) <==> Coherent(roles, users))
      ensures ok <==> required <= Answer(roles, old(users), user)
      ensures old(Coherent(roles, users)) ==> (ok <==> required <= Effective(roles, old(users), user))
      ensures forall u: Str :: Effective(roles, users, u) == Effective(roles, old(users), u)
      ensures forall u: Str :: Answer(roles, users, u) == Answer(roles, old(users), u)
    {
      hide ResolveAll, Answer, Effective, Coherent;
      var effective := GetEffectivePermissions(user);
      if required == {} { return true; }
      return effective * required == required;
    }
  }

  ghost predicate LastOf(roles: seq<Role>, name: Str, i: int) {
    0 <= i < |roles| && roles[i].name == name && forall j :: i < j < |roles| ==> roles[j].name != name
  }

  function WithParent(roles: seq<Role>, i: int, parent: Str): seq<Role>
    requires 0 <= i < |roles|
  {
    roles[i := roles[i].(parents := roles[i].parents + [parent])]
  }

  function Granted(roles: seq<Role>, name: Str, mask: Mask): seq<Role>
    requires Known(roles, name)
  {
    var i := RoleIndex(roles, name);
    roles[i := roles[i].(mask := roles[i].mask + mask)]
  }

  lemma KnownIs(roles: seq<Role>, name: Str)
    ensures Known(roles, name) <==> RoleIndex(roles, name) < |roles|
    ensures Known(roles, name) <==> exists i :: 0 <= i < |roles| && roles[i].name == name
  {
  }

  /** Which names are registered depends on the roles' names alone. */
  lemma NamesKeepKnown(before: seq<Role>, after: seq<Role>)
    requires |before| == |after| && forall i :: 0 <= i < |before| ==> before[i].name == after[i].name
    ensures forall n :: Known(before, n) <==> Known(after, n)
  {
    hide Known;
    forall n ensures Known(before, n) <==> Known(after, n) {
      KnownIs(before, n);
      KnownIs(after, n);
    }
  }

  lemma GrantedKeeps(roles: seq<Role>, users: seq<User>, name: Str, mask: Mask)
    requires Known(roles, name) && Closed(roles, users)
    ensures Closed(Granted(roles, name, mask), users)
  {
    hide Known;
    KnownIs(roles, name);
    NamesKeepKnown(roles, Granted(roles, name, mask));
  }

  // --------------------------------------------- when caches survive a change

  /** The walk leads from one of `names` to the role `target`. */
  ghost predicate Leads(roles: seq<Role>, names: seq<Str>, w: seq<Str>, target: Str) {
    Walk(roles, w) && w[0] in names && w[|w| - 1] == target
  }

  /** The role `target` is among those a user with these roles resolves. */
  ghost predicate Covers(roles: seq<Role>, names: seq<Str>, target: Str) {
    exists w :: Leads(roles, names, w, target) && |w| <= MAX_DEPTH + 1
  }

  lemma AllResolvedIff(roles: seq<Role>, names: seq<Str>, bit: nat)
    ensures bit in ResolveAll(roles, names, 0)
       <==> exists w :: Walk(roles, w) && w[0] in names && |w| <= MAX_DEPTH + 1 && bit in RoleOf(roles, w[|w| - 1]).mask
  {
    hide Resolve, ResolveAll;
    if bit in ResolveAll(roles, names, 0) {
      var n := SomeResolves(roles, names, 0, bit);
      var w := ResolvedIsReached(roles, n, 0, bit);
    }
    forall w | Walk(roles, w) && w[0] in names && |w| <= MAX_DEPTH + 1 && bit in RoleOf(roles, w[|w| - 1]).mask
      ensures bit in ResolveAll(roles, names, 0)
    {
      assert Reaches(roles, w, w[0], bit);
      ReachedIsResolved(roles, w, 0, bit);
      AllResolve(roles, names, 0, w[0]);
    }
  }

  lemma GrantedRoles(roles: seq<Role>, name: Str, mask: Mask)
    requires Known(roles, name)
    ensures forall n :: Known(Granted(roles, name, mask), n) <==> Known(roles, n)
    ensures forall n :: Known(roles, n) ==> RoleOf(Granted(roles, name, mask), n).parents == RoleOf(roles, n).parents
    ensures forall n :: Known(roles, n) ==>
              RoleOf(Granted(roles, name, mask), n).mask == RoleOf(roles, n).mask + if n == name then mask else {}
    ensures forall w :: Walk(Granted(roles, name, mask), w) <==> Walk(roles, w)
  {
    var after := Granted(roles, name, mask);
    NamesKeepKnown(roles, after);
    forall n | Known(roles, n)
      ensures RoleOf(after, n).parents == RoleOf(roles, n).parents
      ensures RoleOf(after, n).mask == RoleOf(roles, n).mask + if n == name then mask else {}
    {
      SameIndex(roles, after, n);
    }
    hide Known, RoleOf;
  }

  /** Where a name is found depends on the roles' names alone. */
  lemma SameIndex(before: seq<Role>, after: seq<Role>, name: Str)
    requires |before| == |after| && forall i :: 0 <= i < |before| ==> before[i].name == after[i].name
    ensures RoleIndex(before, name) == RoleIndex(after, name)
  {
    var i := RoleIndex(before, name);
    if i < |before| {
      RoleIndexIs(after, i);
    }
  }

  /** A grant adds its bits to whoever covers the role, and to nobody else. */
  lemma GrantAdds(roles: seq<Role>, name: Str, mask: Mask, names: seq<Str>)
    requires Known(roles, name)
    ensures ResolveAll(Granted(roles, name, mask), names, 0)
         == ResolveAll(roles, names, 0) + if Covers(roles, names, name) then mask else {}
  {
    hide ResolveAll, Granted, Walk, Known, RoleOf;
    var after := Granted(roles, name, mask);
    GrantedRoles(roles, name, mask);
    forall bit: nat
      ensures bit in ResolveAll(after, names, 0)
         <==> bit in ResolveAll(roles, names, 0) || (bit in mask && Covers(roles, names, name))
    {
      AllResolvedIff(roles, names, bit);
      AllResolvedIff(after, names, bit);
      WalkEnds(roles);
    }
  }

  lemma WalkEnds(roles: seq<Role>)
    ensures forall w :: Walk(roles, w) ==> w != [] && Known(roles, w[|w| - 1])
  {
  }

  /** Every valid cache holds the granted bits already or does not cover the role. */
  ghost predicate GrantSpares(roles: seq<Role>, users: seq<User>, name: Str, mask: Mask) {
    forall i :: 0 <= i < |users| && users[i].cacheValid ==>
        mask <= users[i].cached || !Covers(roles, users[i].roles, name)
  }

  /** A grant leaves the caches right exactly where it brings their users nothing new. */
  lemma GrantCoherentIff(roles: seq<Role>, users: seq<User>, name: Str, mask: Mask)
    requires Known(roles, name) && Coherent(roles, users)
    ensures Coherent(Granted(roles, name, mask), users) <==> GrantSpares(roles, users, name, mask)
  {
    hide ResolveAll, Granted, Covers, Known;
    var after := Granted(roles, name, mask);
    forall i | 0 <= i < |users| && users[i].cacheValid
      ensures users[i].cached == ResolveAll(after, users[i].roles, 0)
         <==> mask <= users[i].cached || !Covers(roles, users[i].roles, name)
    {
      GrantAdds(roles, name, mask, users[i].roles);
    }
  }

  /** The roles with a parent added where lookups find the child: one more edge and nothing else. */
  lemma WithParentRoles(roles: seq<Role>, i: nat, parent: Str)
    requires i < |roles|
    ensures forall n :: Known(WithParent(roles, i, parent), n) <==> Known(roles, n)
    ensures forall n :: Known(roles, n) ==> RoleOf(WithParent(roles, i, parent), n).mask == RoleOf(roles, n).mask
    ensures forall n :: Known(roles, n) ==>
              RoleOf(WithParent(roles, i, parent), n).parents == RoleOf(roles, n).parents
              + if n == roles[i].name && RoleIndex(roles, n) == i then [parent] else []
  {
    var after := WithParent(roles, i, parent);
    NamesKeepKnown(roles, after);
    forall n | Known(roles, n)
      ensures RoleOf(after, n).mask == RoleOf(roles, n).mask
      ensures RoleOf(after, n).parents == RoleOf(roles, n).parents
              + if n == roles[i].name && RoleIndex(roles, n) == i then [parent] else []
    {
      SameIndex(roles, after, n);
    }
  }

  ghost predicate OldEdge(roles: seq<Role>, v: seq<Str>, k: nat)
    requires k + 1 < |v|
  {
    Known(roles, v[k]) && v[k + 1] in RoleOf(roles, v[k]).parents
  }

  lemma NewEdge(roles: seq<Role>, i: nat, parent: Str, v: seq<Str>, k: nat)
    requires i < |roles| && Walk(WithParent(roles, i, parent), v) && k + 1 < |v| && !OldEdge(roles, v, k)
    ensures RoleIndex(roles, roles[i].name) == i && v[k] == roles[i].name && v[k + 1] == parent
  {
    hide RoleOf, WithParent, RoleIndex;
    WithParentRoles(roles, i, parent);
    KnownIs(roles, roles[i].name);
  }

  /** The part of a list of registered roles before its first edge that is not there. */
  lemma BeforeNew(roles: seq<Role>, v: seq<Str>) returns (a: nat)
    requires v != [] && forall k :: 0 <= k < |v| ==> Known(roles, v[k])
    ensures a < |v| && Walk(roles, v[..a + 1]) && (a + 1 < |v| ==> !OldEdge(roles, v, a))
    ensures forall k :: 0 <= k < a ==> OldEdge(roles, v, k)
  {
    hide RoleOf, Known;
    a := 0;
    while a + 1 < |v| && OldEdge(roles, v, a)
      invariant a < |v| && forall k :: 0 <= k < a ==> OldEdge(roles, v, k)
    {
      a := a + 1;
    }
    var p := v[..a + 1];
    forall k | 0 <= k < |p| - 1 ensures p[k + 1] in RoleOf(roles, p[k]).parents { assert OldEdge(roles, v, k); }
  }

  /** And the part after its last. */
  lemma AfterNew(roles: seq<Role>, v: seq<Str>) returns (b: nat)
    requires v != [] && forall k :: 0 <= k < |v| ==> Known(roles, v[k])
    ensures b < |v| && Walk(roles, v[b..]) && (b > 0 ==> !OldEdge(roles, v, b - 1))
  {
    hide RoleOf, Known;
    b := |v| - 1;
    while b > 0 && OldEdge(roles, v, b - 1)
      invariant b < |v| && forall k :: b <= k < |v| - 1 ==> OldEdge(roles, v, k)
    {
      b := b - 1;
    }
    var t := v[b..];
    forall k | 0 <= k < |t| - 1 ensures t[k + 1] in RoleOf(roles, t[k]).parents { assert OldEdge(roles, v, b + k); }
  }

  /** A walk over the new edge: up to its first use and after its last, both without it. */
  lemma SplitAtEdge(roles: seq<Role>, i: nat, parent: Str, v: seq<Str>) returns (p: seq<Str>, t: seq<Str>)
    requires i < |roles| && Walk(WithParent(roles, i, parent), v) && !Walk(roles, v)
    ensures RoleIndex(roles, roles[i].name) == i
    ensures Walk(roles, p) && p[0] == v[0] && p[|p| - 1] == roles[i].name
    ensures Walk(roles, t) && t[0] == parent && t[|t| - 1] == v[|v| - 1]
    ensures |p| + |t| <= |v|
  {
    hide RoleOf, WithParent, RoleIndex, OldEdge, Known;
    WithParentRoles(roles, i, parent);
    assert v != [] && forall k :: 0 <= k < |v| ==> Known(roles, v[k]);
    var a := BeforeNew(roles, v);
    var b := AfterNew(roles, v);
    hide Walk;
    assert v[..|v|] == v && v[0..] == v;
    NewEdge(roles, i, parent, v, a);
    NewEdge(roles, i, parent, v, b - 1);
    p, t := v[..a + 1], v[b..];
  }

  lemma OldWalk(roles: seq<Role>, i: nat, parent: Str, w: seq<Str>)
    requires i < |roles| && Walk(roles, w)
    ensures Walk(WithParent(roles, i, parent), w)
  {
    hide RoleOf, WithParent, RoleIndex, Known;
    WithParentRoles(roles, i, parent);
    forall k | 0 <= k < |w| - 1 ensures w[k + 1] in RoleOf(WithParent(roles, i, parent), w[k]).parents {
      assert w[k + 1] in RoleOf(roles, w[k]).parents;
    }
  }

  lemma WalkJoin(roles: seq<Role>, p: seq<Str>, t: seq<Str>)
    requires Walk(roles, p) && Walk(roles, t) && t[0] in RoleOf(roles, p[|p| - 1]).parents
    ensures Walk(roles, p + t)
  {
    hide RoleOf, Known;
    var w := p + t;
    forall k | 0 <= k < |w| ensures Known(roles, w[k]) {
      assert w[k] == if k < |p| then p[k] else t[k - |p|];
    }
    forall k | 0 <= k < |w| - 1 ensures w[k + 1] in RoleOf(roles, w[k]).parents {
      if k + 1 < |p| {
        assert w[k] == p[k] && w[k + 1] == p[k + 1];
      } else if k + 1 == |p| {
        assert w[k] == p[k] && w[k + 1] == t[0];
      } else {
        assert w[k] == t[k - |p|] && w[k + 1] == t[k + 1 - |p|];
      }
    }
  }

  /** Joining two walks over the new edge. */
  lemma JoinAtEdge(roles: seq<Role>, i: nat, parent: Str, p: seq<Str>, t: seq<Str>)
    requires i < |roles| && RoleIndex(roles, roles[i].name) == i
    requires Walk(roles, p) && p[|p| - 1] == roles[i].name && Walk(roles, t) && t[0] == parent
    ensures Walk(WithParent(roles, i, parent), p + t)
  {
    OldWalk(roles, i, parent, p);
    OldWalk(roles, i, parent, t);
    WithParentRoles(roles, i, parent);
    hide RoleOf, WithParent, RoleIndex;
    WalkJoin(WithParent(roles, i, parent), p, t);
  }

  /** A new parent brings what it resolves to at the depth at which its child is met, and nothing else. */
  lemma ParentAdds(roles: seq<Role>, i: nat, parent: Str, names: seq<Str>, bit: nat)
    requires i < |roles|
    ensures bit in ResolveAll(WithParent(roles, i, parent), names, 0)
       <==> || bit in ResolveAll(roles, names, 0)
            || (RoleIndex(roles, roles[i].name) == i
                && exists p :: Leads(roles, names, p, roles[i].name) && bit in Resolve(roles, parent, |p|))
  {
    hide Resolve, ResolveAll, WithParent, RoleOf, RoleIndex;
    var after := WithParent(roles, i, parent);
    var child := roles[i].name;
    WithParentRoles(roles, i, parent);
    AllResolvedIff(roles, names, bit);
    AllResolvedIff(after, names, bit);
    if bit in ResolveAll(after, names, 0) {
      var v :| Walk(after, v) && v[0] in names && |v| <= MAX_DEPTH + 1 && bit in RoleOf(after, v[|v| - 1]).mask;
      if !Walk(roles, v) { var p := WalkOverEdge(roles, i, parent, names, v, bit); }
    }
    forall w | Walk(roles, w) ensures Walk(after, w) { OldWalk(roles, i, parent, w); }
    if RoleIndex(roles, child) == i && exists p :: Leads(roles, names, p, child) && bit in Resolve(roles, parent, |p|) {
      var p :| Leads(roles, names, p, child) && bit in Resolve(roles, parent, |p|);
      ParentWalk(roles, i, parent, names, p, bit);
    }
  }

  lemma WalkOverEdge(roles: seq<Role>, i: nat, parent: Str, names: seq<Str>, v: seq<Str>,
                     bit: nat) returns (p: seq<Str>)
    requires i < |roles| && Walk(WithParent(roles, i, parent), v) && !Walk(roles, v)
    requires v[0] in names && |v| <= MAX_DEPTH + 1 && bit in RoleOf(WithParent(roles, i, parent), v[|v| - 1]).mask
    ensures RoleIndex(roles, roles[i].name) == i
    ensures Leads(roles, names, p, roles[i].name) && bit in Resolve(roles, parent, |p|)
  {
    hide Resolve, ResolveAll, WithParent, RoleOf, RoleIndex;
    var t: seq<Str>;
    p, t := SplitAtEdge(roles, i, parent, v);
    WithParentRoles(roles, i, parent);
    assert Reaches(roles, t, t[0], bit);
    ReachedIsResolved(roles, t, |p|, bit);
  }

  lemma ParentWalk(roles: seq<Role>, i: nat, parent: Str, names: seq<Str>, p: seq<Str>, bit: nat)
    requires i < |roles| && RoleIndex(roles, roles[i].name) == i
    requires Leads(roles, names, p, roles[i].name) && bit in Resolve(roles, parent, |p|)
    ensures bit in ResolveAll(WithParent(roles, i, parent), names, 0)
  {
    hide Resolve, ResolveAll, WithParent, RoleOf, RoleIndex;
    var after := WithParent(roles, i, parent);
    var t := ResolvedIsReached(roles, parent, |p|, bit);
    JoinAtEdge(roles, i, parent, p, t);
    WithParentRoles(roles, i, parent);
    var w := p + t;
    assert w[0] == p[0] && w[|w| - 1] == t[|t| - 1];
    AllResolvedIff(after, names, bit);
    assert Walk(after, w) && |w| <= MAX_DEPTH + 1;
  }

  /** A second role of the name is never found; else every valid cache holds whatever the parent brings. */
  ghost predicate ParentSpares(roles: seq<Role>, users: seq<User>, i: int, parent: Str) {
    0 <= i < |roles| && RoleIndex(roles, roles[i].name) == i ==>
      forall u, p :: 0 <= u < |users| && users[u].cacheValid && Leads(roles, users[u].roles, p, roles[i].name)
                     ==> Resolve(roles, parent, |p|) <= users[u].cached
  }

  /** A new parent leaves the caches right exactly where it brings their users nothing new. */
  lemma ParentCoherentIff(roles: seq<Role>, users: seq<User>, i: nat, parent: Str)
    requires i < |roles| && Coherent(roles, users)
    ensures Coherent(WithParent(roles, i, parent), users) <==> ParentSpares(roles, users, i, parent)
  {
    hide Resolve, ResolveAll, WithParent, Leads;
    var after := WithParent(roles, i, parent);
    forall u | 0 <= u < |users| && users[u].cacheValid
      ensures users[u].cached == ResolveAll(after, users[u].roles, 0)
         <==> (RoleIndex(roles, roles[i].name) == i ==>
                forall p :: Leads(roles, users[u].roles, p, roles[i].name) ==>
                    Resolve(roles, parent, |p|) <= users[u].cached)
    {
      forall bit: nat
        ensures bit in ResolveAll(after, users[u].roles, 0)
           <==> || bit in users[u].cached
                || (RoleIndex(roles, roles[i].name) == i
                    && exists p :: Leads(roles, users[u].roles, p, roles[i].name) && bit in Resolve(roles, parent, |p|))
      {
        ParentAdds(roles, i, parent, users[u].roles, bit);
      }
    }
  }

  /** Granting does not reach the caches: a coherent engine can be left with a stale one. */
  lemma GrantLeavesStale()
    ensures var roles := [Role([1], {}, [])];
            var users := [User([2], [[1]], {}, true)];
            Coherent(roles, users) && Known(roles, [1]) && !Coherent(Granted(roles, [1], {0}), users)
  {
    var roles := [Role([1], {}, [])];
    var users := [User([2], [[1]], {}, true)];
    var after := Granted(roles, [1], {0});
    assert ResolveAll(roles, [[1]], 0) == Resolve(roles, [1], 0) + ResolveAll(roles, [], 0);
    assert ResolveAll(roles, [], 1) == {};
    assert ResolveAll(after, [[1]], 0) == Resolve(after, [1], 0) + ResolveAll(after, [], 0);
    assert 0 in Resolve(after, [1], 0);
    assert users[0].cacheValid && users[0].cached != ResolveAll(after, users[0].roles, 0);
  }

  /** Nor does a new parent. */
  lemma ParentLeavesStale()
    ensures var roles := [Role([1], {}, []), Role([3], {0}, [])];
            var users := [User([2], [[1]], {}, true)];
            Coherent(roles, users) && LastOf(roles, [1], 0) && !Coherent(WithParent(roles, 0, [3]), users)
  {
    var roles := [Role([1], {}, []), Role([3], {0}, [])];
    var users := [User([2], [[1]], {}, true)];
    assert roles[1..] == [Role([3], {0}, [])];
    assert RoleIndex(roles, [1]) == 0 && RoleIndex(roles, [3]) == 1;
    assert ResolveAll(roles, [[1]], 0) == Resolve(roles, [1], 0) + ResolveAll(roles, [], 0);
    assert ResolveAll(roles, [], 1) == {};
    assert Coherent(roles, users);
    ParentCoherentIff(roles, users, 0, [3]);
    assert Leads(roles, users[0].roles, [[1]], [1]);
    assert 0 in Resolve(roles, [3], 1);
  }

  function WithoutFirst(names: seq<Str>, n: Str): seq<Str> {
    if names == [] then [] else if names[0] == n then names[1..] else [names[0]] + WithoutFirst(names[1..], n)
  }

  lemma {:induction false} FirstIs(names: seq<Str>, n: Str, k: nat)
    requires k < |names| && names[k] == n && n !in names[..k]
    ensures WithoutFirst(names, n) == names[..k] + names[k + 1..]
  {
    if k > 0 {
      assert names[1..][..k - 1] == names[..k][1..];
      assert names[0] == names[..k][0];
      FirstIs(names[1..], n, k - 1);
    }
  }

  lemma {:induction false} WithoutSubset(names: seq<Str>, n: Str)
    ensures forall r :: r in WithoutFirst(names, n) ==> r in names
  {
    if names != [] { WithoutSubset(names[1..], n); }
  }

  lemma {:induction false} ResolveAllAppends(roles: seq<Role>, names: seq<Str>, n: Str)
    ensures ResolveAll(roles, names + [n], 0) == ResolveAll(roles, names, 0) + Resolve(roles, n, 0)
  {
    if names == [] {
      assert ResolveAll(roles, [n], 0) == Resolve(roles, n, 0) + ResolveAll(roles, [], 0);
    } else {
      ResolveAllAppends(roles, names[1..], n);
      assert (names + [n])[1..] == names[1..] + [n];
    }
  }

  lemma UserIndexIs(users: seq<User>, name: Str, i: nat)
    requires i <= |users| && (i < |users| ==> users[i].name == name) && forall j :: 0 <= j < i ==> users[j].name != name
    ensures UserIndex(users, name) == i
  {
  }

  lemma SameUser(users: seq<User>, i: nat, u: User, name: Str)
    requires i < |users| && u.name == users[i].name
    ensures UserIndex(users[i := u], name) == UserIndex(users, name)
  {
    UserIndexIs(users[i := u], name, UserIndex(users, name));
  }

  /** Filling a cache with what resolving gives changes no answer and no coherence. */
  lemma CacheKeeps(roles: seq<Role>, users: seq<User>, i: nat, mask: Mask)
    requires i < |users| && !users[i].cacheValid && mask == ResolveAll(roles, users[i].roles, 0)
    ensures var after := users[i := users[i].(cached := mask, cacheValid := true)];
            && (Coherent(roles, users) <==> Coherent(roles, after))
            && (forall n: Str :: Effective(roles, after, n) == Effective(roles, users, n))
            && forall n: Str :: Answer(roles, after, n) == Answer(roles, users, n)
  {
    hide ResolveAll;
    var u := users[i].(cached := mask, cacheValid := true);
    var after := users[i := u];
    forall n: Str
      ensures Effective(roles, after, n) == Effective(roles, users, n)
      ensures Answer(roles, after, n) == Answer(roles, users, n)
    {
      SameUser(users, i, u, n);
    }
    if Coherent(roles, after) {
      forall k | 0 <= k < |users| && users[k].cacheValid
        ensures users[k].cached == ResolveAll(roles, users[k].roles, 0)
      {
        assert after[k] == users[k];
      }
    }
  }

  lemma RegisterLemma(roles: seq<Role>, users: seq<User>, r: Role)
    requires Closed(roles, users) && r.parents == []
    ensures Closed(roles + [r], users)
    ensures Coherent(roles, users) ==> Coherent(roles + [r], users)
    ensures forall n: Str :: Effective(roles + [r], users, n) == Effective(roles, users, n)
  {
    hide ResolveAll, Known;
    forall i | 0 <= i < |users|
      ensures ResolveAll(roles + [r], users[i].roles, 0) == ResolveAll(roles, users[i].roles, 0)
    {
      RegisteringKeepsAll(roles, r, users[i].roles, 0);
    }
    forall n | Known(roles, n) ensures Known(roles + [r], n) {
      IndexKeeps(roles, r, n);
    }
  }
}
