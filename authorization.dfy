/**
 * `ContentRepositoryAuthorizationService`: decides what a user may do with a
 * workspace (read, write, manage) and with a node (read, edit), and which
 * subtree tags are hidden from a user. The policy service, the privilege
 * manager, the workspace service and the party service are parameters.
 */
module Authorization {
  import opened Wrappers
  import opened OrderedMaps
  import opened ContentModel

  type RoleId = string
  type UserId = string
  type SubtreeTag = string

  const FlowRoleEverybody: RoleId := "Neos.Flow:Everybody"
  const FlowRoleAnonymous: RoleId := "Neos.Flow:Anonymous"
  const FlowRoleAuthenticatedUser: RoleId := "Neos.Flow:AuthenticatedUser"
  const FlowRoleNeosAdministrator: RoleId := "Neos.Neos:Administrator"

  /** A Flow policy role with all of its (transitive) parent roles. */
  datatype Role = Role(identifier: RoleId, allParentRoles: seq<Role>)

  datatype Account = Account(accountIdentifier: string, roles: seq<Role>)

  datatype User = User(id: UserId)

  /** Workspace roles, ordered by what they allow. */
  datatype WorkspaceRole = Viewer | Collaborator | Manager

  function Rank(r: WorkspaceRole): nat
  {
    match r
    case Viewer => 1
    case Collaborator => 2
    case Manager => 3
  }

  /** `WorkspaceRole::isAtLeast`. */
  predicate IsAtLeast(r: WorkspaceRole, other: WorkspaceRole)
  {
    Rank(r) >= Rank(other)
  }

  datatype WorkspaceRoleSubject = Group(role: RoleId) | UserSubject(userId: UserId)

  datatype WorkspacePermissions = WorkspacePermissions(read: bool, write: bool, manage: bool)

  /** `WorkspacePermissions::none`, `::all` and `::manage`. */
  const NoPermissions := WorkspacePermissions(false, false, false)
  const AllPermissions := WorkspacePermissions(true, true, true)
  const ManagePermissions := WorkspacePermissions(false, false, true)

  /** `WorkspacePermissions::create` from a workspace role. */
  function PermissionsOfRole(r: WorkspaceRole, administrator: bool): WorkspacePermissions
  {
    WorkspacePermissions(IsAtLeast(r, Viewer), IsAtLeast(r, Collaborator), administrator || IsAtLeast(r, Manager))
  }

  /** `WorkspaceService::getMostPrivilegedWorkspaceRoleForSubjects`. */
  type RoleLookup = (ContentRepositoryId, WorkspaceName, seq<WorkspaceRoleSubject>) -> Option<WorkspaceRole>

  // ---------------------------------------------------------------------------
  // Roles

  /** `rolesOfAnonymousUser`: Everybody and Anonymous, as the policy service defines them. */
  function RolesOfAnonymousUser(getRole: RoleId -> Role): (roles: OrderedMap<RoleId, Role>)
    ensures Keys(roles) == [FlowRoleEverybody, FlowRoleAnonymous]
    ensures Get(roles, FlowRoleEverybody) == Some(getRole(FlowRoleEverybody))
    ensures Get(roles, FlowRoleAnonymous) == Some(getRole(FlowRoleAnonymous))
  {
    [(FlowRoleEverybody, getRole(FlowRoleEverybody)), (FlowRoleAnonymous, getRole(FlowRoleAnonymous))]
  }

  /** The role entries `expandAccountRoles` offers, in the order it offers them. */
  function Candidates(getRole: RoleId -> Role, accountRoles: seq<Role>): seq<(RoleId, Role)>
  {
    if accountRoles == [] then
      [(FlowRoleEverybody, getRole(FlowRoleEverybody)), (FlowRoleAuthenticatedUser, getRole(FlowRoleAuthenticatedUser))]
    else
      var r := accountRoles[|accountRoles| - 1];
      Candidates(getRole, accountRoles[..|accountRoles| - 1]) + [(r.identifier, r)] + ParentEntries(r.allParentRoles)
  }

  function ParentEntries(parents: seq<Role>): (r: seq<(RoleId, Role)>)
    ensures |r| == |parents|
    ensures forall i :: 0 <= i < |parents| ==> r[i] == (parents[i].identifier, parents[i])
  {
    seq(|parents|, i requires 0 <= i < |parents| => (parents[i].identifier, parents[i]))
  }

  /** `if (!array_key_exists($k, $roles)) $roles[$k] = $v;`. */
  function AddIfAbsent(m: OrderedMap<RoleId, Role>, entry: (RoleId, Role)): OrderedMap<RoleId, Role>
  {
    if entry.0 in Keys(m) then m else Assign(m, entry.0, entry.1)
  }

  /** The array built by offering the entries `cs` in order, each added only when its key is new. */
  function FirstWins(cs: seq<(RoleId, Role)>): OrderedMap<RoleId, Role>
  {
    if cs == [] then [] else AddIfAbsent(FirstWins(cs[..|cs| - 1]), cs[|cs| - 1])
  }

  /** The value of the first entry of `cs` with key `k`: an independent definition scanning from the front. */
  function FirstValue(cs: seq<(RoleId, Role)>, k: RoleId): Option<Role>
  {
    if cs == [] then None else if cs[0].0 == k then Some(cs[0].1) else FirstValue(cs[1..], k)
  }

  lemma {:induction false} FirstValueSnoc(cs: seq<(RoleId, Role)>, x: (RoleId, Role), k: RoleId)
    ensures FirstValue(cs + [x], k) ==
      if FirstValue(cs, k).Some? then FirstValue(cs, k) else if x.0 == k then Some(x.1) else None
  {
    if cs != [] {
      assert (cs + [x])[1..] == cs[1..] + [x];
      FirstValueSnoc(cs[1..], x, k);
    }
  }

  lemma {:induction false} FirstValueFound(cs: seq<(RoleId, Role)>, k: RoleId)
    ensures FirstValue(cs, k).Some? <==> exists i :: 0 <= i < |cs| && cs[i].0 == k
  {
    if cs != [] {
      FirstValueFound(cs[1..], k);
      if cs[0].0 != k && exists i :: 0 <= i < |cs| && cs[i].0 == k {
        var i :| 0 <= i < |cs| && cs[i].0 == k;
        assert cs[1..][i - 1] == cs[i];
      }
    }
  }

  /** First insertion wins: under each key the array holds the first value offered for it, and only offered keys occur. */
  lemma {:induction false} FirstWinsGet(cs: seq<(RoleId, Role)>, k: RoleId)
    ensures Get(FirstWins(cs), k) == FirstValue(cs, k)
  {
    if cs != [] {
      var n := |cs| - 1;
      FirstWinsGet(cs[..n], k);
      FirstValueSnoc(cs[..n], cs[n], k);
      assert cs == cs[..n] + [cs[n]];
    }
  }

  /** What `expandAccountRoles` returns: the first-wins map of the offered roles. */
  function ExpandedRoles(getRole: RoleId -> Role, account: Account): OrderedMap<RoleId, Role>
  {
    FirstWins(Candidates(getRole, account.roles))
  }

  /**
   * The expanded roles hold Everybody and AuthenticatedUser as the policy
   * service defines them, and otherwise exactly the account's roles and
   * their parent roles.
   */
  lemma ExpandedRolesKeys(getRole: RoleId -> Role, account: Account, k: RoleId)
    ensures Get(ExpandedRoles(getRole, account), FlowRoleEverybody) == Some(getRole(FlowRoleEverybody))
    ensures Get(ExpandedRoles(getRole, account), FlowRoleAuthenticatedUser) == Some(getRole(FlowRoleAuthenticatedUser))
    ensures k in Keys(ExpandedRoles(getRole, account)) <==>
      k == FlowRoleEverybody || k == FlowRoleAuthenticatedUser || OfferedByAccount(account.roles, k)
  {
    var cs := Candidates(getRole, account.roles);
    CandidatesStart(getRole, account.roles);
    FirstWinsGet(cs, FlowRoleEverybody);
    FirstWinsGet(cs, FlowRoleAuthenticatedUser);
    FirstWinsGet(cs, k);
    FirstValueFound(cs, k);
    CandidateKeys(getRole, account.roles, k);
  }

  /** `k` is one of the roles or one of their parent roles. */
  predicate OfferedByAccount(roles: seq<Role>, k: RoleId)
  {
    exists i :: 0 <= i < |roles| && OfferedByRole(roles[i], k)
  }

  /** `k` is the role or one of its parent roles. */
  predicate OfferedByRole(r: Role, k: RoleId)
  {
    r.identifier == k || exists j :: 0 <= j < |r.allParentRoles| && r.allParentRoles[j].identifier == k
  }

  lemma {:induction false} CandidatesStart(getRole: RoleId -> Role, roles: seq<Role>)
    ensures |Candidates(getRole, roles)| >= 2
    ensures Candidates(getRole, roles)[0] == (FlowRoleEverybody, getRole(FlowRoleEverybody))
    ensures Candidates(getRole, roles)[1] == (FlowRoleAuthenticatedUser, getRole(FlowRoleAuthenticatedUser))
  {
    if roles != [] {
      CandidatesStart(getRole, roles[..|roles| - 1]);
    }
  }

  lemma CandidateKeys(getRole: RoleId -> Role, roles: seq<Role>, k: RoleId)
    ensures (exists i :: 0 <= i < |Candidates(getRole, roles)| && Candidates(getRole, roles)[i].0 == k) <==>
      k == FlowRoleEverybody || k == FlowRoleAuthenticatedUser || OfferedByAccount(roles, k)
  {
    if exists i :: 0 <= i < |Candidates(getRole, roles)| && Candidates(getRole, roles)[i].0 == k {
      var i :| 0 <= i < |Candidates(getRole, roles)| && Candidates(getRole, roles)[i].0 == k;
      CandidateOffered(getRole, roles, i);
    }
    if k == FlowRoleEverybody || k == FlowRoleAuthenticatedUser || OfferedByAccount(roles, k) {
      var i := OfferedCandidate(getRole, roles, k);
    }
  }

  /** `k` is offered by some role of `roles`: either by one of the earlier ones or by the last. */
  lemma OfferedBySnoc(roles: seq<Role>, k: RoleId)
    requires roles != []
    ensures OfferedByAccount(roles, k) <==> OfferedByAccount(roles[..|roles| - 1], k) || OfferedByRole(roles[|roles| - 1], k)
  {
    var n := |roles| - 1;
    if OfferedByAccount(roles, k) {
      var i :| 0 <= i < |roles| && OfferedByRole(roles[i], k);
      if i < n {
        assert roles[..n][i] == roles[i];
      }
    }
    if OfferedByAccount(roles[..n], k) {
      var i :| 0 <= i < n && OfferedByRole(roles[..n][i], k);
      assert roles[..n][i] == roles[i];
    }
  }

  /** Every offered entry is Everybody, AuthenticatedUser, an account role or a parent role. */
  lemma {:induction false} CandidateOffered(getRole: RoleId -> Role, roles: seq<Role>, i: nat)
    requires i < |Candidates(getRole, roles)|
    ensures var k := Candidates(getRole, roles)[i].0;
      k == FlowRoleEverybody || k == FlowRoleAuthenticatedUser || OfferedByAccount(roles, k)
  {
    var k := Candidates(getRole, roles)[i].0;
    if roles != [] {
      var n := |roles| - 1;
      var r := roles[n];
      var prior := Candidates(getRole, roles[..n]);
      var ps := ParentEntries(r.allParentRoles);
      var cs := Candidates(getRole, roles);
      assert cs == prior + [(r.identifier, r)] + ps;
      OfferedBySnoc(roles, k);
      if i < |prior| {
        assert prior[i] == cs[i];
        CandidateOffered(getRole, roles[..n], i);
      } else if i == |prior| {
        assert cs[i] == (r.identifier, r);
      } else {
        assert cs[i] == ps[i - |prior| - 1];
        assert r.allParentRoles[i - |prior| - 1].identifier == k;
      }
    }
  }

  /** Everybody, AuthenticatedUser, every account role and every parent role is offered. */
  lemma {:induction false} OfferedCandidate(getRole: RoleId -> Role, roles: seq<Role>, k: RoleId) returns (i: nat)
    requires k == FlowRoleEverybody || k == FlowRoleAuthenticatedUser || OfferedByAccount(roles, k)
    ensures i < |Candidates(getRole, roles)| && Candidates(getRole, roles)[i].0 == k
  {
    CandidatesStart(getRole, roles);
    if k == FlowRoleEverybody {
      i := 0;
    } else if k == FlowRoleAuthenticatedUser {
      i := 1;
    } else {
      var n := |roles| - 1;
      var r := roles[n];
      var prior := Candidates(getRole, roles[..n]);
      var ps := ParentEntries(r.allParentRoles);
      var cs := Candidates(getRole, roles);
      assert cs == prior + [(r.identifier, r)] + ps;
      OfferedBySnoc(roles, k);
      if OfferedByAccount(roles[..n], k) {
        i := OfferedCandidate(getRole, roles[..n], k);
        assert cs[i] == prior[i];
      } else if r.identifier == k {
        i := |prior|;
        assert cs[i] == (r.identifier, r);
      } else {
        var j :| 0 <= j < |r.allParentRoles| && r.allParentRoles[j].identifier == k;
        i := |prior| + 1 + j;
        assert cs[i] == ps[j];
      }
    }
  }

  /** `expandAccountRoles`. */
  method ExpandAccountRoles(account: Account, getRole: RoleId -> Role) returns (roles: OrderedMap<RoleId, Role>)
    ensures roles == ExpandedRoles(getRole, account)
  {
    roles := [];
    roles := Assign(roles, FlowRoleEverybody, getRole(FlowRoleEverybody));
    roles := Assign(roles, FlowRoleAuthenticatedUser, getRole(FlowRoleAuthenticatedUser));
    InitialRoles(getRole);
    var i := 0;
    while i < |account.roles|
      invariant 0 <= i <= |account.roles|
      invariant roles == FirstWins(Candidates(getRole, account.roles[..i]))
    {
      var currentRole := account.roles[i];
      ghost var offered := Candidates(getRole, account.roles[..i]) + [(currentRole.identifier, currentRole)];
      OfferStep(Candidates(getRole, account.roles[..i]), (currentRole.identifier, currentRole));
      if currentRole.identifier !in Keys(roles) {
        roles := Assign(roles, currentRole.identifier, currentRole);
      }
      var parents := currentRole.allParentRoles;
      assert offered + ParentEntries(parents[..0]) == offered;
      var j := 0;
      while j < |parents|
        invariant 0 <= j <= |parents|
        invariant roles == FirstWins(offered + ParentEntries(parents[..j]))
      {
        var currentParentRole := parents[j];
        ParentStep(offered, parents, j);
        if currentParentRole.identifier !in Keys(roles) {
          roles := Assign(roles, currentParentRole.identifier, currentParentRole);
        }
        j := j + 1;
      }
      RoleStep(getRole, account.roles, i);
      i := i + 1;
    }
    assert account.roles[..i] == account.roles;
  }

  lemma InitialRoles(getRole: RoleId -> Role)
    ensures FirstWins(Candidates(getRole, []))
         == Assign(Assign([], FlowRoleEverybody, getRole(FlowRoleEverybody)),
                   FlowRoleAuthenticatedUser, getRole(FlowRoleAuthenticatedUser))
  {
    var cs := Candidates(getRole, []);
    var first := Assign([], FlowRoleEverybody, getRole(FlowRoleEverybody));
    assert cs[..1][..0] == [];
    assert FirstWins(cs[..1]) == first;
    assert cs[..|cs| - 1] == cs[..1];
    assert FlowRoleEverybody != FlowRoleAuthenticatedUser;
    assert FlowRoleAuthenticatedUser !in Keys(first);
  }

  lemma RoleStep(getRole: RoleId -> Role, roles: seq<Role>, i: nat)
    requires i < |roles|
    ensures Candidates(getRole, roles[..i + 1])
         == Candidates(getRole, roles[..i]) + [(roles[i].identifier, roles[i])]
            + ParentEntries(roles[i].allParentRoles[..|roles[i].allParentRoles|])
  {
    assert roles[..i + 1][..i] == roles[..i];
    assert roles[i].allParentRoles[..|roles[i].allParentRoles|] == roles[i].allParentRoles;
  }

  lemma OfferStep(cs: seq<(RoleId, Role)>, x: (RoleId, Role))
    ensures FirstWins(cs + [x]) == AddIfAbsent(FirstWins(cs), x)
  {
    assert (cs + [x])[..|cs|] == cs;
  }

  lemma ParentStep(offered: seq<(RoleId, Role)>, parents: seq<Role>, j: nat)
    requires j < |parents|
    ensures FirstWins(offered + ParentEntries(parents[..j + 1]))
         == AddIfAbsent(FirstWins(offered + ParentEntries(parents[..j])), (parents[j].identifier, parents[j]))
  {
    assert offered + ParentEntries(parents[..j + 1]) == (offered + ParentEntries(parents[..j])) + [(parents[j].identifier, parents[j])];
    OfferStep(offered + ParentEntries(parents[..j]), (parents[j].identifier, parents[j]));
  }

  // ---------------------------------------------------------------------------
  // Workspace permissions

  /** `getWorkspacePermissionsForAnonymousUser`: the role of Everybody and Anonymous decides. */
  function WorkspacePermissionsForAnonymousUser(repo: ContentRepositoryId, w: WorkspaceName, lookup: RoleLookup)
    : (p: WorkspacePermissions)
    ensures lookup(repo, w, [Group(FlowRoleEverybody), Group(FlowRoleAnonymous)]).None? ==> p == NoPermissions
    ensures lookup(repo, w, [Group(FlowRoleEverybody), Group(FlowRoleAnonymous)]).Some? ==>
      var r := lookup(repo, w, [Group(FlowRoleEverybody), Group(FlowRoleAnonymous)]).value;
      p.read && (p.write <==> r != Viewer) && (p.manage <==> r == Manager)
  {
    match lookup(repo, w, [Group(FlowRoleEverybody), Group(FlowRoleAnonymous)])
    case None => NoPermissions
    case Some(r) => PermissionsOfRole(r, false)
  }

  /** The subjects whose workspace roles count for a user: the expanded roles as groups, and the user itself. */
  function SubjectsOf(roles: OrderedMap<RoleId, Role>, user: Option<User>): seq<WorkspaceRoleSubject>
  {
    var groups := seq(|roles|, i requires 0 <= i < |roles| => Group(roles[i].0));
    if user.Some? then groups + [UserSubject(user.value.id)] else groups
  }

  /** The permissions `getWorkspacePermissionsForAccount` grants, given the expanded roles. */
  function AccountPermissions(owner: Option<UserId>, user: Option<User>, administrator: bool,
                              role: Option<WorkspaceRole>): WorkspacePermissions
  {
    if owner.Some? && user.Some? && user.value.id == owner.value then AllPermissions
    else if role.None? then (if administrator then ManagePermissions else NoPermissions)
    else PermissionsOfRole(role.value, administrator)
  }

  /**
   * The rule table: the owner gets everything; without an explicit role an
   * administrator may manage and anyone else gets nothing; with a role, read
   * and write follow the role and manage is the role's or an administrator's.
   */
  lemma AccountPermissionRules(owner: Option<UserId>, user: Option<User>, administrator: bool, role: Option<WorkspaceRole>)
    ensures owner.Some? && user.Some? && user.value.id == owner.value ==>
      AccountPermissions(owner, user, administrator, role) == AllPermissions
    ensures !(owner.Some? && user.Some? && user.value.id == owner.value) ==>
      var p := AccountPermissions(owner, user, administrator, role);
      && (role.None? ==> p == WorkspacePermissions(false, false, administrator))
      && (role.Some? ==> (p.read && (p.write <==> role.value != Viewer) && (p.manage <==> administrator || role.value == Manager)))
    ensures administrator ==> AccountPermissions(owner, user, administrator, role).manage
  {
  }

  /** `getWorkspacePermissionsForAccount`; `owner` is the owner in the workspace metadata, `user` the account's Neos user. */
  method GetWorkspacePermissionsForAccount(repo: ContentRepositoryId, w: WorkspaceName, account: Account,
                                           owner: Option<UserId>, user: Option<User>,
                                           getRole: RoleId -> Role, lookup: RoleLookup)
    returns (p: WorkspacePermissions)
    ensures owner.Some? && user.Some? && user.value.id == owner.value ==> p == AllPermissions
    ensures !(owner.Some? && user.Some? && user.value.id == owner.value) ==>
      var roles := ExpandedRoles(getRole, account);
      p == AccountPermissions(owner, user, FlowRoleNeosAdministrator in Keys(roles),
                              lookup(repo, w, SubjectsOf(roles, user)))
  {
    if owner.Some? && user.Some? && user.value.id == owner.value {
      return AllPermissions;
    }
    var userRoles := ExpandAccountRoles(account, getRole);
    var userIsAdministrator := FlowRoleNeosAdministrator in Keys(userRoles);
    var subjects := SubjectsOf(userRoles, user);
    var userWorkspaceRole := lookup(repo, w, subjects);
    if userWorkspaceRole.None? {
      if userIsAdministrator {
        return ManagePermissions;
      }
      return NoPermissions;
    }
    p := PermissionsOfRole(userWorkspaceRole.value, userIsAdministrator);
  }

  // ---------------------------------------------------------------------------
  // Node permissions and visibility

  datatype NodeAddress = NodeAddress(contentRepositoryId: ContentRepositoryId, workspaceName: WorkspaceName,
                                     dimensionSpacePoint: DimensionSpacePoint, aggregateId: NodeAggregateId)

  /** A node of a content graph, reduced to what the permission check reads. */
  datatype TaggedNode = TaggedNode(contentRepositoryId: ContentRepositoryId, aggregateId: NodeAggregateId,
                                   tags: set<SubtreeTag>)

  /** `Node|NodeAddress`. */
  datatype NodeOrAddress = AsNode(node: TaggedNode) | AsAddress(address: NodeAddress)

  datatype NodePrivilege = ReadNodePrivilege | EditNodePrivilege

  datatype SubtreeTagPrivilegeSubject = SubtreeTagPrivilegeSubject(tags: set<SubtreeTag>,
                                                                   contentRepositoryId: ContentRepositoryId)

  datatype NodePermissions = NodePermissions(read: bool, edit: bool)

  /** `PrivilegeManagerInterface::isGrantedForRoles`. */
  type GrantCheck = (OrderedMap<RoleId, Role>, NodePrivilege, SubtreeTagPrivilegeSubject) -> bool

  /**
   * What resolving a node address can throw: `getContentGraph` of a
   * workspace the content repository does not have.
   */
  datatype ResolveError = WorkspaceDoesNotExist(workspaceName: WorkspaceName)

  /**
   * `nodeForNodeAddress`: the node the address names in its workspace's
   * graph, `None` when there is none, or the error `getContentGraph`
   * throws for the address's workspace.
   */
  type NodeResolver = NodeAddress -> Result<Option<TaggedNode>, ResolveError>

  /**
   * `nodePermissionsForRoles`. An address is resolved first; an error from
   * resolving it propagates, and one that finds no node grants nothing.
   */
  function NodePermissionsForRoles(target: NodeOrAddress, roles: OrderedMap<RoleId, Role>,
                                   resolve: NodeResolver, isGranted: GrantCheck)
    : (r: Result<NodePermissions, ResolveError>)
    ensures r.Failure? <==> target.AsAddress? && resolve(target.address).Failure?
    ensures r.Failure? ==> r.error == resolve(target.address).error
    ensures target.AsAddress? && resolve(target.address) == Success(None) ==> r == Success(NodePermissions(false, false))
  {
    if target.AsAddress? && resolve(target.address).Failure? then Failure(resolve(target.address).error)
    else if target.AsAddress? && resolve(target.address).value.None? then Success(NodePermissions(false, false))
    else
      var node := if target.AsNode? then target.node else resolve(target.address).value.value;
      var subject := SubtreeTagPrivilegeSubject(node.tags, node.contentRepositoryId);
      Success(NodePermissions(isGranted(roles, ReadNodePrivilege, subject), isGranted(roles, EditNodePrivilege, subject)))
  }

  /**
   * An address that resolves gets the permissions of the node it resolves
   * to, which the privilege manager decides for the node's subtree tags;
   * a node given directly is never resolved, so it never fails.
   */
  lemma AddressAndNodeAgree(address: NodeAddress, roles: OrderedMap<RoleId, Role>,
                            resolve: NodeResolver, isGranted: GrantCheck)
    requires resolve(address).Success? && resolve(address).value.Some?
    ensures NodePermissionsForRoles(AsAddress(address), roles, resolve, isGranted)
         == NodePermissionsForRoles(AsNode(resolve(address).value.value), roles, resolve, isGranted)
    ensures var n := resolve(address).value.value;
      var subject := SubtreeTagPrivilegeSubject(n.tags, n.contentRepositoryId);
      NodePermissionsForRoles(AsNode(n), roles, resolve, isGranted)
        == Success(NodePermissions(isGranted(roles, ReadNodePrivilege, subject), isGranted(roles, EditNodePrivilege, subject)))
  {
  }

  /** `getNodePermissionsForAnonymousUser`. */
  function GetNodePermissionsForAnonymousUser(target: NodeOrAddress, getRole: RoleId -> Role,
                                              resolve: NodeResolver, isGranted: GrantCheck)
    : (r: Result<NodePermissions, ResolveError>)
    ensures r == NodePermissionsForRoles(target, RolesOfAnonymousUser(getRole), resolve, isGranted)
  {
    NodePermissionsForRoles(target, RolesOfAnonymousUser(getRole), resolve, isGranted)
  }

  /** `getNodePermissionsForAccount`. */
  method GetNodePermissionsForAccount(target: NodeOrAddress, account: Account, getRole: RoleId -> Role,
                                      resolve: NodeResolver, isGranted: GrantCheck)
    returns (r: Result<NodePermissions, ResolveError>)
    ensures r == NodePermissionsForRoles(target, ExpandedRoles(getRole, account), resolve, isGranted)
  {
    var roles := ExpandAccountRoles(account, getRole);
    r := NodePermissionsForRoles(target, roles, resolve, isGranted);
  }

  /** The subtree tags of the read privileges not granted for `roles`, taken in order. */
  function RestrictedTags(repo: ContentRepositoryId, roles: OrderedMap<RoleId, Role>,
                          privileges: seq<set<SubtreeTag>>, isGranted: GrantCheck): set<SubtreeTag>
  {
    if privileges == [] then {}
    else
      var n := |privileges| - 1;
      var prior := RestrictedTags(repo, roles, privileges[..n], isGranted);
      if !isGranted(roles, ReadNodePrivilege, SubtreeTagPrivilegeSubject(privileges[n], repo))
      then prior + privileges[n] else prior
  }

  /** A tag is restricted exactly when some read privilege on it is not granted for the roles. */
  lemma {:induction false} RestrictedTagsMembers(repo: ContentRepositoryId, roles: OrderedMap<RoleId, Role>,
                                                 privileges: seq<set<SubtreeTag>>, isGranted: GrantCheck, t: SubtreeTag)
    ensures t in RestrictedTags(repo, roles, privileges, isGranted) <==>
      exists i :: 0 <= i < |privileges| && t in privileges[i]
               && !isGranted(roles, ReadNodePrivilege, SubtreeTagPrivilegeSubject(privileges[i], repo))
  {
    if privileges != [] {
      var n := |privileges| - 1;
      RestrictedTagsMembers(repo, roles, privileges[..n], isGranted, t);
      if exists i :: 0 <= i < |privileges| && t in privileges[i]
                  && !isGranted(roles, ReadNodePrivilege, SubtreeTagPrivilegeSubject(privileges[i], repo)) {
        var i :| 0 <= i < |privileges| && t in privileges[i]
               && !isGranted(roles, ReadNodePrivilege, SubtreeTagPrivilegeSubject(privileges[i], repo));
        if i < n {
          assert privileges[..n][i] == privileges[i];
        }
      }
    }
  }

  /**
   * `tagConstraintsForRoles`; `privileges` lists the subtree tags of every
   * `ReadNodePrivilege` the policy defines.
   */
  method TagConstraintsForRoles(repo: ContentRepositoryId, roles: OrderedMap<RoleId, Role>,
                                privileges: seq<set<SubtreeTag>>, isGranted: GrantCheck)
    returns (restrictedSubtreeTags: set<SubtreeTag>)
    ensures restrictedSubtreeTags == RestrictedTags(repo, roles, privileges, isGranted)
  {
    restrictedSubtreeTags := {};
    var i := 0;
    while i < |privileges|
      invariant 0 <= i <= |privileges|
      invariant restrictedSubtreeTags == RestrictedTags(repo, roles, privileges[..i], isGranted)
    {
      assert privileges[..i + 1][..i] == privileges[..i];
      if !isGranted(roles, ReadNodePrivilege, SubtreeTagPrivilegeSubject(privileges[i], repo)) {
        restrictedSubtreeTags := restrictedSubtreeTags + privileges[i];
      }
      i := i + 1;
    }
    assert privileges[..i] == privileges;
  }

  /** `VisibilityConstraints::fromTagConstraints`: nodes carrying any of these tags are hidden. */
  datatype VisibilityConstraints = VisibilityConstraints(tagConstraints: set<SubtreeTag>)

  /** `getVisibilityConstraintsForAnonymousUser`. */
  method GetVisibilityConstraintsForAnonymousUser(repo: ContentRepositoryId, getRole: RoleId -> Role,
                                                  privileges: seq<set<SubtreeTag>>, isGranted: GrantCheck)
    returns (c: VisibilityConstraints)
    ensures c == VisibilityConstraints(RestrictedTags(repo, RolesOfAnonymousUser(getRole), privileges, isGranted))
  {
    var tags := TagConstraintsForRoles(repo, RolesOfAnonymousUser(getRole), privileges, isGranted);
    c := VisibilityConstraints(tags);
  }

  /** `getVisibilityConstraintsForAccount`. */
  method GetVisibilityConstraintsForAccount(repo: ContentRepositoryId, account: Account, getRole: RoleId -> Role,
                                            privileges: seq<set<SubtreeTag>>, isGranted: GrantCheck)
    returns (c: VisibilityConstraints)
    ensures c == VisibilityConstraints(RestrictedTags(repo, ExpandedRoles(getRole, account), privileges, isGranted))
  {
    var roles := ExpandAccountRoles(account, getRole);
    var tags := TagConstraintsForRoles(repo, roles, privileges, isGranted);
    c := VisibilityConstraints(tags);
  }
}
