/**
 The comparator on two of its change kinds, dataset grants and user roles: when its verdict agrees with what
 users can effectively do before and after.
 */
module PolicyDiff {
  import opened Common

  datatype Role = Viewer | Editor | Admin {
    function Name(): string {
      match this
      case Viewer => "viewer"
      case Editor => "editor"
      case Admin => "admin"
    }

    function Rank(): nat {
      match this
      case Viewer => 0
      case Editor => 1
      case Admin => 2
    }
  }

  /** Subjects are stored normalised (stripped, lower case), and so are user names. */
  datatype Subject = Everyone | OfRole(name: string) | OfUser(name: string) | OfGroup(name: string)

  datatype Grant = Grant(subject: Subject, canView: bool, canEdit: bool)

  datatype User = User(name: string, role: Role)

  datatype Access = Access(view: bool, edit: bool)

  predicate Matches(s: Subject, u: User, groups: set<string>) {
    match s
    case Everyone => true
    case OfRole(name) => name == u.role.Name()
    case OfUser(name) => name == u.name
    case OfGroup(name) => name in groups
  }

  predicate GivesView(g: Grant, u: User, groups: set<string>) {
    Matches(g.subject, u, groups) && (g.canView || g.canEdit)
  }

  predicate GivesEdit(g: Grant, u: User, groups: set<string>) {
    Matches(g.subject, u, groups) && g.canEdit
  }

  /** Admins bypass grants, an empty list means the role default, any grant makes the list an allowlist. */
  function Granted(u: User, groups: set<string>, grants: seq<Grant>): Access {
    if u.role == Admin then Access(true, true)
    else if grants == [] then Access(true, u.role == Editor)
    else Access(exists g :: g in grants && GivesView(g, u, groups), exists g :: g in grants && GivesEdit(g, u, groups))
  }

  /** The fold over grants as it runs. */
  method EvalGrants(u: User, groups: set<string>, grants: seq<Grant>) returns (a: Access)
    ensures a == Granted(u, groups, grants)
  {
    if u.role == Admin {
      return Access(true, true);
    }
    if grants == [] {
      return Access(true, u.role == Editor);
    }
    var view, edit := false, false;
    for k := 0 to |grants|
      invariant view <==> exists g :: g in grants[..k] && GivesView(g, u, groups)
      invariant edit <==> exists g :: g in grants[..k] && GivesEdit(g, u, groups)
    {
      var g := grants[k];
      assert grants[..k + 1] == grants[..k] + [g];
      assert g in grants[..k + 1] && forall h :: h in grants[..k] ==> h in grants[..k + 1];
      if !Matches(g.subject, u, groups) {
        continue;
      }
      if g.canEdit {
        view, edit := true, true;
      } else if g.canView {
        view := true;
      }
    }
    assert grants[..|grants|] == grants;
    return Access(view, edit);
  }

  predicate Gains(before: Access, after: Access) {
    (after.view && !before.view) || (after.edit && !before.edit)
  }

  // ----- dataset grants -----

  /** Who is in which group, and who holds every marking the dataset needs. */
  datatype Identity = Identity(groups: map<string, set<string>>, cleared: set<string>)

  function GroupsOf(id: Identity, u: User): set<string> {
    if u.name in id.groups then id.groups[u.name] else {}
  }

  /** `dataset_permission`: the grants, then the mandatory markings, which admins bypass. */
  function Effective(id: Identity, u: User, grants: seq<Grant>): Access {
    if u.role == Admin || u.name in id.cleared then Granted(u, GroupsOf(id, u), grants) else Access(false, false)
  }

  /** `_diff_dataset_grants`, as it runs: admins and uncleared users are skipped. */
  method DiffDatasetGrants(id: Identity, users: seq<User>, before: seq<Grant>, after: seq<Grant>)
    returns (loosening: bool)
    ensures loosening <==> exists u :: u in users && Gains(Effective(id, u, before), Effective(id, u, after))
  {
    loosening := false;
    for k := 0 to |users|
      invariant loosening <==> exists u :: u in users[..k] && Gains(Effective(id, u, before), Effective(id, u, after))
    {
      var u := users[k];
      assert users[..k + 1] == users[..k] + [u];
      assert u in users[..k + 1] && forall v :: v in users[..k] ==> v in users[..k + 1];
      if u.role == Admin || u.name !in id.cleared {
        continue;
      }
      var b := EvalGrants(u, GroupsOf(id, u), before);
      var a := EvalGrants(u, GroupsOf(id, u), after);
      if Gains(b, a) {
        loosening := true;
      }
    }
    assert users[..|users|] == users;
  }

  // ----- who is named, and what they may do, in the lists' own terms -----

  /** The grant is for everyone, for the user's role and that one alone, for the user, or for one of the groups. */
  predicate NamedBy(s: Subject, u: User, groups: set<string>) {
    || s == Everyone || s == OfUser(u.name) || (s.OfGroup? && s.name in groups)
    || (u.role == Viewer && s == OfRole("viewer")) || (u.role == Editor && s == OfRole("editor"))
    || (u.role == Admin && s == OfRole("admin"))
  }

  lemma {:induction false} MatchesExactly(s: Subject, u: User, groups: set<string>)
    ensures Matches(s, u, groups) <==> NamedBy(s, u, groups)
  {
  }

  /**
   What a user may do with a dataset, in full. An administrator may do everything. Anyone else must hold every
   marking, and may then view under an empty list, edit under one as an editor, and under any other list do what
   some grant that names them gives, an edit grant giving both.
   */
  lemma {:induction false} AccessExactly(id: Identity, u: User, grants: seq<Grant>, groups: set<string>)
    requires groups == if u.name in id.groups then id.groups[u.name] else {}
    ensures var a := Effective(id, u, grants);
            && (u.role == Admin ==> a.view && a.edit)
            && (u.role != Admin && u.name !in id.cleared ==> !a.view && !a.edit)
            && (u.role != Admin && u.name in id.cleared && grants == [] ==> a.view && (a.edit <==> u.role == Editor))
            && (u.role != Admin && u.name in id.cleared && grants != [] ==>
                  && (a.view <==> exists i :: 0 <= i < |grants| && NamedBy(grants[i].subject, u, groups)
                                              && (grants[i].canView || grants[i].canEdit))
                  && (a.edit <==> exists i :: 0 <= i < |grants| && NamedBy(grants[i].subject, u, groups)
                                              && grants[i].canEdit))
  {
    forall i | 0 <= i < |grants|
      ensures Matches(grants[i].subject, u, groups) <==> NamedBy(grants[i].subject, u, groups)
      ensures grants[i] in grants
    {
      MatchesExactly(grants[i].subject, u, groups);
    }
    if g :| g in grants && GivesView(g, u, groups) {
      var i :| 0 <= i < |grants| && grants[i] == g;
      assert NamedBy(grants[i].subject, u, groups);
    }
    if g :| g in grants && GivesEdit(g, u, groups) {
      var i :| 0 <= i < |grants| && grants[i] == g;
      assert NamedBy(grants[i].subject, u, groups);
    }
    if i :| 0 <= i < |grants| && NamedBy(grants[i].subject, u, groups) && grants[i].canEdit {
      assert GivesEdit(grants[i], u, groups) && GivesView(grants[i], u, groups);
    }
    if i :| 0 <= i < |grants| && NamedBy(grants[i].subject, u, groups) && (grants[i].canView || grants[i].canEdit) {
      assert GivesView(grants[i], u, groups);
    }
  }

  // ----- user roles -----

  /** `_diff_user_role` compares ranks; a missing account ranks below every role. */
  predicate RoleLoosens(existing: Option<Role>, to: Role): (loosens: bool)
    ensures existing == None ==> loosens
    ensures existing == Some(Viewer) ==> (loosens <==> to == Editor || to == Admin)
    ensures existing == Some(Editor) ==> (loosens <==> to == Admin)
    ensures existing == Some(Admin) ==> !loosens
  {
    existing.None? || to.Rank() > existing.value.Rank()
  }

  predicate GivenToAll(g: Grant, edit: bool) {
    (g.subject == Everyone || g.subject == OfRole("editor")) && (g.canEdit || (g.canView && !edit))
  }

  /**
   What a grant list gives to the role `viewer` it also gives to everyone or to the role `editor`. A list can
   fail this because a role grant names one role exactly, not that role and those above it.
   */
  predicate ViewerGrantsCovered(grants: seq<Grant>) {
    forall g :: g in grants && g.subject == OfRole("viewer") ==>
      && ((g.canView || g.canEdit) ==> exists h :: h in grants && GivenToAll(h, false))
      && (g.canEdit ==> exists h :: h in grants && GivenToAll(h, true))
  }

  function NamedUsers(grants: seq<Grant>): set<string> {
    set g | g in grants && g.subject.OfUser? :: g.subject.name
  }

  /** An editor whom no grant names, under a name an account could carry. */
  function Stranger(grants: seq<Grant>): User {
    User(Label("u", FirstFree("u", NamedUsers(grants), 0)), Editor)
  }

  lemma StrangerIsUnnamed(grants: seq<Grant>)
    ensures forall g :: g in grants && g.subject.OfUser? ==> g.subject.name != Stranger(grants).name
  {
    FirstFreeExact("u", NamedUsers(grants), 0);
    forall g | g in grants && g.subject.OfUser?
      ensures g.subject.name in NamedUsers(grants)
    {
    }
  }

  /** USERNAME_RE: 2 to 32 lower-case letters, digits, underscores, dots and dashes. */
  predicate UserNameOk(name: string) {
    2 <= |name| <= 32
    && forall c :: c in name ==> 'a' <= c <= 'z' || IsDigit(c) || c == '_' || c == '.' || c == '-'
  }

  lemma {:induction false} NatTextLength(n: nat, width: nat)
    requires width > 0 && n < Pow10(width)
    ensures |NatText(n)| <= width
  {
    if n >= 10 {
      NatTextLength(n / 10, width - 1);
    }
  }

  lemma {:induction false} NamedUsersAreFew(grants: seq<Grant>)
    ensures |NamedUsers(grants)| <= |grants|
  {
    if grants != [] {
      var g, rest := grants[0], grants[1..];
      NamedUsersAreFew(rest);
      assert grants == [g] + rest;
      assert NamedUsers(grants) == NamedUsers(rest) + (if g.subject.OfUser? then {g.subject.name} else {});
    }
  }

  /** The witness below is a user the system could create, for any list of fewer than 10^31 grants. */
  lemma StrangerCanExist(grants: seq<Grant>)
    requires |grants| < Pow10(31)
    ensures UserNameOk(Stranger(grants).name)
  {
    var k := FirstFree("u", NamedUsers(grants), 0);
    FirstFreeExact("u", NamedUsers(grants), 0);
    NamedUsersAreFew(grants);
    NatTextLength(k, 31);
    var name := Stranger(grants).name;
    assert name == "u" + NatText(k);
    forall c | c in name
      ensures c == 'u' || IsDigit(c)
    {
      var i :| 0 <= i < |name| && name[i] == c;
      if i > 0 {
        assert IsDigit(NatText(k)[i - 1]);
      }
    }
  }

  lemma DemotionOfEditor(u: User, groups: set<string>, grants: seq<Grant>)
    requires ViewerGrantsCovered(grants) && u.role == Editor
    ensures !Gains(Granted(u, groups, grants), Granted(u.(role := Viewer), groups, grants))
  {
    var v := u.(role := Viewer);
    forall g | g in grants && GivesView(g, v, groups)
      ensures exists h :: h in grants && GivesView(h, u, groups)
    {
      if g.subject != OfRole("viewer") {
        assert GivesView(g, u, groups);
      } else {
        var h :| h in grants && GivenToAll(h, false);
        assert GivesView(h, u, groups);
      }
    }
    forall g | g in grants && GivesEdit(g, v, groups)
      ensures exists h :: h in grants && GivesEdit(h, u, groups)
    {
      if g.subject != OfRole("viewer") {
        assert GivesEdit(g, u, groups);
      } else {
        var h :| h in grants && GivenToAll(h, true);
        assert GivesEdit(h, u, groups);
      }
    }
  }

  /** An editor nobody names, in no group, gains by demotion when the viewers' grant is not covered. */
  lemma UncoveredDemotionGains(grants: seq<Grant>)
    requires !ViewerGrantsCovered(grants)
    ensures var u := Stranger(grants); Gains(Granted(u, {}, grants), Granted(u.(role := Viewer), {}, grants))
  {
    var u := Stranger(grants);
    var v := u.(role := Viewer);
    StrangerIsUnnamed(grants);
    var g :| g in grants && g.subject == OfRole("viewer") &&
             !(((g.canView || g.canEdit) ==> exists h :: h in grants && GivenToAll(h, false))
               && (g.canEdit ==> exists h :: h in grants && GivenToAll(h, true)));
    assert GivesView(g, v, {});
    forall h | h in grants && GivesView(h, u, {})
      ensures GivenToAll(h, false)
    {
    }
    forall h | h in grants && GivesEdit(h, u, {})
      ensures GivenToAll(h, true)
    {
    }
    if g.canEdit && !exists h :: h in grants && GivenToAll(h, true) {
      assert GivesEdit(g, v, {});
    }
  }

  /**
   "A role change classified as tightening widens nobody" is not true of every grant list, because the verdict
   looks at ranks alone. It is true of a list exactly when what the list gives to viewers is covered.
   */
  lemma RoleTighteningExact(grants: seq<Grant>)
    ensures ViewerGrantsCovered(grants) <==>
            forall u: User, groups: set<string>, to: Role :: !RoleLoosens(Some(u.role), to) ==>
              !Gains(Granted(u, groups, grants), Granted(u.(role := to), groups, grants))
  {
    if ViewerGrantsCovered(grants) {
      forall u: User, groups: set<string>, to: Role | !RoleLoosens(Some(u.role), to)
        ensures !Gains(Granted(u, groups, grants), Granted(u.(role := to), groups, grants))
      {
        if u.role == Editor && to == Viewer {
          DemotionOfEditor(u, groups, grants);
        } else {
          assert u.role == Admin || u.(role := to) == u;
        }
      }
    } else {
      UncoveredDemotionGains(grants);
      var u := Stranger(grants);
      assert !RoleLoosens(Some(u.role), Viewer);
      assert Gains(Granted(u, {}, grants), Granted(u.(role := Viewer), {}, grants));
    }
  }
}
