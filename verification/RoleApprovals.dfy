/**
 The approval protocol with one of its comparators put in: changes of a user's role, judged by rank, over one
 dataset's grants.
 */
module RoleApprovals {
  import opened Common
  import opened PolicyDiff
  import Approvals

  /** Everyone's role and groups; the grant list is a parameter of the rules. */
  datatype Directory = Directory(roles: map<string, Role>, groups: map<string, set<string>>)

  datatype SetRole = SetRole(name: string, to: Role)

  function AccessOf(grants: seq<Grant>, d: Directory, name: string): Access {
    if name in d.roles then Granted(User(name, d.roles[name]), if name in d.groups then d.groups[name] else {}, grants)
    else Access(false, false)
  }

  /** Somebody can do what they could not. */
  predicate Widens(grants: seq<Grant>, before: Directory, after: Directory) {
    exists name :: name in after.roles && Gains(AccessOf(grants, before, name), AccessOf(grants, after, name))
  }

  function RoleOf(d: Directory, name: string): Option<Role> {
    if name in d.roles then Some(d.roles[name]) else None
  }

  /** `_diff_user_role`; the verdict carries the ranks it compared. */
  function Judge(d: Directory, e: SetRole): Approvals.Diff<(Option<Role>, Role)> {
    Approvals.Diff(if RoleLoosens(RoleOf(d, e.name), e.to) then Approvals.Loosening else Approvals.Tightening,
                   (RoleOf(d, e.name), e.to))
  }

  /** The role update; an account that does not exist raises. */
  function Perform(d: Directory, e: SetRole): (Directory, bool) {
    if e.name in d.roles then (d.(roles := d.roles[e.name := e.to]), true) else (d, false)
  }

  function RoleRules(grants: seq<Grant>): Approvals.Rules<Directory, SetRole, (Option<Role>, Role)> {
    Approvals.Rules(Judge, Perform, (on: bool) => (None, Viewer), (b, a) => Widens(grants, b, a))
  }

  lemma NothingWidensItself(grants: seq<Grant>)
    ensures forall d :: !RoleRules(grants).widens(d, d)
  {
  }

  /** The comparator is sound over a grant list exactly when what the list gives to viewers is covered. */
  lemma RolesSoundExactly(grants: seq<Grant>)
    ensures Approvals.ComparatorSound(RoleRules(grants)) <==> ViewerGrantsCovered(grants)
  {
    var r := RoleRules(grants);
    NothingWidensItself(grants);
    RoleTighteningExact(grants);
    if ViewerGrantsCovered(grants) {
      forall d, e | r.classify(d, e).class_ == Approvals.Tightening
        ensures !r.widens(d, r.perform(d, e).0)
      {
        CoveredTighteningWidensNobody(grants, d, e);
      }
    } else {
      var d, e := LoneEditor(grants), SetRole(Stranger(grants).name, Viewer);
      UncoveredDemotionWidens(grants);
      assert r.classify(d, e).class_ == Approvals.Tightening && r.widens(d, r.perform(d, e).0);
    }
  }

  lemma CoveredTighteningWidensNobody(grants: seq<Grant>, d: Directory, e: SetRole)
    requires ViewerGrantsCovered(grants) && !RoleLoosens(RoleOf(d, e.name), e.to)
    ensures !Widens(grants, d, Perform(d, e).0)
  {
    RoleTighteningExact(grants);
    var d' := Perform(d, e).0;
    forall name | name in d'.roles
      ensures !Gains(AccessOf(grants, d, name), AccessOf(grants, d', name))
    {
      if name == e.name {
        var u := User(name, d.roles[name]);
        assert u.(role := e.to) == User(name, e.to);
      }
    }
  }

  /** A directory of one editor, whom no grant names and who is in no group. */
  function LoneEditor(grants: seq<Grant>): Directory {
    Directory(map[Stranger(grants).name := Editor], map[])
  }

  lemma UncoveredDemotionWidens(grants: seq<Grant>)
    requires !ViewerGrantsCovered(grants)
    ensures var d, e := LoneEditor(grants), SetRole(Stranger(grants).name, Viewer);
            !RoleLoosens(RoleOf(d, e.name), e.to) && Widens(grants, d, Perform(d, e).0)
  {
    var d, e := LoneEditor(grants), SetRole(Stranger(grants).name, Viewer);
    UncoveredDemotionGains(grants);
    var u := Stranger(grants);
    assert u.(role := Viewer) == User(u.name, Viewer);
    assert Gains(AccessOf(grants, d, e.name), AccessOf(grants, Perform(d, e).0, e.name));
  }

  /**
   Four eyes over role changes, exactly: the first loosening of every run has a second pair of eyes if and only if
   what the grant list gives to viewers it also gives to everyone or to editors.
   */
  lemma FourEyesOverRolesExactly(grants: seq<Grant>)
    ensures Approvals.FourEyesHold(RoleRules(grants)) <==> ViewerGrantsCovered(grants)
  {
    NothingWidensItself(grants);
    RolesSoundExactly(grants);
    Approvals.FourEyesExactly(RoleRules(grants));
  }

  /**
   The run that breaks it: with the mode on and any uncovered list, one administrator's submission demotes an
   editor, is applied at once as a tightening, and widens what that user can do.
   */
  lemma OneAdminLoosens(grants: seq<Grant>, admin: string, adminId: string)
    requires !ViewerGrantsCovered(grants)
    ensures var r := RoleRules(grants);
            var w := Approvals.World(LoneEditor(grants), true, map[], 0);
            var c := Approvals.Governance(SetRole(Stranger(grants).name, Viewer));
            var steps := [Approvals.Submit(false, c, admin, adminId)];
            && Approvals.FirstLoosening(r, w, steps, 0)
            && Approvals.DoStep(r, w, steps[0]).1 == Approvals.Applied(0)
            && !Approvals.SecondPairOfEyes(r, w, steps[0])
  {
    var d, e := LoneEditor(grants), SetRole(Stranger(grants).name, Viewer);
    UncoveredDemotionWidens(grants);
    Approvals.UnsoundEditSlipsThrough(RoleRules(grants), d, e, admin, adminId);
  }

  /** Such a list in one grant: the dataset is for viewers, and an editor who becomes one can read it. */
  lemma ViewersOnlyListIsUncovered()
    ensures !ViewerGrantsCovered([Grant(OfRole("viewer"), true, false)])
  {
    var g := Grant(OfRole("viewer"), true, false);
    assert g in [g] && g.subject == OfRole("viewer");
    assert forall h :: h in [g] ==> !GivenToAll(h, false);
  }
}
